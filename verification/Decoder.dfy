/** Turning raw words into values (api/utils.py).

  The methods fold and mask words the way the source does; the functions beside them say what
  the result means: a little-endian base 65536 number, read as two's complement.
 */
module Decoder {
  import opened Wrappers
  import opened Bits
  import opened Registers

  datatype Value = Whole(i: int) | Scaled(r: real) | Text(s: string)

  // ----- Two's complement

  /** Reinterpret the low `bits` bits of a value as two's complement. */
  function ToSigned(value: int, bits: nat): int
    requires bits >= 1
  {
    var signBit := ShiftLeft(1, bits - 1);
    BitAnd(value, signBit - 1) - BitAnd(value, signBit)
  }

  ghost predicate InSignedRange(s: int, bits: nat)
    requires bits >= 1
  {
    0 - Pow2(bits - 1) <= s < Pow2(bits - 1)
  }

  lemma ToSignedByDivision(value: int, bits: nat, h: int)
    requires bits >= 1 && h == Pow2(bits - 1)
    ensures ToSigned(value, bits) == value % h - value / h % 2 * h
  {
    AndWithOnes(value, bits - 1);
    AndWithOneBit(value, bits - 1);
  }

  lemma ToSignedModulo(value: int, bits: nat, h: int, p: int)
    requires bits >= 1 && h == Pow2(bits - 1) && p == 2 * h
    ensures 0 - h <= ToSigned(value, bits) < h
    ensures (value - ToSigned(value, bits)) % p == 0
  {
    ToSignedByDivision(value, bits, h);
    MaskedIsCongruent(value, h, ToSigned(value, bits), p);
  }

  lemma ToSignedIsCongruent(value: int, bits: nat)
    requires bits >= 1
    ensures InSignedRange(ToSigned(value, bits), bits)
    ensures (value - ToSigned(value, bits)) % Pow2(bits) == 0
  {
    ToSignedModulo(value, bits, Pow2(bits - 1), Pow2(bits));
  }

  /** The masks pick the one number of the signed range that is congruent to the value. */
  lemma ToSignedIsTwosComplement(value: int, bits: nat, s: int)
    requires bits >= 1
    ensures ToSigned(value, bits) == s <==> InSignedRange(s, bits) && (value - s) % Pow2(bits) == 0
  {
    ToSignedIsCongruent(value, bits);
    assert Pow2(bits) == 2 * Pow2(bits - 1);
    if InSignedRange(s, bits) && (value - s) % Pow2(bits) == 0 {
      CongruentInRange(value, s, ToSigned(value, bits), Pow2(bits - 1));
    }
  }

  lemma MaskedIsCongruent(value: int, h: int, t: int, p: int)
    requires h >= 1 && p == 2 * h && t == value % h - value / h % 2 * h
    ensures 0 - h <= t < h
    ensures (value - t) % p == 0
  {
    var q := value / h;
    var k := (q + q % 2) / 2;
    EvenMultiple(value, h, q, value % h, q % 2, k);
    RemainderIsUnique(value - t, p, k, 0);
  }

  lemma EvenMultiple(value: int, h: int, q: int, r: int, bit: int, k: int)
    requires 0 <= r < h && 0 <= bit <= 1 && value == q * h + r && q + bit == 2 * k
    ensures 0 - h <= r - bit * h < h
    ensures value - (r - bit * h) == k * (2 * h)
  {
    assert bit * h == if bit == 0 then 0 else h;
    Distribute(h, q, bit);
    Regroup(2, k, h);
  }

  lemma CongruentInRange(value: int, s: int, t: int, h: int)
    requires h >= 1 && 0 - h <= s < h && 0 - h <= t < h
    requires (value - s) % (2 * h) == 0 && (value - t) % (2 * h) == 0
    ensures s == t
  {
    var m := 2 * h;
    var i, j := (value - s) / m, (value - t) / m;
    assert t - s == i * m - j * m;
    assert i * m - j * m == (i - j) * m;
    MultiplesAreApart(i - j, m);
  }

  // ----- Numbers made of words

  /** The number a list of words stands for, least significant word first. */
  function Number(words: seq<Word>): nat {
    if words == [] then 0 else words[0] + 0x1_0000 * Number(words[1..])
  }

  /** The low `n` words of a number, least significant word first. */
  function Encode(v: int, n: nat): (words: seq<Word>)
    ensures |words| == n
    decreases n
  {
    if n == 0 then [] else [v % 0x1_0000] + Encode(v / 0x1_0000, n - 1)
  }

  /** 2 to the power of 16 n. */
  function Span(n: nat): int {
    Pow2(16 * n)
  }

  lemma SpanStep(n: nat)
    requires n >= 1
    ensures Span(n) == 0x1_0000 * Span(n - 1)
  {
    PowersOfBytes();
    Pow2Adds(16, 16 * (n - 1));
  }

  lemma {:induction false} NumberIsBounded(words: seq<Word>)
    ensures Number(words) < Span(|words|)
  {
    if words != [] {
      NumberIsBounded(words[1..]);
      SpanStep(|words|);
    }
  }

  lemma {:induction false} NumberOfEncode(v: int, n: nat)
    ensures Number(Encode(v, n)) == v % Span(n)
    decreases n
  {
    if n > 0 {
      NumberOfEncode(v / 0x1_0000, n - 1);
      SpanStep(n);
      DivisionInSteps(v, 0x1_0000, Span(n - 1));
    }
  }

  lemma {:induction false} EncodeOfNumber(words: seq<Word>)
    ensures Encode(Number(words), |words|) == words
  {
    if words != [] {
      EncodeOfNumber(words[1..]);
      RemainderIsUnique(Number(words), 0x1_0000, Number(words[1..]), words[0]);
      assert words == [words[0]] + words[1..];
    }
  }

  lemma NumberIsInjective(x: seq<Word>, y: seq<Word>)
    requires |x| == |y| && Number(x) == Number(y)
    ensures x == y
  {
    EncodeOfNumber(x);
    EncodeOfNumber(y);
  }

  function Reverse(words: seq<Word>): (r: seq<Word>)
    ensures |r| == |words|
    ensures forall i :: 0 <= i < |words| ==> r[i] == words[|words| - 1 - i]
  {
    if words == [] then [] else Reverse(words[1..]) + [words[0]]
  }

  /** Reading the words most significant first gives the same number only when they read the
    same in both directions; for two words, when the two are equal. */
  lemma WordOrderMatters(words: seq<Word>)
    ensures Number(Reverse(words)) == Number(words) <==> Reverse(words) == words
    ensures |words| == 2 ==> (Number(Reverse(words)) == Number(words) <==> words[0] == words[1])
  {
    if Number(Reverse(words)) == Number(words) {
      NumberIsInjective(Reverse(words), words);
    }
    if |words| == 2 && words[0] == words[1] {
      assert Reverse(words) == words;
    }
  }

  // ----- Raw values

  predicate IsSigned(dataType: DataType) {
    dataType in {INT16, INT32, INT64}
  }

  /** The integer a register of a numeric type holds. */
  function RawValue(dataType: DataType, words: seq<Word>): int {
    var n := Number(words);
    if IsSigned(dataType) && 2 * n >= Span(|words|) then n - Span(|words|) else n
  }

  /** The integers a type of `n` words can hold. */
  ghost predicate Representable(dataType: DataType, n: nat, v: int)
    requires n >= 1
  {
    if IsSigned(dataType) then InSignedRange(v, 16 * n) else 0 <= v < Span(n)
  }

  lemma RawValueIsRepresentable(dataType: DataType, words: seq<Word>)
    requires words != []
    ensures Representable(dataType, |words|, RawValue(dataType, words))
    ensures RawValue(dataType, words) % Span(|words|) == Number(words)
  {
    NumberIsBounded(words);
    SpanIsEven(|words|);
    ResidueAfterWrap(Number(words), Span(|words|));
  }

  lemma SpanIsEven(n: nat)
    requires n >= 1
    ensures Span(n) == 2 * Pow2(16 * n - 1)
  {
  }

  /** Subtracting the modulus once, or not at all, does not change the residue. */
  lemma ResidueAfterWrap(r: int, p: int)
    requires 0 <= r < p
    ensures r % p == r && (r - p) % p == r
  {
    RemainderIsUnique(r, p, 0, r);
    RemainderIsUnique(r - p, p, -1, r);
  }

  /** Encoding then decoding returns every value the type can hold. */
  lemma DecodeAfterEncode(dataType: DataType, n: nat, v: int)
    requires n >= 1 && Representable(dataType, n, v)
    ensures RawValue(dataType, Encode(v, n)) == v
  {
    NumberOfEncode(v, n);
    SpanIsEven(n);
    ResidueAfterWrap(if v < 0 then v + Span(n) else v, Span(n));
  }

  /** Decoding then encoding returns every list of words. */
  lemma EncodeAfterDecode(dataType: DataType, words: seq<Word>)
    requires words != []
    ensures Encode(RawValue(dataType, words), |words|) == words
  {
    var v := RawValue(dataType, words);
    RawValueIsRepresentable(dataType, words);
    NumberOfEncode(v, |words|);
    NumberIsInjective(Encode(v, |words|), words);
  }

  /** The masks compute the signed reading of a number that fits its width. */
  lemma ToSignedOfNumber(dataType: DataType, words: seq<Word>)
    requires words != [] && IsSigned(dataType)
    ensures ToSigned(Number(words), 16 * |words|) == RawValue(dataType, words)
  {
    RawValueIsRepresentable(dataType, words);
    NoneOrOne(Span(|words|));
    ToSignedIsTwosComplement(Number(words), 16 * |words|, RawValue(dataType, words));
  }

  lemma NoneOrOne(p: int)
    requires p >= 1
    ensures 0 % p == 0 && p % p == 0
  {
    RemainderIsUnique(p, p, 1, 0);
    RemainderIsUnique(0, p, 0, 0);
  }

  // ----- Value weights

  /** Rounding to the nearest integer, ties to the even one. */
  function RoundHalfEven(x: real): (n: int)
    ensures x - 0.5 <= n as real <= x + 0.5
    ensures n as real == x - 0.5 || n as real == x + 0.5 ==> n % 2 == 0
  {
    var f := x.Floor;
    var d := x - f as real;
    if d < 0.5 || (d == 0.5 && f % 2 == 0) then f else f + 1
  }

  /** `round(x, 6)` in exact arithmetic. */
  function Round6(x: real): real {
    RoundHalfEven(x * 1000000.0) as real / 1000000.0
  }

  lemma WholeNumbersStay(n: int)
    ensures RoundHalfEven(n as real) == n
  {
  }

  /** A weight that divides a million loses nothing: the raw integer can be recovered. The map's
    weights 10, 100 and 1000 do. */
  lemma {:induction false} ScalingIsExact(raw: int, weight: real, k: int)
    requires weight > 0.0 && weight * k as real == 1000000.0
    ensures Round6(raw as real / weight) == raw as real / weight
    ensures Round6(raw as real / weight) * weight == raw as real
  {
    var x := raw as real / weight;
    assert x * weight == raw as real;
    Multiplied(x, weight, k as real);
    assert (raw * k) as real == raw as real * k as real;
    WholeNumbersStay(raw * k);
    assert x * 1000000.0 == (raw * k) as real;
  }

  lemma Multiplied(x: real, y: real, z: real)
    ensures x * (y * z) == (x * y) * z
  {
  }

  lemma RoundingIsMonotone(x: real, y: real)
    requires x <= y
    ensures RoundHalfEven(x) <= RoundHalfEven(y)
  {
    if x.Floor == y.Floor {
    } else {
      assert x.Floor + 1 <= y.Floor;
    }
  }

  lemma QuotientIsMonotone(a: real, b: real, weight: real)
    requires weight > 0.0 && a <= b
    ensures a / weight <= b / weight
  {
    var d := (b - a) / weight;
    assert d >= 0.0;
    assert d == b / weight - a / weight;
  }

  /** For any positive weight, a larger reading never scales to a smaller value, and the value
    is within half a millionth of the quotient. */
  lemma ScalingIsFaithful(a: int, b: int, weight: real)
    requires weight > 0.0 && a <= b
    ensures Round6(a as real / weight) <= Round6(b as real / weight)
    ensures -0.0000005 <= Round6(a as real / weight) - a as real / weight <= 0.0000005
  {
    var x, y := a as real / weight, b as real / weight;
    QuotientIsMonotone(a as real, b as real, weight);
    RoundingIsMonotone(x * 1000000.0, y * 1000000.0);
  }

  // ----- Strings

  predicate Printable(code: int) {
    0x20 <= code <= 0x7E
  }

  function LowByte(w: Word): (b: int)
    ensures b == w % 256
  {
    PowersOfBytes();
    AndWithOnes(w, 8);
    BitAnd(w, 0xFF)
  }

  /** The character a word contributes, if any. */
  function Shown(w: Word): string {
    if Printable(LowByte(w)) then [LowByte(w) as char] else []
  }

  /** The printable low bytes, in order. */
  function PrintableText(words: seq<Word>): string {
    if words == [] then [] else Shown(words[0]) + PrintableText(words[1..])
  }

  function StripLeft(s: string): string {
    if s != [] && s[0] == ' ' then StripLeft(s[1..]) else s
  }

  function StripRight(s: string): string {
    if s != [] && s[|s| - 1] == ' ' then StripRight(s[..|s| - 1]) else s
  }

  /** Only spaces can surround the text, because no other white space is printable ASCII. */
  function DecodeString(words: seq<Word>): string {
    StripRight(StripLeft(PrintableText(words)))
  }

  /** Text a serial number can be: printable, with no space at either end. */
  predicate Trimmed(s: string) {
    && (forall c :: c in s ==> ' ' <= c <= '~')
    && (s != [] ==> s[0] != ' ' && s[|s| - 1] != ' ')
  }

  predicate Blank(s: string) {
    forall i :: 0 <= i < |s| ==> s[i] == ' '
  }

  /** A word that contributes no visible character. */
  predicate Padding(w: Word) {
    !Printable(w % 256) || w % 256 == 0x20
  }

  lemma Associative(s: string, t: string, u: string)
    ensures s + (t + u) == (s + t) + u
  {
  }

  lemma TextOfFirst(w: Word, rest: seq<Word>)
    ensures PrintableText([w] + rest) == Shown(w) + PrintableText(rest)
  {
    assert ([w] + rest)[1..] == rest;
  }

  lemma {:induction false} PrintableTextConcatenates(p: seq<Word>, q: seq<Word>)
    ensures PrintableText(p + q) == PrintableText(p) + PrintableText(q)
  {
    if p == [] {
      assert p + q == q;
    } else {
      var rest := p[1..] + q;
      assert p + q == [p[0]] + rest;
      PrintableTextConcatenates(p[1..], q);
      TextOfFirst(p[0], rest);
      TextOfFirst(p[0], p[1..]);
      assert p == [p[0]] + p[1..];
      Associative(Shown(p[0]), PrintableText(p[1..]), PrintableText(q));
    }
  }

  lemma {:induction false} PaddingIsBlank(words: seq<Word>)
    ensures Blank(PrintableText(words)) <==> forall i :: 0 <= i < |words| ==> Padding(words[i])
  {
    if words != [] {
      var here, rest := Shown(words[0]), PrintableText(words[1..]);
      PaddingIsBlank(words[1..]);
      BlankConcatenation(here, rest);
      assert Blank(here) <==> Padding(words[0]) by {
        assert Printable(LowByte(words[0])) ==> here[0] as int == words[0] % 256;
      }
      assert forall i :: 1 <= i < |words| ==> words[i] == words[1..][i - 1];
    }
  }

  lemma BlankConcatenation(s: string, t: string)
    ensures Blank(s + t) <==> Blank(s) && Blank(t)
  {
    if Blank(s + t) {
      assert forall i :: 0 <= i < |s| ==> s[i] == (s + t)[i];
      assert forall i :: 0 <= i < |t| ==> t[i] == (s + t)[|s| + i];
    }
  }

  lemma {:induction false} TextIsPrintable(words: seq<Word>)
    ensures forall c :: c in PrintableText(words) ==> ' ' <= c <= '~'
  {
    if words != [] {
      TextIsPrintable(words[1..]);
    }
  }

  /** Stripping removes the blanks in front and nothing else. */
  lemma {:induction false} StripLeftSplits(s: string) returns (blanks: string)
    ensures Blank(blanks) && s == blanks + StripLeft(s)
    ensures StripLeft(s) != [] ==> StripLeft(s)[0] != ' '
  {
    if s != [] && s[0] == ' ' {
      var rest := StripLeftSplits(s[1..]);
      blanks := [' '] + rest;
      assert s == [s[0]] + s[1..];
    } else {
      blanks := [];
    }
  }

  lemma {:induction false} StripRightSplits(s: string) returns (blanks: string)
    ensures Blank(blanks) && s == StripRight(s) + blanks
    ensures StripRight(s) != [] ==> StripRight(s)[|StripRight(s)| - 1] != ' '
  {
    if s != [] && s[|s| - 1] == ' ' {
      var rest := StripRightSplits(s[..|s| - 1]);
      blanks := rest + [' '];
      assert s == s[..|s| - 1] + [s[|s| - 1]];
    } else {
      blanks := [];
    }
  }

  lemma {:induction false} BlanksInFront(b: string, s: string)
    requires Blank(b)
    ensures StripLeft(b + s) == StripLeft(s)
  {
    if b == [] {
      assert b + s == s;
    } else {
      assert (b + s)[1..] == b[1..] + s;
      BlanksInFront(b[1..], s);
    }
  }

  lemma {:induction false} BlanksBehind(s: string, e: string)
    requires Blank(e)
    ensures StripRight(s + e) == StripRight(s)
  {
    if e == [] {
      assert s + e == s;
    } else {
      var n := |e| - 1;
      assert (s + e)[..|s + e| - 1] == s + e[..n];
      BlanksBehind(s, e[..n]);
    }
  }

  /** Stripping gives back trimmed text that was surrounded by blanks. */
  lemma StripSurrounded(b: string, s: string, e: string)
    requires Blank(b) && Trimmed(s) && Blank(e)
    ensures StripRight(StripLeft(b + s + e)) == s
  {
    assert b + s + e == b + (s + e);
    BlanksInFront(b, s + e);
    if s == [] {
      assert s + e == e && e + [] == e;
      BlanksInFront(e, []);
    } else {
      assert (s + e)[0] == s[0];
      BlanksBehind(s, e);
    }
  }

  /** Decoding splits the printable text into blanks, the result and blanks. */
  lemma DecodeSplits(words: seq<Word>) returns (before: string, after: string)
    ensures Blank(before) && Blank(after) && Trimmed(DecodeString(words))
    ensures PrintableText(words) == before + DecodeString(words) + after
  {
    var text := PrintableText(words);
    var left, s := StripLeft(text), DecodeString(words);
    before := StripLeftSplits(text);
    after := StripRightSplits(left);
    Associative(before, s, after);
    TextIsPrintable(words);
    MiddleIsPrintable(before, s, after);
    assert s != [] ==> left[0] == s[0];
  }

  lemma MiddleIsPrintable(before: string, s: string, after: string)
    requires forall c :: c in before + s + after ==> ' ' <= c <= '~'
    ensures forall c :: c in s ==> ' ' <= c <= '~'
  {
    forall c | c in s
      ensures c in before + s + after
    {
    }
  }

  /** What a decoded string is: trimmed printable text that is empty exactly when every word
    is padding. */
  lemma SerialText(words: seq<Word>)
    ensures Trimmed(DecodeString(words))
    ensures DecodeString(words) == [] <==> forall i :: 0 <= i < |words| ==> Padding(words[i])
  {
    var before, after := DecodeSplits(words);
    var text, s := PrintableText(words), DecodeString(words);
    PaddingIsBlank(words);
    if s == [] {
      assert Blank(text);
    } else {
      assert text[|before|] == s[0] && s[0] in text;
    }
  }

  /** The text of words that each carry one printable character. */
  lemma {:induction false} TextOfCharacters(words: seq<Word>, s: string)
    requires |words| == |s|
    requires forall i :: 0 <= i < |s| ==> ' ' <= s[i] <= '~' && words[i] % 256 == s[i] as int
    ensures PrintableText(words) == s
  {
    if s != [] {
      TextOfCharacters(words[1..], s[1..]);
      assert s == [s[0]] + s[1..];
    }
  }

  /** A trimmed serial number survives padding with NULs, spaces or control characters on
    either side, whatever the high bytes hold. */
  lemma PaddedSerialRoundTrip(before: seq<Word>, body: seq<Word>, after: seq<Word>, s: string)
    requires Trimmed(s) && |body| == |s|
    requires forall i :: 0 <= i < |s| ==> body[i] % 256 == s[i] as int
    requires forall w :: w in before + after ==> Padding(w)
    ensures DecodeString(before + body + after) == s
  {
    var words := before + body + after;
    forall i | 0 <= i < |s|
      ensures ' ' <= s[i] <= '~'
    {
      assert s[i] in s;
    }
    TextOfCharacters(body, s);
    PaddingIsBlank(before);
    PaddingIsBlank(after);
    assert forall w :: w in before ==> w in before + after;
    assert forall w :: w in after ==> w in before + after;
    PrintableTextConcatenates(before + body, after);
    PrintableTextConcatenates(before, body);
    StripSurrounded(PrintableText(before), s, PrintableText(after));
  }

  /** Only the low bytes matter. */
  lemma {:induction false} HighBytesDoNotMatter(p: seq<Word>, q: seq<Word>)
    requires |p| == |q| && forall i :: 0 <= i < |p| ==> p[i] % 256 == q[i] % 256
    ensures PrintableText(p) == PrintableText(q) && DecodeString(p) == DecodeString(q)
  {
    if p != [] {
      HighBytesDoNotMatter(p[1..], q[1..]);
    }
  }

  /** A word without a printable character drops out, wherever it stands. */
  lemma UnprintableWordsDropOut(p: seq<Word>, w: Word, q: seq<Word>)
    requires !(0x20 <= w % 256 <= 0x7E)
    ensures DecodeString(p + [w] + q) == DecodeString(p + q)
  {
    PrintableTextConcatenates(p + [w], q);
    PrintableTextConcatenates(p, [w]);
    PrintableTextConcatenates(p, q);
    TextOfFirst(w, []);
    assert [w] + [] == [w];
    assert PrintableText(p) + [] == PrintableText(p);
  }

  // ----- One register

  /** Every word the register spans is present. */
  predicate Complete(register: Register, values: map<int, Word>) {
    forall a :: register.address <= a < register.address + register.length ==> a in values
  }

  function SpannedWords(register: Register, values: map<int, Word>): (words: seq<Word>)
    requires Complete(register, values)
    ensures |words| == register.length
  {
    seq(register.length, i requires 0 <= i < register.length =>
      values[register.address + i])
  }

  /** What the words of a register mean. */
  function Meaning(register: Register, words: seq<Word>): Value {
    if register.dataType.STRING? then Text(DecodeString(words))
    else
      var raw := RawValue(register.dataType, words);
      if register.scale.Some? && register.scale.value != 0.0
      then Scaled(Round6(raw as real / register.scale.value))
      else Whole(raw)
  }

  function Decoded(register: Register, values: map<int, Word>): Option<Value> {
    if Complete(register, values) then Some(Meaning(register, SpannedWords(register, values))) else None
  }

  /** What the words of each type are worth. */
  lemma {:induction false} RawValueByType(dataType: DataType, words: seq<Word>)
    requires FixedWidth(dataType) == Some(|words|)
    ensures var w: seq<int> := seq(|words|, i requires 0 <= i < |words| => words[i]);
      RawValue(dataType, words)
      == match dataType
         case UINT16 => w[0]
         case INT16 => w[0] - if w[0] >= 0x8000 then 0x1_0000 else 0
         case UINT32 => w[0] + 0x1_0000 * w[1]
         case INT32 => w[0] + 0x1_0000 * w[1] - if w[1] >= 0x8000 then 0x1_0000_0000 else 0
         case INT64 =>
           w[0] + 0x1_0000 * w[1] + 0x1_0000_0000 * w[2] + 0x1_0000_0000_0000 * w[3]
           - if w[3] >= 0x8000 then 0x1_0000_0000_0000_0000 else 0
         case STRING => 0
  {
    NumberOfWords(words);
    SpansOfTypes();
  }

  /** A number without a weight is what its words are worth, and a missing word leaves nothing. */
  lemma {:induction false} DecodedWithoutWeight(r: Register, values: map<int, Word>, words: seq<Word>)
    requires r.scale.None? && |words| == r.length
    requires forall i :: 0 <= i < r.length && r.address + i in values ==> words[i] == values[r.address + i]
    ensures (exists a :: r.address <= a < r.address + r.length && a !in values) ==> Decoded(r, values) == None
    ensures (forall a :: r.address <= a < r.address + r.length ==> a in values) ==>
      Decoded(r, values)
      == Some(if r.dataType.STRING? then Text(DecodeString(words)) else Whole(RawValue(r.dataType, words)))
  {
    if Complete(r, values) {
      assert SpannedWords(r, values) == words;
    }
  }

  /** A weight divides what the unscaled register is worth, and the quotient is rounded to the
    nearest millionth; a weight of zero counts as none. */
  lemma {:induction false} ScaledByWeight(r: Register, values: map<int, Word>)
    requires r.scale.Some? && !r.dataType.STRING? && Decoded(r, values).Some?
    ensures var (v, unscaled) := (Decoded(r, values).value, Decoded(r.(scale := None), values));
      && unscaled.Some? && unscaled.value.Whole?
      && if r.scale.value == 0.0 then v == unscaled.value
         else
           var quotient := unscaled.value.i as real / r.scale.value;
           && v.Scaled? && -0.0000005 <= v.r - quotient <= 0.0000005
           && (v.r * 1000000.0).Floor as real == v.r * 1000000.0
  {
    if r.scale.value != 0.0 {
      RoundedToMillionths(Decoded(r.(scale := None), values).value.i as real / r.scale.value);
    }
  }

  lemma {:induction false} RoundedToMillionths(x: real)
    ensures -0.0000005 <= Round6(x) - x <= 0.0000005
    ensures (Round6(x) * 1000000.0).Floor as real == Round6(x) * 1000000.0
  {
    var n := RoundHalfEven(x * 1000000.0);
    assert (n as real).Floor == n;
    assert Round6(x) * 1000000.0 == n as real;
  }

  lemma {:induction false} NumberOfWords(words: seq<Word>)
    ensures |words| == 1 ==> Number(words) == words[0]
    ensures |words| == 2 ==> Number(words) == words[0] as int + 0x1_0000 * words[1] as int
    ensures |words| == 4 ==>
      Number(words) == words[0] as int + 0x1_0000 * words[1] as int
        + 0x1_0000_0000 * words[2] as int + 0x1_0000_0000_0000 * words[3] as int
  {
    if words != [] {
      FirstWord(words);
      if |words| > 1 {
        FirstWord(words[1..]);
        assert words[1..][1..] == words[2..];
      }
      if |words| > 2 {
        FirstWord(words[2..]);
        assert words[2..][1..] == words[3..];
      }
      if |words| > 3 {
        FirstWord(words[3..]);
        assert words[3..][1..] == words[4..];
      }
    }
  }

  lemma {:induction false} FirstWord(words: seq<Word>)
    requires words != []
    ensures Number(words) == words[0] + 0x1_0000 * Number(words[1..])
    ensures |words| == 1 ==> Number(words[1..]) == 0
  {
  }

  lemma {:induction false} SpansOfTypes()
    ensures Span(1) == 0x1_0000 && Span(2) == 0x1_0000_0000 && Span(4) == 0x1_0000_0000_0000_0000
  {
    PowersOfBytes();
    Pow2Adds(16, 16);
    Pow2Adds(32, 32);
  }

  /** The fold of the words, last word first. */
  method FoldWords(words: seq<Word>) returns (value: nat)
    ensures value == Number(words)
  {
    value := 0;
    var i := |words|;
    while i > 0
      invariant 0 <= i <= |words|
      invariant value == Number(words[i..])
    {
      i := i - 1;
      assert words[i..] == [words[i]] + words[i + 1..];
      PowersOfBytes();
      OrIntoZeros(value, 16, words[i]);
      value := BitOr(ShiftLeft(value, 16), words[i]);
    }
    assert words[0..] == words;
  }

  method DecodeRegister(register: Register, values: map<int, Word>) returns (v: Option<Value>)
    ensures v == Decoded(register, values)
  {
    var words: seq<Word> := [];
    for i := 0 to register.length
      invariant |words| == i
      invariant forall a :: register.address <= a < register.address + i ==>
        a in values && words[a - register.address] == values[a]
    {
      var address := register.address + i;
      if address !in values {
        return None;
      }
      words := words + [values[address]];
    }
    assert Complete(register, values);
    assert words == SpannedWords(register, values);

    if register.dataType.STRING? {
      return Some(Text(DecodeString(words)));
    }

    var value: int;
    if register.dataType in {INT32, UINT32, INT64} {
      value := FoldWords(words);
    } else {
      value := words[0];
      assert words[1..] == [];
    }
    assert value == Number(words);

    if register.dataType in {INT16, INT32, INT64} {
      ToSignedOfNumber(register.dataType, words);
      value := ToSigned(value, 16 * |words|);
    }

    if register.scale.Some? && register.scale.value != 0.0 {
      return Some(Scaled(Round6(value as real / register.scale.value)));
    }
    return Some(Whole(value));
  }

  // ----- A list of registers

  /** Registers are decoded in order; a later one of the same name wins. */
  function DecodedAll(registers: seq<Register>, values: map<int, Word>): map<string, Value> {
    if registers == [] then map[]
    else
      var last := registers[|registers| - 1];
      var before := DecodedAll(registers[..|registers| - 1], values);
      match Decoded(last, values)
      case Some(v) => before[last.name := v]
      case None => before
  }

  method DecodeRegisters(registers: seq<Register>, values: map<int, Word>) returns (result: map<string, Value>)
    ensures result == DecodedAll(registers, values)
  {
    result := map[];
    for i := 0 to |registers|
      invariant result == DecodedAll(registers[..i], values)
    {
      var value := DecodeRegister(registers[i], values);
      assert registers[..i + 1][..i] == registers[..i];
      if value.Some? {
        result := result[registers[i].name := value.value];
      }
    }
    assert registers[..|registers|] == registers;
  }

  /** The names decoded are those with some register whose words are all present. */
  lemma {:induction false} DecodedNames(registers: seq<Register>, values: map<int, Word>, name: string)
    ensures name in DecodedAll(registers, values)
      <==> exists r :: r in registers && r.name == name && Complete(r, values)
  {
    if registers != [] {
      var before, last := registers[..|registers| - 1], registers[|registers| - 1];
      DecodedNames(before, values, name);
      assert registers == before + [last];
    }
  }

  /** Of several registers of one name, the last one whose words are present gives the value. */
  lemma {:induction false} LastOneWins(registers: seq<Register>, values: map<int, Word>, i: nat)
    requires i < |registers| && Complete(registers[i], values)
    requires forall j :: i < j < |registers| && registers[j].name == registers[i].name ==>
      !Complete(registers[j], values)
    ensures var decoded := DecodedAll(registers, values);
      && registers[i].name in decoded
      && Some(decoded[registers[i].name]) == Decoded(registers[i], values)
  {
    if i < |registers| - 1 {
      LastOneWins(registers[..|registers| - 1], values, i);
    }
  }

  /** With unique names, each name has the value of its register. */
  lemma {:induction false} DecodedValues(registers: seq<Register>, values: map<int, Word>, r: Register)
    requires UniqueNames(registers) && r in registers
    ensures r.name in DecodedAll(registers, values) <==> Complete(r, values)
    ensures Complete(r, values) ==> Decoded(r, values) == Some(DecodedAll(registers, values)[r.name])
  {
    var i :| 0 <= i < |registers| && registers[i] == r;
    DecodedNames(registers, values, r.name);
    if Complete(r, values) {
      LastOneWins(registers, values, i);
    }
  }

  /** Removing words drops exactly the registers that span a removed word, and changes no
    other value; read the other way, a larger response never changes a decoded value. */
  lemma MissingWordsAreLocal(registers: seq<Register>, values: map<int, Word>, missing: set<int>, r: Register)
    requires UniqueNames(registers) && r in registers
    requires Complete(r, values)
    ensures r.name in DecodedAll(registers, values)
    ensures r.name in DecodedAll(registers, values - missing) <==> forall a :: a in missing ==> !r.Spans(a)
    ensures r.name in DecodedAll(registers, values - missing) ==>
      DecodedAll(registers, values - missing)[r.name] == DecodedAll(registers, values)[r.name]
  {
    var fewer := values - missing;
    DecodedValues(registers, values, r);
    DecodedValues(registers, fewer, r);
    if Complete(r, fewer) {
      assert SpannedWords(r, fewer) == SpannedWords(r, values);
    }
  }
}
