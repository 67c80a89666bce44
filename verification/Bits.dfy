/** Python's integer bit operations, on unbounded two's complement integers. */
module Bits {

  function Pow2(n: nat): (p: int)
    ensures p >= 1
  {
    if n == 0 then 1 else 2 * Pow2(n - 1)
  }

  lemma {:induction false} Pow2Adds(m: nat, n: nat)
    ensures Pow2(m + n) == Pow2(m) * Pow2(n)
  {
    if m > 0 {
      Pow2Adds(m - 1, n);
      assert Pow2(m + n) == 2 * Pow2(m - 1 + n);
    }
  }

  lemma PowersOfBytes()
    ensures Pow2(8) == 0x100 && Pow2(16) == 0x1_0000
  {
    assert Pow2(2) == 4;
    Pow2Adds(2, 2);
    Pow2Adds(4, 4);
    Pow2Adds(8, 8);
  }

  function Bit(b: bool): int {
    if b then 1 else 0
  }

  /** `a & mask` for a mask that is not negative; halving a negative `a` rounds down, as
    shifting its two's complement representation does. */
  function BitAnd(a: int, mask: nat): nat
    decreases mask
  {
    if mask == 0 then 0
    else 2 * BitAnd(a / 2, mask / 2) + Bit(a % 2 == 1 && mask % 2 == 1)
  }

  /** `a | b` for operands that are not negative. */
  function BitOr(a: nat, b: nat): nat
    decreases a + b
  {
    if a == 0 then b
    else if b == 0 then a
    else 2 * BitOr(a / 2, b / 2) + Bit(a % 2 == 1 || b % 2 == 1)
  }

  /** `a << n`. */
  function ShiftLeft(a: int, n: nat): int {
    a * Pow2(n)
  }

  /** Masking with n ones keeps the remainder. */
  lemma {:induction false} AndWithOnes(a: int, n: nat)
    ensures BitAnd(a, Pow2(n) - 1) == a % Pow2(n)
    decreases n
  {
    if n > 0 {
      var p := Pow2(n - 1);
      AndWithOnes(a / 2, n - 1);
      AndWithOdd(a, p - 1);
      DivisionInSteps(a, 2, p);
    }
  }

  lemma AndWithOdd(a: int, half: nat)
    ensures BitAnd(a, 2 * half + 1) == 2 * BitAnd(a / 2, half) + a % 2
  {
    assert (2 * half + 1) / 2 == half && (2 * half + 1) % 2 == 1;
  }

  /** A product is at least as far from zero as either factor that is not zero. */
  lemma MultiplesAreApart(d: int, m: int)
    requires m >= 1
    ensures d >= 1 ==> d * m >= m
    ensures d <= -1 ==> d * m <= 0 - m
  {
  }

  lemma RemainderIsUnique(a: int, m: int, q: int, r: int)
    requires m >= 1 && 0 <= r < m && a == q * m + r
    ensures a % m == r && a / m == q
  {
    var d := a / m - q;
    assert a == (a / m) * m + a % m;
    assert d * m == (a / m) * m - q * m;
    MultiplesAreApart(d, m);
  }

  /** Dividing by `b` and then by `p` is dividing by their product. */
  lemma DivisionInSteps(a: int, b: int, p: int)
    requires b >= 1 && p >= 1
    ensures b * p >= 1
    ensures a % (b * p) == b * ((a / b) % p) + a % b
    ensures a / (b * p) == (a / b) / p
  {
    var h, q := a / b, (a / b) / p;
    assert a == b * h + a % b;
    assert h == q * p + h % p;
    SplitProduct(b, h, q, p, h % p);
    RemainderIsUnique(a, b * p, q, b * (h % p) + a % b);
  }

  lemma SplitProduct(b: int, h: int, q: int, p: int, r: int)
    requires b >= 1 && 0 <= r < p && h == q * p + r
    ensures b * h == q * (b * p) + b * r
    ensures 0 <= b * r <= b * p - b
  {
    Distribute(b, q * p, r);
    Regroup(b, q, p);
    Distribute(b, p - 1 - r, r);
    Distribute(b, p, -1);
    ProductIsNotNegative(b, p - 1 - r);
    ProductIsNotNegative(b, r);
  }

  lemma Distribute(a: int, x: int, y: int)
    ensures a * (x + y) == a * x + a * y
  {
  }

  lemma Regroup(a: int, x: int, y: int)
    ensures a * (x * y) == x * (a * y)
  {
  }

  lemma ProductIsNotNegative(a: int, x: int)
    requires a >= 0 && x >= 0
    ensures a * x >= 0
  {
  }

  /** Masking with a single bit tests the parity of the quotient. */
  lemma {:induction false} AndWithOneBit(a: int, n: nat)
    ensures BitAnd(a, Pow2(n)) == (a / Pow2(n)) % 2 * Pow2(n)
    decreases n
  {
    if n == 0 {
      assert BitAnd(a / 2, 0) == 0;
    } else {
      var p := Pow2(n - 1);
      AndWithOneBit(a / 2, n - 1);
      AndWithEven(a, p);
      DivisionInSteps(a, 2, p);
      Regroup(2, (a / 2) / p % 2, p);
    }
  }

  lemma AndWithEven(a: int, half: nat)
    ensures BitAnd(a, 2 * half) == 2 * BitAnd(a / 2, half)
  {
    assert (2 * half) / 2 == half && (2 * half) % 2 == 0;
  }

  /** Or-ing a word into the zeros that shifting left has made adds it. */
  lemma {:induction false} OrIntoZeros(a: nat, n: nat, w: nat)
    requires w < Pow2(n)
    ensures BitOr(ShiftLeft(a, n), w) == ShiftLeft(a, n) + w
    decreases n
  {
    if a > 0 && w > 0 {
      var p := Pow2(n - 1);
      var s := a * p;
      assert a * Pow2(n) == 2 * s;
      OrIntoZeros(a, n - 1, w / 2);
    }
  }
}
