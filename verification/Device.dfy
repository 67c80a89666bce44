/** One meter reached through one client: identification and polling (api/device.py). */
module Device {
  import opened Wrappers
  import opened Planner
  import opened Registers
  import opened RegisterMap
  import opened Decoder
  import opened Transport
  import opened Meter

  /** The firmware string: the letter's code point, then the revision in decimal. */
  datatype Firmware = Firmware(letter: nat, revision: nat)

  datatype DeviceInfo = DeviceInfo(
    serialNumber: Option<string>,
    series: Option<Series>,
    identificationCode: Option<int>,
    firmware: Option<Firmware>)

  // ----- What the identity reads of a meter come to, by transaction

  const SERIAL_READ: Read := Read(0x5000, 7)

  /** The two firmware words follow each other, so they are one request. */
  const FIRMWARE_READ: Read := Read(0x0302, 2)

  /** The series that the code of an identification read stands for, or else the fallback. */
  function SeriesOf(code: Option<int>, fallback: Option<Series>): Option<Series> {
    var series := SeriesForIdentificationCode(code);
    if series.None? then fallback else series
  }

  /** The serial number is the trimmed text of its words; an empty one counts as none. */
  function SerialOf(words: seq<Word>): Option<string> {
    var text := DecodeString(words);
    if text == [] then None else Some(text)
  }

  /** The words of an answer that has the length asked for. */
  function Answered(meter: (nat, Request) -> Reply, k: nat, r: Read): Option<seq<Word>> {
    var reply := meter(k, ReadRequest(r));
    if reply.Answer? && |reply.words| == r.length then Some(reply.words) else None
  }

  /** An exception of any other kind than the two that are tolerated. */
  predicate Escapes(meter: (nat, Request) -> Reply, k: nat, r: Read) {
    meter(k, ReadRequest(r)) == Raised(ForeignFault)
  }

  function CodeAnswered(meter: (nat, Request) -> Reply, k: nat): Option<int> {
    var words := Answered(meter, k, CODE_READ);
    if words.Some? then Some(words.value[0]) else None
  }

  function SerialAnswered(meter: (nat, Request) -> Reply, k: nat): Option<string> {
    var words := Answered(meter, k, SERIAL_READ);
    if words.Some? then SerialOf(words.value) else None
  }

  function FirmwareAnswered(meter: (nat, Request) -> Reply, k: nat): Option<Firmware> {
    var words := Answered(meter, k, FIRMWARE_READ);
    if words.Some? then Some(Firmware('A' as nat + words.value[0], words.value[1])) else None
  }

  /** No exception cuts the identification from transaction `k` on short. */
  predicate Identifiable(meter: (nat, Request) -> Reply, k: nat) {
    !Escapes(meter, k, CODE_READ) && !Escapes(meter, k + 1, SERIAL_READ) && !Escapes(meter, k + 2, FIRMWARE_READ)
  }

  const IDENTITY_REQUESTS: seq<Request> :=
    [ReadRequest(CODE_READ), ReadRequest(SERIAL_READ), ReadRequest(FIRMWARE_READ)]

  /** What an identification from transaction `k` on reports. */
  function InfoAnswered(meter: (nat, Request) -> Reply, k: nat, fallback: Option<Series>): DeviceInfo {
    var code := CodeAnswered(meter, k);
    DeviceInfo(SerialAnswered(meter, k + 1), SeriesOf(code, fallback), code, FirmwareAnswered(meter, k + 2))
  }

  /** The requests a poll from transaction `k` on sends. */
  function PollSent(meter: (nat, Request) -> Reply, k: nat, plan: seq<Read>): seq<Request> {
    ReadRequests(plan[..BatchLength(meter, k, plan)])
  }

  /** What a poll from transaction `k` on comes to. */
  function PollResult(meter: (nat, Request) -> Reply, k: nat, batch: RegisterBatch): Result<map<string, Value>, Fault> {
    match BatchResult(meter, k, batch.requests)
    case Err(fault) => Err(fault)
    case Ok(values) => Ok(DecodedAll(batch.registers, values))
  }

  class Em300Device {
    const client: Em300Client
    var info: Option<DeviceInfo>
    var registers: seq<Register>
    var batch: RegisterBatch

    /** The registers, the batch and the series belong together. */
    ghost predicate Valid()
      reads this
    {
      && batch.registers == registers && batch.Planned()
      && registers == PolledRegisters(if info.Some? then info.value.series else None)
    }

    /** A new device polls the full map. */
    constructor (client: Em300Client)
      ensures Valid() && this.client == client && info == None
    {
      this.client, info := client, None;
      registers := EM300_REGISTERS;
      new;
      batch := NewRegisterBatch(registers);
      EverythingIsSupported(EM300_REGISTERS);
    }

    method Connect() returns (r: Result<(), Fault>)
      modifies client`attempts, client`closed
      ensures client.attempts == old(client.attempts) + 1
      ensures r == match client.connecting(old(client.attempts)) case Some(fault) => Err(fault) case None => Ok(())
      ensures client.closed == (old(client.closed) && r.Err?)
    {
      r := client.Connect();
    }

    method Close()
      modifies client`closed
      ensures client.closed
    {
      client.Close();
    }

    method ReadIdentificationCode() returns (r: Result<Option<int>, Fault>)
      requires !client.locked
      modifies client`locked, client`sent
      ensures !client.locked
      ensures client.sent == old(client.sent) + [ReadRequest(CODE_READ)]
      ensures r == if Escapes(client.meter, |old(client.sent)|, CODE_READ) then Err(ForeignFault)
                   else Ok(CodeAnswered(client.meter, |old(client.sent)|))
    {
      var code := client.ReadHoldingRegister(REG_CG_IDENTIFICATION.address);
      if code.Err? {
        if !code.error.Tolerated() {
          return Err(code.error);
        }
        return Ok(None);
      }
      return Ok(Some(code.value));
    }

    method ReadSerialNumber() returns (r: Result<Option<string>, Fault>)
      requires !client.locked
      modifies client`locked, client`sent
      ensures !client.locked
      ensures client.sent == old(client.sent) + [ReadRequest(SERIAL_READ)]
      ensures r == if Escapes(client.meter, |old(client.sent)|, SERIAL_READ) then Err(ForeignFault)
                   else Ok(SerialAnswered(client.meter, |old(client.sent)|))
    {
      var words := client.ReadHoldingRegisters(REG_SERIAL_NUMBER.address, REG_SERIAL_NUMBER.length);
      if words.Err? {
        if !words.error.Tolerated() {
          return Err(words.error);
        }
        return Ok(None);
      }
      var serial := DecodeRegister(REG_SERIAL_NUMBER, words.value);
      ghost var reply := client.meter(|old(client.sent)|, ReadRequest(SERIAL_READ));
      assert Complete(REG_SERIAL_NUMBER, words.value) by {
        forall a | REG_SERIAL_NUMBER.Spans(a)
          ensures a in words.value
        {
          assert 0x5000 + (a - 0x5000) in words.value;
        }
      }
      assert SpannedWords(REG_SERIAL_NUMBER, words.value) == reply.words;
      if serial.value.s == [] {
        return Ok(None);
      }
      return Ok(Some(serial.value.s));
    }

    method ReadFirmware() returns (r: Result<Option<Firmware>, Fault>)
      requires !client.locked
      modifies client`locked, client`sent
      ensures !client.locked
      ensures client.sent == old(client.sent) + [ReadRequest(FIRMWARE_READ)]
      ensures r == if Escapes(client.meter, |old(client.sent)|, FIRMWARE_READ) then Err(ForeignFault)
                   else Ok(FirmwareAnswered(client.meter, |old(client.sent)|))
    {
      var identity := NewRegisterBatch(EM300_IDENTITY_REGISTERS);
      FirmwarePlan(identity);
      SingleReadBatch(client.meter, |client.sent|, FIRMWARE_READ);
      var values := client.ReadBatch(identity.requests);
      if values.Err? {
        if !values.error.Tolerated() {
          return Err(values.error);
        }
        return Ok(None);
      }
      var decoded := DecodeRegisters(EM300_IDENTITY_REGISTERS, values.value);
      ghost var words := client.meter(|old(client.sent)|, ReadRequest(FIRMWARE_READ)).words;
      FirmwareWords(values.value, words);
      if "version_code" !in decoded || "revision_code" !in decoded {
        return Ok(None);
      }
      var version, revision := decoded["version_code"].i, decoded["revision_code"].i;
      return Ok(Some(Firmware('A' as nat + version, revision)));
    }

    /** Each identity read is tolerated on its own. The code decides the series, and the fallback
      stands in for it only when the code is missing or unknown. An exception that is not
      tolerated leaves the device as it was. */
    method Identify(fallback: Option<Series> := None) returns (r: Result<DeviceInfo, Fault>)
      requires Valid() && !client.locked
      modifies this, client`locked, client`sent
      ensures Valid() && !client.locked
      ensures r.Ok? <==> Identifiable(client.meter, |old(client.sent)|)
      ensures r.Ok? ==> info == Some(r.value)
      ensures r.Ok? ==> r.value == InfoAnswered(client.meter, |old(client.sent)|, fallback)
      ensures r.Ok? ==> client.sent == old(client.sent) + IDENTITY_REQUESTS
      ensures r.Err? ==> r.error == ForeignFault
      ensures r.Err? ==> info == old(info) && registers == old(registers) && batch == old(batch)
    {
      var code :- ReadIdentificationCode();
      var series := SeriesForIdentificationCode(code);
      if series.None? {
        series := fallback;
      }

      var serial :- ReadSerialNumber();
      var firmware :- ReadFirmware();
      var identity := DeviceInfo(serial, series, code, firmware);

      info := Some(identity);
      registers := SupportedRegisters(EM300_REGISTERS, series);
      batch := NewRegisterBatch(registers);
      return Ok(identity);
    }

    method ReadAll() returns (r: Result<map<string, Value>, Fault>)
      requires !client.locked
      modifies client`locked, client`sent
      ensures !client.locked
      ensures r == PollResult(client.meter, |old(client.sent)|, batch)
      ensures r.Ok? <==> AllAnswered(client.meter, |old(client.sent)|, batch.requests)
      ensures client.sent == old(client.sent) + PollSent(client.meter, |old(client.sent)|, batch.requests)
    {
      BatchSucceedsExactly(client.meter, |client.sent|, batch.requests);
      var values :- client.ReadBatch(batch.requests);
      var decoded := DecodeRegisters(batch.registers, values);
      return Ok(decoded);
    }
  }

  // ----- What identification sees

  /** Against a faithful meter the code that is seen is the identification code, never the word
    of V L3-L1 that lies under it; and it is seen whenever the meter answers. */
  lemma {:induction false} IdentifySeesTheCode(meter: (nat, Request) -> Reply, memories: nat -> Memory, k: nat)
    requires FaithfulMeter(meter, memories)
    ensures CodeAnswered(meter, k) == if Answered(meter, k, CODE_READ).Some? then Some(memories(k).code) else None
  {
    if Answered(meter, k, CODE_READ).Some? {
      assert Faithful(meter(k, ReadRequest(CODE_READ)), CODE_READ, memories(k));
      assert Answered(meter, k, CODE_READ).value[0] == WordSeen(memories(k), CODE_READ, CODE_READ.start + 0);
    }
  }

  /** A serial number that is reported is never empty and has no blank or unprintable character
    at either end; a block of padding is not reported at all. */
  lemma {:induction false} ReportedSerial(words: seq<Word>)
    ensures SerialOf(words).Some? ==> SerialOf(words).value != [] && Trimmed(SerialOf(words).value)
    ensures SerialOf(words).None? <==> forall i :: 0 <= i < |words| ==> Padding(words[i])
  {
    SerialText(words);
  }

  /** The replies that cut an identification short. */
  lemma {:induction false} IdentificationIsCutShort(meter: (nat, Request) -> Reply, k: nat)
    ensures IDENTITY_REQUESTS
      == [ReadRequest(Read(0x000B, 1)), ReadRequest(Read(0x5000, 7)), ReadRequest(Read(0x0302, 2))]
    ensures !Identifiable(meter, k)
      <==> exists i :: 0 <= i < |IDENTITY_REQUESTS| && meter(k + i, IDENTITY_REQUESTS[i]) == Raised(ForeignFault)
  {
    assert IDENTITY_REQUESTS[0] == ReadRequest(CODE_READ) && IDENTITY_REQUESTS[1] == ReadRequest(SERIAL_READ);
    if !Identifiable(meter, k) {
      var i := if Escapes(meter, k, CODE_READ) then 0 else if Escapes(meter, k + 1, SERIAL_READ) then 1 else 2;
      assert meter(k + i, IDENTITY_REQUESTS[i]) == Raised(ForeignFault);
    }
  }

  /** The code is the one word of the first reply. A listed code decides the series, and the
    fallback stands in for it when there is no code or it is not listed. */
  lemma {:induction false} CodeDecidesSeries(meter: (nat, Request) -> Reply, k: nat, fallback: Option<Series>)
    ensures var (info, reply) := (InfoAnswered(meter, k, fallback), meter(k, ReadRequest(Read(0x000B, 1))));
      && info.identificationCode == (if reply.Answer? && |reply.words| == 1 then Some(reply.words[0]) else None)
      && info.series == if info.identificationCode.None? then fallback
                        else match info.identificationCode.value
                          case 331 | 332 => Some(EM330)
                          case 355 => Some(EM331)
                          case 340 | 341 => Some(EM340)
                          case 346 => Some(EM341)
                          case 335 | 336 => Some(ET330)
                          case 345 => Some(ET340)
                          case _ => fallback
  {
  }

  /** A serial number in the second reply is reported, wherever it stands between padding. */
  lemma {:induction false} SerialIsReported(
    meter: (nat, Request) -> Reply, k: nat, fallback: Option<Series>,
    before: seq<Word>, body: seq<Word>, after: seq<Word>, s: string)
    requires s != [] && Trimmed(s) && |body| == |s| && |before + body + after| == 7
    requires forall i :: 0 <= i < |s| ==> body[i] % 256 == s[i] as int
    requires forall w :: w in before + after ==> Padding(w)
    requires meter(k + 1, ReadRequest(Read(0x5000, 7))) == Answer(before + body + after)
    ensures InfoAnswered(meter, k, fallback).serialNumber == SerialAnswered(meter, k + 1) == Some(s)
  {
    PaddedSerialRoundTrip(before, body, after, s);
  }

  /** None is reported exactly when the second reply is not seven words or is only padding. */
  lemma {:induction false} SerialIsMissing(meter: (nat, Request) -> Reply, k: nat, fallback: Option<Series>)
    ensures var reply := meter(k + 1, ReadRequest(Read(0x5000, 7)));
      InfoAnswered(meter, k, fallback).serialNumber.None?
      <==> (reply.Answer? && |reply.words| == 7 ==> forall i :: 0 <= i < 7 ==> Padding(reply.words[i]))
  {
    var reply := meter(k + 1, ReadRequest(Read(0x5000, 7)));
    if reply.Answer? {
      ReportedSerial(reply.words);
    }
  }

  /** The third reply gives the letter, counted from 'A', and then the revision. */
  lemma {:induction false} FirmwareIsReported(meter: (nat, Request) -> Reply, k: nat, fallback: Option<Series>)
    ensures var (info, reply) := (InfoAnswered(meter, k, fallback), meter(k + 2, ReadRequest(Read(0x0302, 2))));
      info.firmware == if reply.Answer? && |reply.words| == 2
                       then Some(Firmware('A' as nat + reply.words[0], reply.words[1])) else None
  {
  }

  // ----- When a poll succeeds, in terms of the replies alone

  /** A poll succeeds exactly when each of its requests gets an answer of its length, whatever
    the words are. */
  lemma {:induction false} PollSucceedsExactly(meter: (nat, Request) -> Reply, k: nat, batch: RegisterBatch)
    ensures PollResult(meter, k, batch).Ok?
      <==> forall i :: 0 <= i < |batch.requests| ==>
             var (r, reply) := (batch.requests[i], meter(k + i, ReadRequest(batch.requests[i])));
             reply.Answer? && |reply.words| == r.length
    ensures PollResult(meter, k, batch).Ok? ==> PollSent(meter, k, batch.requests) == ReadRequests(batch.requests)
  {
    BatchSucceedsExactly(meter, k, batch.requests);
    assert batch.requests[..|batch.requests|] == batch.requests;
  }

  /** Otherwise the first other reply decides the error, and its request is the last one sent. */
  lemma {:induction false} PollFailsExactly(meter: (nat, Request) -> Reply, k: nat, batch: RegisterBatch, i: nat)
    requires i < |batch.requests|
    requires forall j :: 0 <= j < i ==>
               var (r, reply) := (batch.requests[j], meter(k + j, ReadRequest(batch.requests[j])));
               reply.Answer? && |reply.words| == r.length
    requires var reply := meter(k + i, ReadRequest(batch.requests[i]));
      !(reply.Answer? && |reply.words| == batch.requests[i].length)
    ensures var reply := meter(k + i, ReadRequest(batch.requests[i]));
      PollResult(meter, k, batch) == Err(if reply.Raised? then reply.fault else ModbusFault)
    ensures PollSent(meter, k, batch.requests) == ReadRequests(batch.requests[..i + 1])
  {
    var reply := meter(k + i, ReadRequest(batch.requests[i]));
    AnsweredUpTo(meter, k, batch.requests, i);
    FirstFailureDecides(meter, k, batch.requests, i + 1, if reply.Raised? then reply.fault else ModbusFault);
  }

  // ----- What a poll sees

  /** A batch that succeeds has exactly the words of its requests, whatever the meter does. */
  lemma {:induction false} BatchCoversItsReads(meter: (nat, Request) -> Reply, k: nat, plan: seq<Read>, a: int)
    requires BatchResult(meter, k, plan).Ok?
    ensures a in BatchResult(meter, k, plan).value <==> Covered(plan, a)
  {
    if plan != [] {
      var n := |plan| - 1;
      BatchCoversItsReads(meter, k, plan[..n], a);
      CoveredByEither(plan[..n], [plan[n]], a);
      assert plan == plan[..n] + [plan[n]];
      assert Covered([plan[n]], a) <==> plan[n].Contains(a);
    }
  }

  /** A poll that succeeds names exactly the registers all of whose words are planned, whatever
    the meter does. A standalone register appears only if others bring in all of its words. */
  lemma {:induction false} PolledNames(
    meter: (nat, Request) -> Reply, k: nat, batch: RegisterBatch, name: string)
    requires batch.Planned() && PollResult(meter, k, batch).Ok?
    ensures name in PollResult(meter, k, batch).value
      <==> exists r :: r in batch.registers && r.name == name && WordsPlanned(r, batch)
  {
    var values := BatchResult(meter, k, batch.requests).value;
    forall r | r in batch.registers
      ensures Complete(r, values) <==> WordsPlanned(r, batch)
    {
      forall a | r.Spans(a)
        ensures a in values <==> a in BatchWords(batch.registers)
      {
        BatchCoversItsReads(meter, k, batch.requests, a);
        assert a in Elements(BatchWords(batch.registers)) <==> Covered(batch.requests, a);
      }
    }
    DecodedNames(batch.registers, values, name);
  }

  ghost predicate WordsPlanned(r: Register, batch: RegisterBatch) {
    forall a :: r.Spans(a) ==> a in BatchWords(batch.registers)
  }

  /** Without standalone registers a poll that succeeds has one entry for each of its registers;
    so it is empty only when there is nothing to poll. */
  lemma {:induction false} PollIsComplete(meter: (nat, Request) -> Reply, k: nat, batch: RegisterBatch)
    requires batch.Planned() && forall r :: r in batch.registers ==> !r.standalone
    requires PollResult(meter, k, batch).Ok?
    ensures PollResult(meter, k, batch).value.Keys == set r | r in batch.registers :: r.name
    ensures PollResult(meter, k, batch).value == map[] <==> batch.registers == []
  {
    var decoded := PollResult(meter, k, batch).value;
    forall r | r in batch.registers
      ensures WordsPlanned(r, batch)
    {
      forall a | r.Spans(a)
        ensures a in BatchWords(batch.registers)
      {
        BatchCoversRegister(batch, r, a);
      }
    }
    forall name
      ensures name in decoded <==> exists r :: r in batch.registers && r.name == name
    {
      PolledNames(meter, k, batch, name);
    }
    if batch.registers != [] {
      assert batch.registers[0] in batch.registers;
      assert batch.registers[0].name in decoded;
    }
  }

  lemma {:induction false} AssembledPoll(
    meter: (nat, Request) -> Reply, memories: nat -> Memory, k: nat, batch: RegisterBatch)
    requires FaithfulMeter(meter, memories)
    requires PollResult(meter, k, batch).Ok?
    ensures PollResult(meter, k, batch).value
      == DecodedAll(batch.registers, Assemble(batch.requests, States(memories, k, |batch.requests|)))
  {
    FaithfulReadsAreSnapshots(meter, memories);
    BatchIsAssembled(meter, memories, k, batch.requests);
  }

  /** A poll fails, or names every register and gives each the value it had in one state of the
    memory seen during the poll. */
  lemma {:induction false} PollIsFaithful(
    meter: (nat, Request) -> Reply, memories: nat -> Memory, k: nat, batch: RegisterBatch, r: Register) returns (j: nat)
    requires FaithfulMeter(meter, memories)
    requires Pollable(batch) && r in batch.registers
    requires PollResult(meter, k, batch).Ok?
    ensures k <= j < k + |batch.requests|
    ensures Reports(PollResult(meter, k, batch).value, batch.registers, r, memories(j))
  {
    AssembledPoll(meter, memories, k, batch);
    j := NoTornStates(batch, memories, k, r);
  }

  /** `NoTornValues` for the states that the transactions from `k` on see. */
  lemma {:induction false} NoTornStates(
    batch: RegisterBatch, memories: nat -> Memory, k: nat, r: Register) returns (j: nat)
    requires Pollable(batch) && r in batch.registers
    ensures k <= j < k + |batch.requests|
    ensures var seen := States(memories, k, |batch.requests|);
      Reports(DecodedAll(batch.registers, Assemble(batch.requests, seen)), batch.registers, r, memories(j))
  {
    var i := NoTornValues(batch, States(memories, k, |batch.requests|), r);
    j := k + i;
  }

  /** While the memory does not change, a poll of any planned list without standalone registers
    fails or equals decoding each register straight from the memory. */
  lemma {:induction false} PollRefinesDirectReads(
    meter: (nat, Request) -> Reply, memory: Memory, k: nat, batch: RegisterBatch, r: Register)
    requires FaithfulMeter(meter, _ => memory)
    requires batch.Planned() && UniqueNames(batch.registers) && r in batch.registers
    requires forall q :: q in batch.registers ==> !q.standalone
    requires NoOverlay(batch.requests, memory)
    requires PollResult(meter, k, batch).Ok?
    ensures Reports(PollResult(meter, k, batch).value, batch.registers, r, memory)
  {
    var constant: nat -> Memory := _ => memory;
    AssembledPoll(meter, constant, k, batch);
    FixedMemory(batch, memory, States(constant, k, |batch.requests|), r);
  }

  lemma {:induction false} SingleReadBatch(meter: (nat, Request) -> Reply, k: nat, r: Read)
    ensures BatchResult(meter, k, [r]) == CheckRead(meter(k, ReadRequest(r)), r)
    ensures ReadRequests([r][..BatchLength(meter, k, [r])]) == [ReadRequest(r)]
  {
    assert [r][..0] == [] && [r][..1] == [r];
    var reply := CheckRead(meter(k, ReadRequest(r)), r);
    assert reply.Ok? ==> map[] + reply.value == reply.value;
  }

  /** The firmware words are planned as one request. */
  lemma {:induction false} FirmwarePlan(identity: RegisterBatch)
    requires identity.registers == EM300_IDENTITY_REGISTERS && identity.Planned()
    ensures identity.requests == [FIRMWARE_READ]
  {
    var words := Elements(BatchWords(EM300_IDENTITY_REGISTERS));
    forall a
      ensures a in words <==> Covered([FIRMWARE_READ], a)
    {
      assert a in words <==> exists r :: r in EM300_IDENTITY_REGISTERS && !r.standalone && r.Spans(a);
      assert REG_VERSION_CODE in EM300_IDENTITY_REGISTERS && REG_REVISION_CODE in EM300_IDENTITY_REGISTERS;
      assert FIRMWARE_READ in [FIRMWARE_READ];
    }
    PlanIsUnique(identity.requests, [FIRMWARE_READ], words, MAX_READ_REGISTERS);
  }

  lemma {:induction false} FirmwareWords(values: map<int, Word>, words: seq<Word>)
    requires |words| == 2 && values == Keyed(0x0302, words)
    ensures var decoded := DecodedAll(EM300_IDENTITY_REGISTERS, values);
      && "version_code" in decoded && decoded["version_code"] == Whole(words[0])
      && "revision_code" in decoded && decoded["revision_code"] == Whole(words[1])
  {
    assert UniqueNames(EM300_IDENTITY_REGISTERS);
    assert REG_VERSION_CODE in EM300_IDENTITY_REGISTERS && REG_REVISION_CODE in EM300_IDENTITY_REGISTERS;
    DecodedValues(EM300_IDENTITY_REGISTERS, values, REG_VERSION_CODE);
    DecodedValues(EM300_IDENTITY_REGISTERS, values, REG_REVISION_CODE);
    OneWord(REG_VERSION_CODE, values);
    OneWord(REG_REVISION_CODE, values);
  }

  /** An unscaled unsigned one-word register is worth its word. */
  lemma {:induction false} OneWord(r: Register, values: map<int, Word>)
    requires r.dataType.UINT16? && r.scale.None? && r.address in values
    ensures Decoded(r, values) == Some(Whole(values[r.address]))
  {
    var words := SpannedWords(r, values);
    assert words[1..] == [];
    assert Number(words) == words[0];
  }

  lemma {:induction false} EverythingIsSupported(registers: seq<Register>)
    ensures SupportedRegisters(registers, None) == registers
  {
    if registers != [] {
      EverythingIsSupported(registers[1..]);
      assert registers == [registers[0]] + registers[1..];
    }
  }
}
