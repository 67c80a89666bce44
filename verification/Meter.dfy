/** The meter behind the link: what its words mean to a batch of reads.

  The measurements may change at any time, but one request is answered from one state of the
  memory. The word at 0x000B is overlaid: a request for that word alone is answered with the
  identification code (api/register_map.py).
 */
module Meter {
  import opened Wrappers
  import opened Planner
  import opened Registers
  import opened RegisterMap
  import opened Decoder
  import opened Transport

  datatype Memory = Memory(words: int -> Word, code: Word)

  /** The request that is answered with the identification code. */
  const CODE_READ: Read := Read(REG_CG_IDENTIFICATION.address, 1)

  function WordSeen(memory: Memory, r: Read, a: int): Word {
    if r == CODE_READ then memory.code else memory.words(a)
  }

  function Snapshot(memory: Memory, r: Read): (words: map<int, Word>)
    ensures forall a :: a in words <==> r.Contains(a)
  {
    map a | a in Run(r.start, r.End() - 1) :: WordSeen(memory, r, a)
  }

  /** A reply that has the length asked for carries the words of one memory state; any other
    reply, and any failure, is possible too. */
  ghost predicate Faithful(reply: Reply, r: Read, memory: Memory) {
    reply.Answer? && |reply.words| == r.length ==>
      forall i :: 0 <= i < r.length ==> reply.words[i] == WordSeen(memory, r, r.start + i)
  }

  lemma FaithfulReadIsSnapshot(reply: Reply, r: Read, memory: Memory)
    requires Faithful(reply, r, memory) && CheckRead(reply, r).Ok?
    ensures CheckRead(reply, r).value == Snapshot(memory, r)
  {
    var keyed, snapshot := Keyed(r.start, reply.words), Snapshot(memory, r);
    forall a | a in keyed
      ensures a in snapshot && keyed[a] == snapshot[a]
    {
      assert reply.words[a - r.start] == WordSeen(memory, r, r.start + (a - r.start));
    }
    assert keyed.Keys == snapshot.Keys;
  }

  /** What a list of reads collects when the i-th one is answered from `seen[i]`. */
  function Assemble(plan: seq<Read>, seen: seq<Memory>): map<int, Word>
    requires |plan| == |seen|
  {
    if plan == [] then map[]
    else
      var n := |plan| - 1;
      Assemble(plan[..n], seen[..n]) + Snapshot(seen[n], plan[n])
  }

  lemma OneMoreRead(plan: seq<Read>, seen: seq<Memory>, r: Read, memory: Memory)
    requires |plan| == |seen|
    ensures Assemble(plan + [r], seen + [memory]) == Assemble(plan, seen) + Snapshot(memory, r)
  {
    assert (plan + [r])[..|plan|] == plan && (seen + [memory])[..|seen|] == seen;
  }

  /** The last read of the list that contains the address. */
  predicate LastHolder(plan: seq<Read>, i: int, a: int) {
    && 0 <= i < |plan| && plan[i].Contains(a)
    && forall j :: i < j < |plan| ==> !plan[j].Contains(a)
  }

  /** Exactly the words of the reads are collected. */
  lemma {:induction false} AssembledCover(plan: seq<Read>, seen: seq<Memory>, a: int)
    requires |plan| == |seen|
    ensures a in Assemble(plan, seen) <==> Covered(plan, a)
  {
    if plan != [] {
      var n := |plan| - 1;
      AssembledCover(plan[..n], seen[..n], a);
      FrontOrLast(plan, a);
    }
  }

  lemma {:induction false} FrontOrLast(plan: seq<Read>, a: int)
    requires plan != []
    ensures Covered(plan, a) <==> Covered(plan[..|plan| - 1], a) || plan[|plan| - 1].Contains(a)
  {
    var n := |plan| - 1;
    assert plan == plan[..n] + [plan[n]];
    CoveredByEither(plan[..n], [plan[n]], a);
    assert Covered([plan[n]], a) <==> plan[n].Contains(a);
  }

  lemma {:induction false} LastHolderLater(plan: seq<Read>, i: nat, a: int)
    requires plan != [] && LastHolder(plan[..|plan| - 1], i, a) && !plan[|plan| - 1].Contains(a)
    ensures LastHolder(plan, i, a)
  {
    var front := plan[..|plan| - 1];
    forall j | i < j < |plan|
      ensures !plan[j].Contains(a)
    {
      assert j < |front| ==> !front[j].Contains(a);
    }
  }

  /** Each of them comes from the memory state that the last read containing it has seen. */
  lemma {:induction false} AssembledWord(plan: seq<Read>, seen: seq<Memory>, a: int) returns (i: nat)
    requires |plan| == |seen| && Covered(plan, a)
    ensures LastHolder(plan, i, a)
    ensures a in Assemble(plan, seen) && Assemble(plan, seen)[a] == WordSeen(seen[i], plan[i], a)
  {
    var n := |plan| - 1;
    FrontOrLast(plan, a);
    if plan[n].Contains(a) {
      i := n;
    } else {
      i := AssembledWord(plan[..n], seen[..n], a);
      LastHolderLater(plan, i, a);
    }
  }

  /** In an ordered plan each word is read once, so its read is the one that counts. */
  lemma {:induction false} OrderedWord(plan: seq<Read>, seen: seq<Memory>, i: nat, a: int)
    requires |plan| == |seen| && Ordered(plan)
    requires i < |plan| && plan[i].Contains(a)
    ensures a in Assemble(plan, seen) && Assemble(plan, seen)[a] == WordSeen(seen[i], plan[i], a)
  {
    assert plan[i] in plan;
    var j := AssembledWord(plan, seen, a);
    assert i == j;
  }

  /** The states a run of transactions is answered from. */
  function States(memories: nat -> Memory, k: nat, n: nat): (seen: seq<Memory>)
    ensures |seen| == n && forall i :: 0 <= i < n ==> seen[i] == memories(k + i)
  {
    seq(n, i requires 0 <= i => memories(k + i))
  }

  /** A meter whose every read is answered faithfully, each from its own state. */
  ghost predicate FaithfulMeter(meter: (nat, Request) -> Reply, memories: nat -> Memory) {
    forall j: nat, r: Read :: Faithful(meter(j, ReadRequest(r)), r, memories(j))
  }

  /** A successful read of such a meter returns the snapshot. */
  ghost predicate ReadsAreSnapshots(meter: (nat, Request) -> Reply, memories: nat -> Memory) {
    forall j: nat, r: Read :: CheckRead(meter(j, ReadRequest(r)), r).Ok? ==>
      CheckRead(meter(j, ReadRequest(r)), r).value == Snapshot(memories(j), r)
  }

  lemma {:induction false} FaithfulReadsAreSnapshots(meter: (nat, Request) -> Reply, memories: nat -> Memory)
    requires FaithfulMeter(meter, memories)
    ensures ReadsAreSnapshots(meter, memories)
  {
    forall j: nat, r: Read | CheckRead(meter(j, ReadRequest(r)), r).Ok?
      ensures CheckRead(meter(j, ReadRequest(r)), r).value == Snapshot(memories(j), r)
    {
      FaithfulReadIsSnapshot(meter(j, ReadRequest(r)), r, memories(j));
    }
  }

  /** A batch that succeeds against a faithful meter has collected the snapshots. */
  lemma {:induction false} BatchIsAssembled(
    meter: (nat, Request) -> Reply, memories: nat -> Memory, k: nat, plan: seq<Read>)
    requires ReadsAreSnapshots(meter, memories)
    requires BatchResult(meter, k, plan).Ok?
    ensures BatchResult(meter, k, plan).value == Assemble(plan, States(memories, k, |plan|))
  {
    if plan != [] {
      var n := |plan| - 1;
      BatchIsAssembled(meter, memories, k, plan[..n]);
      LastRead(meter, memories, k, plan);
    }
  }

  lemma {:induction false} LastRead(meter: (nat, Request) -> Reply, memories: nat -> Memory, k: nat, plan: seq<Read>)
    requires plan != [] && BatchResult(meter, k, plan).Ok?
    requires var n := |plan| - 1;
      && BatchResult(meter, k, plan[..n]).value == Assemble(plan[..n], States(memories, k, n))
      && CheckRead(meter(k + n, ReadRequest(plan[n])), plan[n]).value == Snapshot(memories(k + n), plan[n])
    ensures BatchResult(meter, k, plan).value == Assemble(plan, States(memories, k, |plan|))
  {
    var n := |plan| - 1;
    assert States(memories, k, |plan|) == States(memories, k, n) + [memories(k + n)];
    OneMoreRead(plan[..n], States(memories, k, n), plan[n], memories(k + n));
    assert plan == plan[..n] + [plan[n]];
  }

  // ----- Registers in one state of the memory

  /** The result of a poll names every register of the list, and has for one of them the value it
    is worth in the memory state. */
  ghost predicate Reports(decoded: map<string, Value>, registers: seq<Register>, r: Register, memory: Memory) {
    && decoded.Keys == (set q | q in registers :: q.name)
    && r.name in decoded && decoded[r.name] == Measured(memory, r)
  }

  function MemoryWords(memory: Memory, r: Register): (words: seq<Word>)
    ensures |words| == r.length
  {
    seq<Word>(r.length, i => memory.words(r.address + i))
  }

  /** What a register is worth in one state of the memory. */
  function Measured(memory: Memory, r: Register): Value {
    Meaning(r, MemoryWords(memory, r))
  }

  /** A register whose words all come from one state is worth what it is worth there. */
  lemma DecodedFromState(r: Register, values: map<int, Word>, memory: Memory)
    requires forall a :: r.Spans(a) ==> a in values && values[a] == memory.words(a)
    ensures Decoded(r, values) == Some(Measured(memory, r))
  {
    assert Complete(r, values);
    forall i | 0 <= i < r.length
      ensures SpannedWords(r, values)[i] == MemoryWords(memory, r)[i]
    {
      assert r.Spans(r.address + i);
    }
    assert SpannedWords(r, values) == MemoryWords(memory, r);
  }

  /** The meter has put the integer into the register. */
  ghost predicate Stores(memory: Memory, r: Register, v: int) {
    Representable(r.dataType, r.length, v) && MemoryWords(memory, r) == Encode(v, r.length)
  }

  /** The integer divided by the register's weight, if it has one. */
  function Weighed(r: Register, v: int): Value
    requires Weighted(r.scale)
  {
    if r.scale.None? then Whole(v) else Scaled(v as real / r.scale.value)
  }

  /** A numeric register with a weight of the map, into which the meter has put an integer, is
    reported as exactly that integer divided by the weight. */
  lemma {:induction false} StoredValueIsReported(memory: Memory, r: Register, v: int)
    requires Weighted(r.scale) && !r.dataType.STRING? && Stores(memory, r, v)
    ensures Measured(memory, r) == Weighed(r, v)
  {
    DecodeAfterEncode(r.dataType, r.length, v);
    if r.scale.Some? {
      var k := if r.scale.value == 10.0 then 100000 else if r.scale.value == 100.0 then 10000 else 1000;
      ScalingIsExact(v, r.scale.value, k);
    }
  }

  /** So is every register that a meter of any series is polled for. */
  lemma {:induction false} PolledValueIsReported(series: Option<Series>, memory: Memory, r: Register, v: int)
    requires r in PolledRegisters(series) && Stores(memory, r, v)
    ensures Weighted(r.scale) && Measured(memory, r) == Weighed(r, v)
  {
    PolledWeights(series);
    StoredValueIsReported(memory, r, v);
  }

  lemma BatchCoversRegister(batch: RegisterBatch, r: Register, a: int)
    requires batch.Planned() && r in batch.registers && !r.standalone && r.Spans(a)
    ensures a in Elements(BatchWords(batch.registers)) && Covered(batch.requests, a)
  {
  }

  // ----- No torn values

  ghost predicate RunsStartEven(words: seq<int>) {
    forall a :: a in words && a - 1 !in words ==> a % 2 == 0
  }

  /** A batch whose polls cannot be torn: its registers have different names and are aligned, its
    runs of words start at even addresses, and none of its requests asks for the code. */
  ghost predicate Pollable(batch: RegisterBatch) {
    && batch.Planned() && UniqueNames(batch.registers)
    && (forall r :: r in batch.registers ==> Aligned(r))
    && RunsStartEven(BatchWords(batch.registers))
    && CODE_READ !in batch.requests
  }

  /** An aligned register lies in one read of an even plan whose runs start at even addresses. */
  lemma {:induction false} RegisterInOneRead(batch: RegisterBatch, r: Register) returns (i: nat)
    requires batch.Planned() && r in batch.registers && Aligned(r)
    requires RunsStartEven(BatchWords(batch.registers))
    ensures i < |batch.requests| && forall a :: r.Spans(a) ==> batch.requests[i].Contains(a)
  {
    var words := Elements(BatchWords(batch.registers));
    BatchCoversRegister(batch, r, r.address);
    if r.length == 1 {
      var j: nat :| j < |batch.requests| && batch.requests[j].Contains(r.address);
      i := j;
    } else {
      BatchCoversRegister(batch, r, r.address + 1);
      EvenPairsAreNotSplit(batch.requests, words, MAX_READ_REGISTERS, r.address);
      var j: nat :| j < |batch.requests| && batch.requests[j].Contains(r.address)
        && batch.requests[j].Contains(r.address + 1);
      i := j;
    }
  }

  lemma {:induction false} RegisterFromOneState(batch: RegisterBatch, seen: seq<Memory>, r: Register) returns (i: nat)
    requires Pollable(batch) && |seen| == |batch.requests| && r in batch.registers
    ensures i < |seen|
    ensures Decoded(r, Assemble(batch.requests, seen)) == Some(Measured(seen[i], r))
  {
    i := RegisterInOneRead(batch, r);
    var values := Assemble(batch.requests, seen);
    assert batch.requests[i] in batch.requests;
    forall a | r.Spans(a)
      ensures a in values && values[a] == seen[i].words(a)
    {
      OrderedWord(batch.requests, seen, i, a);
    }
    DecodedFromState(r, values, seen[i]);
  }

  /** Every value of a poll is the value of its register in one single state of the memory,
    however the memory changes between the requests and whatever the identification code is. */
  lemma {:induction false} NoTornValues(batch: RegisterBatch, seen: seq<Memory>, r: Register) returns (i: nat)
    requires Pollable(batch) && |seen| == |batch.requests| && r in batch.registers
    ensures i < |seen|
    ensures Reports(DecodedAll(batch.registers, Assemble(batch.requests, seen)), batch.registers, r, seen[i])
  {
    i := RegisterFromOneState(batch, seen, r);
    var values := Assemble(batch.requests, seen);
    DecodedValues(batch.registers, values, r);
    forall q | q in batch.registers
      ensures Complete(q, values)
    {
      var _ := RegisterFromOneState(batch, seen, q);
    }
    NamesWhenComplete(batch.registers, values);
  }

  lemma {:induction false} NamesWhenComplete(registers: seq<Register>, values: map<int, Word>)
    requires forall q :: q in registers ==> Complete(q, values)
    ensures DecodedAll(registers, values).Keys == set q | q in registers :: q.name
  {
    forall name
      ensures name in DecodedAll(registers, values) <==> exists q :: q in registers && q.name == name
    {
      DecodedNames(registers, values, name);
    }
  }

  /** The requests a meter of any series is polled with never read 0x000B on its own. */
  lemma PollNeverReadsTheCode(series: Option<Series>)
    ensures CODE_READ !in PollRequests(series)
  {
  }

  lemma RunStart(series: Option<Series>, a: int)
    requires PolledWord(series, a) && !PolledWord(series, a - 1)
    ensures a % 2 == 0
  {
  }

  lemma PolledRunsStartEven(series: Option<Series>)
    ensures RunsStartEven(BatchWords(PolledRegisters(series)))
  {
    var words := BatchWords(PolledRegisters(series));
    forall a | a in words && a - 1 !in words
      ensures a % 2 == 0
    {
      PolledWords(series, a);
      PolledWords(series, a - 1);
      RunStart(series, a);
    }
  }

  /** The map of every series, and of a meter that was not identified, can be polled that way. */
  lemma {:induction false} EverySeriesIsPollable(series: Option<Series>, batch: RegisterBatch)
    requires batch.registers == PolledRegisters(series) && batch.Planned()
    ensures Pollable(batch) && batch.registers != []
  {
    PolledWords(series, 0x0000);
    PolledNamesAreUnique(series);
    PolledRegistersAreAligned(series);
    PolledRunsStartEven(series);
    PollPlan(series, batch);
    PollNeverReadsTheCode(series);
  }

  // ----- A memory that does not change

  /** The memory does not tell whether a word was read alone: it has no overlay, or no request
    of the plan hits it. */
  predicate NoOverlay(plan: seq<Read>, memory: Memory) {
    CODE_READ in plan ==> memory.code == memory.words(CODE_READ.start)
  }

  /** On a fixed memory any planned list of registers, however aligned, decodes to what its
    registers are worth in that memory: one entry for each of them. */
  lemma {:induction false} FixedMemory(batch: RegisterBatch, memory: Memory, seen: seq<Memory>, r: Register)
    requires batch.Planned() && UniqueNames(batch.registers)
    requires forall q :: q in batch.registers ==> !q.standalone
    requires NoOverlay(batch.requests, memory)
    requires |seen| == |batch.requests| && forall i :: 0 <= i < |seen| ==> seen[i] == memory
    requires r in batch.registers
    ensures Reports(DecodedAll(batch.registers, Assemble(batch.requests, seen)), batch.registers, r, memory)
  {
    var values := Assemble(batch.requests, seen);
    forall q | q in batch.registers
      ensures Decoded(q, values) == Some(Measured(memory, q))
    {
      forall a | q.Spans(a)
        ensures a in values && values[a] == memory.words(a)
      {
        BatchCoversRegister(batch, q, a);
        FixedWord(batch.requests, memory, seen, a);
      }
      DecodedFromState(q, values, memory);
    }
    DecodedValues(batch.registers, values, r);
    NamesWhenComplete(batch.registers, values);
  }

  lemma {:induction false} FixedWord(plan: seq<Read>, memory: Memory, seen: seq<Memory>, a: int)
    requires NoOverlay(plan, memory) && Covered(plan, a)
    requires |seen| == |plan| && forall i :: 0 <= i < |seen| ==> seen[i] == memory
    ensures a in Assemble(plan, seen) && Assemble(plan, seen)[a] == memory.words(a)
  {
    var i := AssembledWord(plan, seen, a);
    assert plan[i] in plan;
  }
}
