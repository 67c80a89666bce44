/** The Modbus client of one meter (api/client.py). */
module Transport {
  import opened Wrappers
  import Bits
  import opened Planner
  import opened Registers

  /** What can be raised: the integration's own exception, an operating system or timeout
    error, or anything else. Callers tolerate the first two kinds only. */
  datatype Fault = ModbusFault | LinkFault | ForeignFault {
    predicate Tolerated() {
      !ForeignFault?
    }
  }

  datatype Request =
    | ReadRequest(read: Read)
    | WriteRequest(address: int, value: Word)

  /** Only the low 16 bits of a payload go on the wire. */
  function Masked(payload: int): (value: Word)
    ensures value == payload % 0x1_0000
  {
    Bits.PowersOfBytes();
    Bits.AndWithOnes(payload, 16);
    Bits.BitAnd(payload, 0xFFFF)
  }

  /** How a transaction ends: an exception, no response object, an exception response, or a
    response carrying any number of words. */
  datatype Reply = Raised(fault: Fault) | NoReply | Rejected | Answer(words: seq<Word>)

  /** Consecutive words keyed by absolute address. */
  function Keyed(start: int, words: seq<Word>): map<int, Word> {
    var span := Run(start, start + |words| - 1);
    map a | a in span :: words[a - start]
  }

  /** What a read request makes of its reply. */
  function CheckRead(reply: Reply, r: Read): Result<map<int, Word>, Fault> {
    match reply
    case Raised(fault) => Err(fault)
    case NoReply => Err(ModbusFault)
    case Rejected => Err(ModbusFault)
    case Answer(words) => if |words| != r.length then Err(ModbusFault) else Ok(Keyed(r.start, words))
  }

  /** What a write request makes of its reply. */
  function CheckWrite(reply: Reply): Result<(), Fault> {
    match reply
    case Raised(fault) => Err(fault)
    case NoReply => Err(ModbusFault)
    case Rejected => Err(ModbusFault)
    case Answer(_) => Ok(())
  }

  /** Several reads made one after the other from transaction `k` on; the first failure ends
    them, and of two reads of the same word the later one counts. */
  function BatchResult(meter: (nat, Request) -> Reply, k: nat, plan: seq<Read>): Result<map<int, Word>, Fault> {
    if plan == [] then Ok(map[])
    else
      var n := |plan| - 1;
      match BatchResult(meter, k, plan[..n])
      case Err(fault) => Err(fault)
      case Ok(values) =>
        match CheckRead(meter(k + n, ReadRequest(plan[n])), plan[n])
        case Err(fault) => Err(fault)
        case Ok(words) => Ok(values + words)
  }

  /** How many of the reads are sent: all of them, or those up to the first that fails. */
  function BatchLength(meter: (nat, Request) -> Reply, k: nat, plan: seq<Read>): (n: nat)
    ensures n <= |plan|
    ensures BatchResult(meter, k, plan).Ok? ==> n == |plan|
  {
    if plan == [] then 0
    else
      var n := |plan| - 1;
      if BatchResult(meter, k, plan[..n]).Err? then BatchLength(meter, k, plan[..n]) else n + 1
  }

  /** A failed prefix fails the whole batch in the same way, and nothing after it is sent. */
  lemma {:induction false} FailureIsFinal(meter: (nat, Request) -> Reply, k: nat, plan: seq<Read>, i: nat)
    requires i <= |plan| && BatchResult(meter, k, plan[..i]).Err?
    ensures BatchResult(meter, k, plan) == BatchResult(meter, k, plan[..i])
    ensures BatchLength(meter, k, plan) == BatchLength(meter, k, plan[..i])
  {
    if i == |plan| {
      assert plan[..i] == plan;
    } else {
      var n := |plan| - 1;
      assert plan[..n][..i] == plan[..i];
      FailureIsFinal(meter, k, plan[..n], i);
    }
  }

  /** One more read is sent when those before it have succeeded. */
  lemma {:induction false} NextRead(meter: (nat, Request) -> Reply, k: nat, plan: seq<Read>, i: nat)
    requires i < |plan| && BatchResult(meter, k, plan[..i]).Ok?
    ensures ReadRequests(plan[..i + 1]) == ReadRequests(plan[..i]) + [ReadRequest(plan[i])]
    ensures BatchLength(meter, k, plan[..i + 1]) == i + 1
    ensures BatchResult(meter, k, plan[..i + 1])
      == match CheckRead(meter(k + i, ReadRequest(plan[i])), plan[i])
         case Err(fault) => Err(fault)
         case Ok(words) => Ok(BatchResult(meter, k, plan[..i]).value + words)
  {
    assert plan[..i + 1][..i] == plan[..i];
  }

  /** The first `i` reads have been made after `before` and have brought in `values`. */
  ghost predicate HasRead(
    meter: (nat, Request) -> Reply, before: seq<Request>, plan: seq<Read>, i: nat,
    sent: seq<Request>, values: map<int, Word>)
  {
    && i <= |plan| && sent == before + ReadRequests(plan[..i])
    && BatchResult(meter, |before|, plan[..i]) == Ok(values)
  }

  lemma {:induction false} ReadSucceeds(
    meter: (nat, Request) -> Reply, before: seq<Request>, plan: seq<Read>, i: nat,
    sent: seq<Request>, values: map<int, Word>)
    requires HasRead(meter, before, plan, i, sent, values) && i < |plan|
    ensures var (request, read) := (ReadRequest(plan[i]), CheckRead(meter(|sent|, ReadRequest(plan[i])), plan[i]));
      read.Ok? ==> HasRead(meter, before, plan, i + 1, sent + [request], values + read.value)
  {
    NextRead(meter, |before|, plan, i);
  }

  /** The first read that fails is the last one that is sent. */
  lemma {:induction false} ReadFails(
    meter: (nat, Request) -> Reply, before: seq<Request>, plan: seq<Read>, i: nat,
    sent: seq<Request>, values: map<int, Word>)
    requires HasRead(meter, before, plan, i, sent, values) && i < |plan|
    ensures var read := CheckRead(meter(|sent|, ReadRequest(plan[i])), plan[i]);
      read.Err? ==>
        && BatchResult(meter, |before|, plan) == Err(read.error)
        && sent + [ReadRequest(plan[i])] == before + ReadRequests(plan[..BatchLength(meter, |before|, plan)])
  {
    if CheckRead(meter(|sent|, ReadRequest(plan[i])), plan[i]).Err? {
      FailingRead(meter, |before|, plan, i);
      NextRead(meter, |before|, plan, i);
    }
  }

  lemma {:induction false} FailingRead(meter: (nat, Request) -> Reply, k: nat, plan: seq<Read>, i: nat)
    requires i < |plan| && BatchResult(meter, k, plan[..i]).Ok?
    requires CheckRead(meter(k + i, ReadRequest(plan[i])), plan[i]).Err?
    ensures BatchResult(meter, k, plan) == Err(CheckRead(meter(k + i, ReadRequest(plan[i])), plan[i]).error)
    ensures BatchLength(meter, k, plan) == i + 1
  {
    NextRead(meter, k, plan, i);
    FailureIsFinal(meter, k, plan, i + 1);
  }

  // ----- When a batch succeeds, in terms of the replies alone

  /** Request `i` of a plan that starts at transaction `k` gets an answer of its length. */
  predicate FullyAnswered(meter: (nat, Request) -> Reply, k: nat, plan: seq<Read>, i: nat)
    requires i < |plan|
  {
    var reply := meter(k + i, ReadRequest(plan[i]));
    reply.Answer? && |reply.words| == plan[i].length
  }

  ghost predicate AllAnswered(meter: (nat, Request) -> Reply, k: nat, plan: seq<Read>) {
    forall i :: 0 <= i < |plan| ==> FullyAnswered(meter, k, plan, i)
  }

  /** A batch succeeds exactly when each of its requests gets an answer of its length. */
  lemma {:induction false} BatchSucceedsExactly(meter: (nat, Request) -> Reply, k: nat, plan: seq<Read>)
    ensures BatchResult(meter, k, plan).Ok?
      <==> forall i :: 0 <= i < |plan| ==>
             var reply := meter(k + i, ReadRequest(plan[i])); reply.Answer? && |reply.words| == plan[i].length
    ensures BatchResult(meter, k, plan).Ok? <==> AllAnswered(meter, k, plan)
  {
    if plan != [] {
      var n := |plan| - 1;
      BatchSucceedsExactly(meter, k, plan[..n]);
      AnsweredUpTo(meter, k, plan, n);
      LastReply(meter, k, plan);
    }
    assert AllAnswered(meter, k, plan) <==> forall i :: 0 <= i < |plan| ==> FullyAnswered(meter, k, plan, i);
  }

  lemma {:induction false} AnsweredUpTo(meter: (nat, Request) -> Reply, k: nat, plan: seq<Read>, n: nat)
    requires n <= |plan|
    ensures AllAnswered(meter, k, plan[..n]) <==> forall i :: 0 <= i < n ==> FullyAnswered(meter, k, plan, i)
  {
    forall i | 0 <= i < n
      ensures FullyAnswered(meter, k, plan[..n], i) <==> FullyAnswered(meter, k, plan, i)
    {
    }
  }

  lemma {:induction false} LastReply(meter: (nat, Request) -> Reply, k: nat, plan: seq<Read>)
    requires plan != []
    ensures BatchResult(meter, k, plan).Ok?
      <==> BatchResult(meter, k, plan[..|plan| - 1]).Ok? && FullyAnswered(meter, k, plan, |plan| - 1)
  {
  }

  /** The first `n - 1` requests get answers of their lengths, and the `n`-th gets a reply that is
    worth the fault. */
  ghost predicate FailsAt(meter: (nat, Request) -> Reply, k: nat, plan: seq<Read>, n: nat, fault: Fault) {
    && 1 <= n <= |plan| && AllAnswered(meter, k, plan[..n - 1]) && !FullyAnswered(meter, k, plan, n - 1)
    && var reply := meter(k + n - 1, ReadRequest(plan[n - 1]));
       fault == if reply.Raised? then reply.fault else ModbusFault
  }

  lemma {:induction false} FailsAtLater(
    meter: (nat, Request) -> Reply, k: nat, front: seq<Read>, r: Read, n: nat, fault: Fault)
    requires FailsAt(meter, k, front, n, fault)
    ensures FailsAt(meter, k, front + [r], n, fault)
  {
    assert (front + [r])[..n - 1] == front[..n - 1];
  }

  lemma {:induction false} LastReadFails(meter: (nat, Request) -> Reply, k: nat, plan: seq<Read>)
    requires BatchResult(meter, k, plan).Err? && BatchResult(meter, k, plan[..|plan| - 1]).Ok?
    ensures BatchLength(meter, k, plan) == |plan|
    ensures FailsAt(meter, k, plan, |plan|, BatchResult(meter, k, plan).error)
  {
    BatchSucceedsExactly(meter, k, plan[..|plan| - 1]);
    LastReply(meter, k, plan);
  }

  /** The request that fails a batch is the last one that is sent, and its reply decides the
    error. */
  lemma {:induction false} FailingReadIsLast(meter: (nat, Request) -> Reply, k: nat, plan: seq<Read>)
    requires BatchResult(meter, k, plan).Err?
    ensures FailsAt(meter, k, plan, BatchLength(meter, k, plan), BatchResult(meter, k, plan).error)
  {
    var last := |plan| - 1;
    var front := plan[..last];
    var result := BatchResult(meter, k, front);
    if result.Err? {
      FailureIsFinal(meter, k, plan, last);
      FailingReadIsLast(meter, k, front);
      assert front + [plan[last]] == plan;
      FailsAtLater(meter, k, front, plan[last], BatchLength(meter, k, front), result.error);
    } else {
      LastReadFails(meter, k, plan);
    }
  }

  /** The first reply that fails decides the error of a batch and how far it gets. */
  lemma {:induction false} FirstFailureDecides(
    meter: (nat, Request) -> Reply, k: nat, plan: seq<Read>, n: nat, fault: Fault)
    requires FailsAt(meter, k, plan, n, fault)
    ensures BatchResult(meter, k, plan) == Err(fault) && BatchLength(meter, k, plan) == n
  {
    BatchSucceedsExactly(meter, k, plan[..n - 1]);
    FailingRead(meter, k, plan, n - 1);
  }

  function ReadRequests(plan: seq<Read>): seq<Request> {
    seq(|plan|, i requires 0 <= i < |plan| => ReadRequest(plan[i]))
  }

  /** The client of one meter. `meter` answers the k-th transaction and `connecting` the k-th
    attempt to connect; both stand for the outside world and may be anything. */
  class Em300Client {
    const meter: (nat, Request) -> Reply
    const connecting: nat -> Option<Fault>

    var locked: bool
    var sent: seq<Request>
    var attempts: nat
    var closed: bool

    constructor (meter: (nat, Request) -> Reply, connecting: nat -> Option<Fault>)
      ensures this.meter == meter && this.connecting == connecting
      ensures !locked && sent == [] && attempts == 0 && !closed
    {
      this.meter, this.connecting := meter, connecting;
      locked, sent, attempts, closed := false, [], 0, false;
    }

    method Connect() returns (r: Result<(), Fault>)
      modifies `attempts, `closed
      ensures attempts == old(attempts) + 1
      ensures r == match connecting(old(attempts)) case Some(fault) => Err(fault) case None => Ok(())
      ensures closed == (old(closed) && r.Err?)
    {
      var outcome := connecting(attempts);
      attempts := attempts + 1;
      if outcome.Some? {
        return Err(outcome.value);
      }
      closed := false;
      return Ok(());
    }

    method Close()
      modifies `closed
      ensures closed
    {
      closed := true;
    }

    /** The lock is free when the read starts, because it waits for that. */
    method ReadHoldingRegisters(startIndex: int, length: int) returns (r: Result<map<int, Word>, Fault>)
      requires !locked
      modifies `locked, `sent
      ensures !locked
      ensures sent == old(sent) + [ReadRequest(Read(startIndex, length))]
      ensures var reply := meter(|old(sent)|, ReadRequest(Read(startIndex, length)));
        && (r.Ok? <==> reply.Answer? && |reply.words| == length)
        && (r.Ok? ==> forall i :: 0 <= i < length ==>
              startIndex + i in r.value && r.value[startIndex + i] == reply.words[i])
        && (r.Ok? ==> forall a :: a in r.value ==> startIndex <= a < startIndex + length)
        && (r.Err? ==> r.error == if reply.Raised? then reply.fault else ModbusFault)
        && r == CheckRead(reply, Read(startIndex, length))
    {
      var request := ReadRequest(Read(startIndex, length));
      locked := true;
      var data := meter(|sent|, request);
      sent := sent + [request];
      locked := false;

      if data.Raised? {
        return Err(data.fault);
      }
      if data.NoReply? || data.Rejected? {
        return Err(ModbusFault);
      }
      var registers := Keyed(startIndex, data.words);
      if |data.words| != length {
        return Err(ModbusFault);
      }
      return Ok(registers);
    }

    method ReadHoldingRegister(address: int) returns (r: Result<Word, Fault>)
      requires !locked
      modifies `locked, `sent
      ensures !locked
      ensures sent == old(sent) + [ReadRequest(Read(address, 1))]
      ensures var reply := meter(|old(sent)|, ReadRequest(Read(address, 1)));
        && (r.Ok? <==> reply.Answer? && |reply.words| == 1)
        && (r.Ok? ==> r.value == reply.words[0])
        && (r.Err? ==> r.error == if reply.Raised? then reply.fault else ModbusFault)
    {
      var registers :- ReadHoldingRegisters(address, 1);
      assert address + 0 in registers;
      return Ok(registers[address]);
    }

    /** A failing read ends the batch; nothing after it is sent. */
    method ReadBatch(plan: seq<Read>) returns (r: Result<map<int, Word>, Fault>)
      requires !locked
      modifies `locked, `sent
      ensures !locked
      ensures r == BatchResult(meter, |old(sent)|, plan)
      ensures sent == old(sent) + ReadRequests(plan[..BatchLength(meter, |old(sent)|, plan)])
    {
      var values: map<int, Word> := map[];
      assert plan[..0] == [] && plan[..|plan|] == plan;
      for i := 0 to |plan|
        invariant !locked
        invariant HasRead(meter, old(sent), plan, i, sent, values)
      {
        var read := plan[i];
        ReadSucceeds(meter, old(sent), plan, i, sent, values);
        ReadFails(meter, old(sent), plan, i, sent, values);
        var words := ReadHoldingRegisters(read.start, read.length);
        if words.Err? {
          return Err(words.error);
        }
        values := values + words.value;
      }
      return Ok(values);
    }

    method WriteRegister(address: int, payload: int) returns (r: Result<(), Fault>)
      requires !locked
      modifies `locked, `sent
      ensures !locked
      ensures sent == old(sent) + [WriteRequest(address, payload % 0x1_0000)]
      ensures var reply := meter(|old(sent)|, WriteRequest(address, payload % 0x1_0000));
        && (r.Ok? <==> reply.Answer?)
        && (r.Err? ==> r.error == if reply.Raised? then reply.fault else ModbusFault)
        && r == CheckWrite(reply)
    {
      var request := WriteRequest(address, Masked(payload));
      locked := true;
      var result := meter(|sent|, request);
      sent := sent + [request];
      locked := false;

      if result.Raised? {
        return Err(result.fault);
      }
      if result.NoReply? || result.Rejected? {
        return Err(ModbusFault);
      }
      return Ok(());
    }
  }
}
