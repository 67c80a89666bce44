/** Polling with rate-limited reconnects (coordinator.py). */
module Coordinator {
  import opened Wrappers
  import Registers
  import Decoder
  import opened Transport
  import Meter
  import opened Device

  /** What an update reports; `Escaped` is an exception that is not caught. */
  datatype UpdateError = ReadFailed(fault: Fault) | NoData | Escaped(fault: Fault)

  const RECONNECT_EVERY := 10

  /** The four ways a poll ends. */
  datatype Outcome = Good | Empty | ReadFailure | Escape

  function OutcomeOf(poll: Result<map<string, Decoder.Value>, Fault>): Outcome {
    match poll
    case Ok(data) => if data == map[] then Empty else Good
    case Err(fault) => if fault.Tolerated() then ReadFailure else Escape
  }

  /** What the four ways are, for every fault that there is. */
  lemma {:induction false} OutcomeByResult(poll: Result<map<string, Decoder.Value>, Fault>)
    ensures match poll
      case Ok(data) => OutcomeOf(poll) == if data == map[] then Empty else Good
      case Err(ModbusFault) => OutcomeOf(poll) == ReadFailure
      case Err(LinkFault) => OutcomeOf(poll) == ReadFailure
      case Err(ForeignFault) => OutcomeOf(poll) == Escape
  {
  }

  // ----- Runs of polls

  function Failures(outcomes: seq<Outcome>): nat {
    if outcomes == [] then 0
    else Failures(outcomes[..|outcomes| - 1]) + if outcomes[|outcomes| - 1].ReadFailure? then 1 else 0
  }

  function Goods(outcomes: seq<Outcome>): nat {
    if outcomes == [] then 0
    else Goods(outcomes[..|outcomes| - 1]) + if outcomes[|outcomes| - 1].Good? then 1 else 0
  }

  lemma {:induction false} OutcomesAreCounted(outcomes: seq<Outcome>)
    ensures Failures(outcomes) == multiset(outcomes)[ReadFailure] && Goods(outcomes) == multiset(outcomes)[Good]
  {
    if outcomes != [] {
      var n := |outcomes| - 1;
      assert outcomes == outcomes[..n] + [outcomes[n]];
      OutcomesAreCounted(outcomes[..n]);
    }
  }

  /** The failure count after a run of polls that starts from zero: only a failed read adds to
    it and only a poll with data resets it. */
  function CountAfter(outcomes: seq<Outcome>): nat {
    if outcomes == [] then 0
    else
      var before := CountAfter(outcomes[..|outcomes| - 1]);
      match outcomes[|outcomes| - 1]
      case Good => 0
      case ReadFailure => before + 1
      case _ => before
  }

  /** Whether the poll at `i` of a run leads to a reconnect. */
  predicate ReconnectsAt(outcomes: seq<Outcome>, i: nat)
    requires i < |outcomes|
  {
    outcomes[i].ReadFailure? && CountAfter(outcomes[..i]) % RECONNECT_EVERY == 0
  }

  function Reconnects(outcomes: seq<Outcome>): nat {
    if outcomes == [] then 0
    else
      var n := |outcomes| - 1;
      Reconnects(outcomes[..n]) + if ReconnectsAt(outcomes, n) then 1 else 0
  }

  /** One more poll. */
  lemma {:induction false} OneMorePoll(outcomes: seq<Outcome>, o: Outcome)
    ensures var (run, count) := (outcomes + [o], CountAfter(outcomes));
      && CountAfter(run) == (match o case Good => 0 case ReadFailure => count + 1 case _ => count)
      && Reconnects(run)
           == Reconnects(outcomes) + if o.ReadFailure? && count % RECONNECT_EVERY == 0 then 1 else 0
  {
    assert (outcomes + [o])[..|outcomes|] == outcomes;
  }

  class Em300Coordinator {
    const device: Em300Device
    var failureCount: nat
    /** How the polls so far have ended. */
    ghost var outcomes: seq<Outcome>

    ghost predicate Valid()
      reads this
    {
      failureCount == CountAfter(outcomes)
    }

    constructor (device: Em300Device)
      ensures Valid() && this.device == device && outcomes == []
    {
      this.device, failureCount, outcomes := device, 0, [];
    }

    /** What is reported depends on the poll alone, not on whether a reconnect succeeds; the
      reconnects follow the run of outcomes. */
    method UpdateData() returns (r: Result<map<string, Decoder.Value>, UpdateError>)
      requires Valid() && !device.client.locked
      modifies this, device.client`locked, device.client`sent, device.client`attempts, device.client`closed
      ensures Valid() && !device.client.locked
      ensures var poll := PollResult(device.client.meter, |old(device.client.sent)|, device.batch);
        && outcomes == old(outcomes) + [OutcomeOf(poll)]
        && r == (match poll
                 case Ok(data) => if data == map[] then Err(NoData) else Ok(data)
                 case Err(ForeignFault) => Err(Escaped(ForeignFault))
                 case Err(fault) => Err(ReadFailed(fault)))
      ensures match r
        case Ok(_) => failureCount == 0
        case Err(ReadFailed(_)) => failureCount == old(failureCount) + 1
        case Err(_) => failureCount == old(failureCount)
      ensures device.client.attempts
        == old(device.client.attempts) + if r.Err? && r.error.ReadFailed? && old(failureCount) % 10 == 0 then 1 else 0
      ensures device.client.attempts - old(device.client.attempts) == Reconnects(outcomes) - Reconnects(old(outcomes))
      ensures device.client.sent
        == old(device.client.sent) + PollSent(device.client.meter, |old(device.client.sent)|, device.batch.requests)
      ensures old(device.client.closed) || !device.client.closed
      ensures old(device.Valid()) ==> r != Err(NoData)
    {
      ghost var poll := PollResult(device.client.meter, |device.client.sent|, device.batch);
      OneMorePoll(outcomes, OutcomeOf(poll));
      if device.Valid() {
        MapIsNeverEmpty(device.client.meter, |device.client.sent|, device);
      }
      var data := device.ReadAll();
      outcomes := outcomes + [OutcomeOf(poll)];
      if data.Err? {
        if data.error.Tolerated() {
          TryReconnect();
          return Err(ReadFailed(data.error));
        }
        return Err(Escaped(data.error));
      }

      if data.value == map[] {
        return Err(NoData);
      }

      failureCount := 0;
      return Ok(data.value);
    }

    /** At most one attempt in every `RECONNECT_EVERY` failures; its own failure is swallowed. */
    method TryReconnect()
      modifies `failureCount, device.client`attempts, device.client`closed
      ensures failureCount == old(failureCount) + 1
      ensures device.client.attempts
        == old(device.client.attempts) + if old(failureCount) % RECONNECT_EVERY == 0 then 1 else 0
      ensures old(device.client.closed) || !device.client.closed
    {
      var shouldRetry := failureCount % RECONNECT_EVERY == 0;
      failureCount := failureCount + 1;
      if !shouldRetry {
        return;
      }
      var _ := device.Connect();
    }
  }

  // ----- Properties of every run

  /** The stretch from `g` to the end is the one since the last poll that had data. */
  ghost predicate SinceLastGood(outcomes: seq<Outcome>, g: nat) {
    && g <= |outcomes|
    && (g > 0 ==> outcomes[g - 1].Good?)
    && forall i :: g <= i < |outcomes| ==> !outcomes[i].Good?
  }

  lemma {:induction false} DropLast(outcomes: seq<Outcome>, g: nat)
    requires SinceLastGood(outcomes, g) && g < |outcomes|
    ensures SinceLastGood(outcomes[..|outcomes| - 1], g)
    ensures outcomes[g..][..|outcomes[g..]| - 1] == outcomes[..|outcomes| - 1][g..]
  {
  }

  /** The count is the number of failed reads since the last poll with data. */
  lemma {:induction false} CountIsFailuresSinceGood(outcomes: seq<Outcome>, g: nat)
    requires SinceLastGood(outcomes, g)
    ensures CountAfter(outcomes) == Failures(outcomes[g..])
  {
    if g < |outcomes| {
      DropLast(outcomes, g);
      CountIsFailuresSinceGood(outcomes[..|outcomes| - 1], g);
    }
  }

  /** A poll reconnects exactly when it is the first, eleventh, twenty-first ... failed read since
    the last poll with data. */
  lemma {:induction false} ReconnectRule(outcomes: seq<Outcome>, i: nat, g: nat)
    requires i < |outcomes| && SinceLastGood(outcomes[..i], g)
    ensures ReconnectsAt(outcomes, i) <==> outcomes[i].ReadFailure? && Failures(outcomes[g..i]) % RECONNECT_EVERY == 0
  {
    CountIsFailuresSinceGood(outcomes[..i], g);
    assert outcomes[..i][g..] == outcomes[g..i];
  }

  function CeilingOfTenth(k: nat): nat {
    (k + RECONNECT_EVERY - 1) / RECONNECT_EVERY
  }

  /** k failed reads without a good poll between them make ceil(k / 10) reconnects. */
  lemma {:induction false} ReconnectsInStretch(outcomes: seq<Outcome>, g: nat)
    requires SinceLastGood(outcomes, g)
    ensures Reconnects(outcomes) == Reconnects(outcomes[..g]) + CeilingOfTenth(Failures(outcomes[g..]))
  {
    if g == |outcomes| {
      assert outcomes[..g] == outcomes;
    } else {
      var n := |outcomes| - 1;
      DropLast(outcomes, g);
      ReconnectsInStretch(outcomes[..n], g);
      assert outcomes[..n][..g] == outcomes[..g];
      CountIsFailuresSinceGood(outcomes[..n], g);
      CeilingStep(CountAfter(outcomes[..n]));
    }
  }

  /** Over a whole run there is at least one reconnect for every ten failed reads, and no more
    than that plus what each good poll, by resetting the count, can bring forward. */
  lemma {:induction false} ReconnectsAreBounded(outcomes: seq<Outcome>)
    ensures Failures(outcomes) <= 10 * Reconnects(outcomes) <= Failures(outcomes) + 9 * (Goods(outcomes) + 1)
    ensures Reconnects(outcomes) <= Failures(outcomes)
  {
    ReconnectBudget(outcomes);
    CeilingStep(CountAfter(outcomes));
  }

  /** The bounds for the stretches that are over, and the allowance of the current one. */
  lemma {:induction false} ReconnectBudget(outcomes: seq<Outcome>)
    ensures var (r, f, c) := (Reconnects(outcomes), Failures(outcomes), CountAfter(outcomes));
      && r <= f
      && f - c <= 10 * (r - CeilingOfTenth(c)) <= f - c + 9 * Goods(outcomes)
  {
    if outcomes != [] {
      var before := outcomes[..|outcomes| - 1];
      ReconnectBudget(before);
      CeilingStep(CountAfter(before));
    }
  }

  lemma {:induction false} CeilingStep(c: nat)
    ensures CeilingOfTenth(c + 1) == CeilingOfTenth(c) + if c % RECONNECT_EVERY == 0 then 1 else 0
    ensures c <= 10 * CeilingOfTenth(c) <= c + 9
  {
  }

  // ----- Consecutive failures

  /** The failed reads at the very end of a run, with nothing between them. */
  function Trailing(outcomes: seq<Outcome>): nat {
    if outcomes == [] || !outcomes[|outcomes| - 1].ReadFailure? then 0
    else Trailing(outcomes[..|outcomes| - 1]) + 1
  }

  lemma {:induction false} TrailingAtMostCount(outcomes: seq<Outcome>)
    ensures Trailing(outcomes) <= CountAfter(outcomes)
  {
    if outcomes != [] {
      TrailingAtMostCount(outcomes[..|outcomes| - 1]);
    }
  }

  /** Since the last poll with data, nothing but a failed read has come after a failed read. */
  ghost predicate FailuresInARow(outcomes: seq<Outcome>, g: nat) {
    forall i, j :: g <= i < j < |outcomes| && outcomes[i].ReadFailure? ==> outcomes[j].ReadFailure?
  }

  /** The count is that of consecutive failed reads exactly when no empty poll and no escaping
    exception has come after a failed read since the last poll with data. */
  lemma {:induction false} CountIsConsecutive(outcomes: seq<Outcome>, g: nat)
    requires SinceLastGood(outcomes, g)
    ensures CountAfter(outcomes) == Trailing(outcomes) <==> FailuresInARow(outcomes, g)
  {
    if g < |outcomes| {
      var n := |outcomes| - 1;
      var front := outcomes[..n];
      DropLast(outcomes, g);
      CountIsConsecutive(front, g);
      TrailingAtMostCount(front);
      if outcomes[n].ReadFailure? {
        assert FailuresInARow(outcomes, g) <==> FailuresInARow(front, g);
      } else {
        CountIsFailuresSinceGood(front, g);
        NoFailures(front, g);
        assert FailuresInARow(outcomes, g) <==> forall i :: g <= i < n ==> !front[i].ReadFailure?;
      }
    }
  }

  lemma {:induction false} NoFailures(outcomes: seq<Outcome>, g: nat)
    requires g <= |outcomes|
    ensures Failures(outcomes[g..]) == 0 <==> forall i :: g <= i < |outcomes| ==> !outcomes[i].ReadFailure?
    decreases |outcomes|
  {
    if g < |outcomes| {
      var n := |outcomes| - 1;
      assert outcomes[g..][..n - g] == outcomes[..n][g..];
      NoFailures(outcomes[..n], g);
    }
  }

  /** An exception that escapes between two failed reads does not start a new count: the second
    of them is the first in a row, yet it does not reconnect. */
  lemma {:induction false} EscapeKeepsTheCount()
    ensures var run := [ReadFailure, Escape, ReadFailure];
      CountAfter(run) == 2 && Trailing(run) == 1 && !ReconnectsAt(run, 2)
  {
    OneMorePoll([], ReadFailure);
    OneMorePoll([ReadFailure], Escape);
    OneMorePoll([ReadFailure, Escape], ReadFailure);
    var run := [ReadFailure, Escape, ReadFailure];
    assert run == [ReadFailure, Escape] + [ReadFailure] && [ReadFailure, Escape] == [ReadFailure] + [Escape];
    assert run[..2] == [ReadFailure, Escape] && [] + [ReadFailure] == [ReadFailure];
  }

  // ----- The empty poll

  /** A planned list of registers without a standalone one never comes back empty. */
  lemma {:induction false} NoDataIsUnreachable(meter: (nat, Request) -> Reply, k: nat, batch: Registers.RegisterBatch)
    requires batch.Planned() && batch.registers != [] && forall r :: r in batch.registers ==> !r.standalone
    ensures PollResult(meter, k, batch) != Ok(map[])
  {
    if PollResult(meter, k, batch).Ok? {
      PollIsComplete(meter, k, batch);
    }
  }

  lemma {:induction false} MapIsNeverEmpty(meter: (nat, Request) -> Reply, k: nat, device: Em300Device)
    requires device.Valid()
    ensures PollResult(meter, k, device.batch) != Ok(map[])
  {
    Meter.EverySeriesIsPollable(if device.info.Some? then device.info.value.series else None, device.batch);
    NoDataIsUnreachable(meter, k, device.batch);
  }
}
