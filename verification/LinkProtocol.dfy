/** Any number of tasks sharing one client: the lock discipline of api/client.py as a state
  machine.

  A transaction is five steps: take the lock, send, be served, receive, release the lock. A
  batch releases the lock between its reads, so the calls of different tasks interleave. The
  link is a single slot; putting a second request on it corrupts it. The meter answers from
  its newest memory state, and that state may change at any time. The fields `began`, `ended`,
  `stamp`, `stamps`, `seen` and `asker` record when things happened. A step asks of them no more
  than that the recorded state exists, which `Inv` shows to hold whenever it is asked.
 */
module LinkProtocol {
  import opened Wrappers
  import opened Planner
  import opened Registers
  import Decoder
  import opened Transport
  import opened Meter

  datatype Call =
    | BatchCall(plan: seq<Read>)
    | SingleCall(address: int)
    | WriteCall(target: int, payload: int)
  {
    /** The reads the call consists of. */
    function Reads(): seq<Read> {
      match this
      case BatchCall(plan) => plan
      case SingleCall(address) => [Read(address, 1)]
      case WriteCall(_, _) => []
    }

    function Requests(): seq<Request> {
      if WriteCall? then [WriteRequest(target, Masked(payload))] else ReadRequests(Reads())
    }
  }

  datatype Outcome = Returned(values: map<int, Word>) | Failed(fault: Fault)

  datatype Phase =
    | NotStarted
    | Waiting
    | Locked
    | Sent
    | Got(reply: Reply, stamp: nat)
    | Finished(outcome: Outcome, ended: nat)

  datatype Task = Task(
    call: Call, phase: Phase, done: nat, values: map<int, Word>,
    began: nat, stamps: seq<nat>, seen: seq<Memory>)
  {
    predicate InTransaction() {
      phase.Locked? || phase.Sent? || phase.Got?
    }

    predicate Unfinished() {
      !phase.Finished?
    }

    function Current(): Request
      requires done < |call.Requests()|
    {
      call.Requests()[done]
    }
  }

  datatype Link =
    | Idle
    | Pending(asker: nat, request: Request)
    | Answered(asker: nat, request: Request, reply: Reply, stamp: nat)
    | Corrupted

  datatype State = State(tasks: seq<Task>, lock: Option<nat>, link: Link, history: seq<Memory>) {
    function Now(): int {
      |history| - 1
    }
  }

  datatype Step =
    | Start(t: nat)
    | Acquire(t: nat)
    | Send(t: nat)
    | Serve(answer: Reply)
    | Receive(t: nat)
    | Release(t: nat)
    | Drift(memory: Memory)

  // ----- The steps

  ghost predicate Initial(s: State) {
    && s.lock.None? && s.link.Idle? && |s.history| >= 1
    && forall t :: 0 <= t < |s.tasks| ==> Fresh(s.tasks[t])
  }

  ghost predicate Fresh(task: Task) {
    task.phase.NotStarted? && task.done == 0 && task.values == map[] && task.stamps == [] && task.seen == []
  }

  /** A call without requests returns at once, without taking the lock. */
  function Begun(task: Task, now: nat): Task {
    task.(began := now,
          phase := if task.call.Requests() == [] then Finished(Returned(task.values), now) else Waiting)
  }

  /** A successful transaction moves the call on to its next request, or ends it. */
  function Advanced(task: Task, values: map<int, Word>, stamp: nat, memory: Memory, now: nat): Task {
    task.(done := task.done + 1, values := values,
          stamps := task.stamps + [stamp], seen := task.seen + [memory],
          phase := if task.done + 1 == |task.call.Requests()| then Finished(Returned(values), now) else Waiting)
  }

  /** What a request makes of its reply: the words of a read, nothing for a write, or a fault. */
  function Received(request: Request, reply: Reply): Result<map<int, Word>, Fault> {
    match request
    case ReadRequest(r) => CheckRead(reply, r)
    case WriteRequest(_, _) =>
      (match CheckWrite(reply)
       case Err(fault) => Err(fault)
       case Ok(_) => Ok(map[]))
  }

  /** What a task does with the reply it holds once the lock is released. */
  function Completed(task: Task, history: seq<Memory>, now: nat): Task
    requires task.phase.Got? && task.phase.stamp < |history|
    requires task.done < |task.call.Requests()|
  {
    var stamp := task.phase.stamp;
    match Received(task.Current(), task.phase.reply)
    case Err(fault) => task.(phase := Finished(Failed(fault), now))
    case Ok(words) => Advanced(task, task.values + words, stamp, history[stamp], now)
  }

  function Written(memory: Memory, address: int, value: Word): Memory {
    memory.(words := (a: int) => (if a == address then value else memory.words(a)) as Word)
  }

  /** How the meter may answer: a read with any failure, any number of words or, within the
    frame limit, the words of its memory; a write that it acknowledges has been made. A write
    that fails may have been made too, which is a drift of the memory. */
  ghost predicate Serves(s: State, answer: Reply, s': State) {
    && s.link.Pending?
    && s'.tasks == s.tasks && s'.lock == s.lock
    && match s.link.request
       case ReadRequest(r) =>
         && (answer.Answer? ==> 1 <= r.length <= MAX_READ_REGISTERS)
         && |s.history| >= 1 && Faithful(answer, r, s.history[s.Now()])
         && s'.history == s.history
         && s'.link == Answered(s.link.asker, s.link.request, answer, s.Now())
       case WriteRequest(address, value) =>
         && |s.history| >= 1
         && s'.history
              == (if answer.Answer? then s.history + [Written(s.history[s.Now()], address, value)] else s.history)
         && s'.link == Answered(s.link.asker, s.link.request, answer, s'.Now())
  }

  ghost predicate InPhase(s: State, t: nat, phase: Phase) {
    t < |s.tasks| && s.tasks[t].phase == phase
  }

  ghost predicate Releases(s: State, t: nat, s': State) {
    && t < |s.tasks| && s.tasks[t].phase.Got? && s.tasks[t].phase.stamp < |s.history|
    && s.tasks[t].done < |s.tasks[t].call.Requests()|
    && s' == s.(tasks := s.tasks[t := Completed(s.tasks[t], s.history, s.Now())], lock := None)
  }

  ghost predicate Next(s: State, step: Step, s': State) {
    match step
    case Start(t) =>
      && InPhase(s, t, NotStarted) && |s.history| >= 1
      && s' == s.(tasks := s.tasks[t := Begun(s.tasks[t], s.Now())])
    case Acquire(t) =>
      && InPhase(s, t, Waiting) && s.lock.None?
      && s' == s.(tasks := s.tasks[t := s.tasks[t].(phase := Locked)], lock := Some(t))
    case Send(t) =>
      && InPhase(s, t, Locked) && s.tasks[t].done < |s.tasks[t].call.Requests()|
      && s' == s.(tasks := s.tasks[t := s.tasks[t].(phase := Sent)],
                  link := if s.link.Idle? then Pending(t, s.tasks[t].Current()) else Corrupted)
    case Serve(answer) => Serves(s, answer, s')
    case Receive(t) =>
      && InPhase(s, t, Sent) && s.link.Answered?
      && s' == s.(tasks := s.tasks[t := s.tasks[t].(phase := Got(s.link.reply, s.link.stamp))], link := Idle)
    case Release(t) =>
      Releases(s, t, s')
    case Drift(memory) =>
      s' == s.(history := s.history + [memory])
  }

  ghost predicate Run(states: seq<State>, steps: seq<Step>) {
    && |states| == |steps| + 1
    && Initial(states[0])
    && forall i :: 0 <= i < |steps| ==> Next(states[i], steps[i], states[i + 1])
  }

  // ----- What every step keeps

  /** The reply is one the meter may have given to the request in the state of the stamp. */
  ghost predicate ReplyFits(request: Request, reply: Reply, stamp: nat, history: seq<Memory>) {
    && stamp < |history|
    && match request
       case ReadRequest(r) => Faithful(reply, r, history[stamp])
       case WriteRequest(address, value) => reply.Answer? ==> history[stamp].words(address) == value
  }

  /** Stamps lie within the call, in order, and say which state was seen. */
  ghost predicate StampsFit(task: Task, history: seq<Memory>) {
    && |task.stamps| == |task.seen| == task.done <= |task.call.Requests()|
    && (forall i :: 0 <= i < task.done ==>
          task.began <= task.stamps[i] < |history| && task.seen[i] == history[task.stamps[i]])
    && forall i, j :: 0 <= i < j < task.done ==> task.stamps[i] <= task.stamps[j]
  }

  /** What the call has collected so far. */
  ghost predicate ValuesFit(task: Task) {
    && |task.seen| == task.done <= |task.call.Requests()|
    && if task.call.WriteCall? then
         && task.values == map[]
         && (task.done == 1 ==> task.seen[0].words(task.call.target) == task.call.payload % 0x1_0000)
       else
         task.values == Assemble(task.call.Reads()[..task.done], task.seen)
  }

  ghost predicate PhaseFits(task: Task, history: seq<Memory>) {
    match task.phase
    case NotStarted => task.done == 0
    case Finished(outcome, ended) =>
      && task.began <= ended < |history|
      && (outcome.Returned? ==>
            && task.done == |task.call.Requests()| && outcome.values == task.values
            && forall i :: 0 <= i < |task.stamps| ==> task.stamps[i] <= ended)
    case Got(reply, stamp) =>
      && task.done < |task.call.Requests()|
      && task.began <= stamp && ReplyFits(task.Current(), reply, stamp, history)
      && forall i :: 0 <= i < |task.stamps| ==> task.stamps[i] <= stamp
    case _ => task.done < |task.call.Requests()| && task.began < |history|
  }

  ghost predicate TaskFits(task: Task, history: seq<Memory>) {
    StampsFit(task, history) && ValuesFit(task) && PhaseFits(task, history)
  }

  /** The lock is held exactly by the task that is in a transaction. */
  ghost predicate LockFits(s: State) {
    && (s.lock.Some? ==> s.lock.value < |s.tasks|)
    && forall t :: 0 <= t < |s.tasks| ==> (s.tasks[t].InTransaction() <==> s.lock == Some(t))
  }

  /** The link carries the transaction of the task that waits for a reply, and no other. */
  ghost predicate LinkFits(s: State) {
    match s.link
    case Corrupted => false
    case Idle => forall t :: 0 <= t < |s.tasks| ==> !s.tasks[t].phase.Sent?
    case Pending(asker, request) => AskedBy(s, asker, request)
    case Answered(asker, request, reply, stamp) =>
      && AskedBy(s, asker, request)
      && s.tasks[asker].began <= stamp
      && ReplyFits(request, reply, stamp, s.history)
      && forall i :: 0 <= i < |s.tasks[asker].stamps| ==> s.tasks[asker].stamps[i] <= stamp
  }

  ghost predicate AskedBy(s: State, asker: nat, request: Request) {
    && InPhase(s, asker, Sent)
    && s.tasks[asker].done < |s.tasks[asker].call.Requests()|
    && request == s.tasks[asker].Current()
  }

  ghost predicate Inv(s: State) {
    && |s.history| >= 1
    && LockFits(s)
    && LinkFits(s)
    && forall t :: 0 <= t < |s.tasks| ==> TaskFits(s.tasks[t], s.history)
  }

  lemma {:induction false} InitialInv(s: State)
    requires Initial(s)
    ensures Inv(s)
  {
    forall t | 0 <= t < |s.tasks|
      ensures TaskFits(s.tasks[t], s.history)
    {
      assert Fresh(s.tasks[t]);
    }
  }

  /** A task in a transaction holds the lock, and no other task is in one. */
  lemma {:induction false} HolderIsAlone(s: State, t: nat)
    requires LockFits(s)
    requires t < |s.tasks| && s.tasks[t].InTransaction()
    ensures s.lock == Some(t)
    ensures forall u :: 0 <= u < |s.tasks| && s.tasks[u].InTransaction() ==> u == t
  {
  }

  /** If it is not waiting for a reply, it has the link to itself. */
  lemma {:induction false} LinkIsIdle(s: State, t: nat)
    requires LockFits(s) && LinkFits(s)
    requires t < |s.tasks| && s.tasks[t].InTransaction() && !s.tasks[t].phase.Sent?
    ensures s.link.Idle? && s.lock == Some(t)
  {
    HolderIsAlone(s, t);
  }

  /** A longer history changes nothing for a task. */
  lemma {:induction false} TaskFitsLater(task: Task, history: seq<Memory>, memory: Memory)
    requires TaskFits(task, history)
    ensures TaskFits(task, history + [memory])
  {
    var h := history + [memory];
    assert StampsFit(task, h) by {
      forall i | 0 <= i < task.done
        ensures task.began <= task.stamps[i] < |h| && task.seen[i] == h[task.stamps[i]]
      {
      }
    }
  }

  lemma {:induction false} StartKeepsInv(s: State, t: nat, s': State)
    requires Inv(s) && Next(s, Start(t), s')
    ensures Inv(s')
  {
    assert TaskFits(s.tasks[t], s.history);
    assert TaskFits(s'.tasks[t], s'.history);
    assert forall u :: 0 <= u < |s.tasks| && u != t ==> s'.tasks[u] == s.tasks[u];
  }

  lemma {:induction false} AcquireKeepsInv(s: State, t: nat, s': State)
    requires Inv(s) && Next(s, Acquire(t), s')
    ensures Inv(s')
  {
    assert TaskFits(s.tasks[t], s.history);
    assert TaskFits(s'.tasks[t], s'.history);
    assert forall u :: 0 <= u < |s.tasks| && u != t ==> s'.tasks[u] == s.tasks[u];
  }

  lemma {:induction false} SendKeepsInv(s: State, t: nat, s': State)
    requires Inv(s) && Next(s, Send(t), s')
    ensures Inv(s')
  {
    LinkIsIdle(s, t);
    assert TaskFits(s.tasks[t], s.history);
    assert TaskFits(s'.tasks[t], s'.history);
    assert forall u :: 0 <= u < |s.tasks| && u != t ==> s'.tasks[u] == s.tasks[u];
  }

  lemma {:induction false} ServeKeepsInv(s: State, answer: Reply, s': State)
    requires Inv(s) && Next(s, Serve(answer), s')
    ensures Inv(s')
  {
    var t := s.link.asker;
    assert TaskFits(s.tasks[t], s.history);
    if s'.history != s.history {
      forall u | 0 <= u < |s.tasks|
        ensures TaskFits(s'.tasks[u], s'.history)
      {
        TaskFitsLater(s.tasks[u], s.history, s'.history[s'.Now()]);
      }
    }
  }

  lemma {:induction false} ReceiveKeepsInv(s: State, t: nat, s': State)
    requires Inv(s) && Next(s, Receive(t), s')
    ensures Inv(s')
  {
    HolderIsAlone(s, t);
    assert TaskFits(s.tasks[t], s.history);
    assert TaskFits(s'.tasks[t], s'.history);
    assert forall u :: 0 <= u < |s.tasks| && u != t ==> s'.tasks[u] == s.tasks[u];
  }

  /** Moving on after a success keeps everything but the values, which are the caller's part. */
  lemma {:induction false} AdvancedFits(task: Task, values: map<int, Word>, stamp: nat, history: seq<Memory>)
    requires TaskFits(task, history)
    requires task.phase.Got? && task.phase.stamp == stamp
    ensures var next := Advanced(task, values, stamp, history[stamp], |history| - 1);
      StampsFit(next, history) && PhaseFits(next, history)
  {
    var next := Advanced(task, values, stamp, history[stamp], |history| - 1);
    assert StampsFit(next, history) by {
      forall i | 0 <= i < next.done
        ensures next.began <= next.stamps[i] < |history| && next.seen[i] == history[next.stamps[i]]
      {
        assert i < task.done ==> next.stamps[i] == task.stamps[i] && next.seen[i] == task.seen[i];
      }
    }
  }

  /** A successful read adds its snapshot to what the call has collected. */
  lemma {:induction false} ReadCollects(plan: seq<Read>, done: nat, seen: seq<Memory>, reply: Reply, memory: Memory)
    requires done < |plan| && |seen| == done
    requires Faithful(reply, plan[done], memory) && CheckRead(reply, plan[done]).Ok?
    ensures Assemble(plan[..done], seen) + CheckRead(reply, plan[done]).value
      == Assemble(plan[..done + 1], seen + [memory])
  {
    FaithfulReadIsSnapshot(reply, plan[done], memory);
    OneMoreRead(plan[..done], seen, plan[done], memory);
    assert plan[..done + 1] == plan[..done] + [plan[done]];
  }

  /** A successful transaction leaves the call with the values it should have. */
  lemma {:induction false} ReplyCollects(task: Task, history: seq<Memory>, words: map<int, Word>)
    requires ValuesFit(task) && task.phase.Got? && task.done < |task.call.Requests()|
    requires ReplyFits(task.Current(), task.phase.reply, task.phase.stamp, history)
    requires Received(task.Current(), task.phase.reply) == Ok(words)
    ensures ValuesFit(Advanced(task, task.values + words, task.phase.stamp, history[task.phase.stamp], |history| - 1))
  {
    if !task.call.WriteCall? {
      assert task.Current() == ReadRequest(task.call.Reads()[task.done]);
      ReadCollects(task.call.Reads(), task.done, task.seen, task.phase.reply, history[task.phase.stamp]);
    }
  }

  /** A transaction that ends leaves the call consistent. */
  lemma {:induction false} CompletedFits(task: Task, history: seq<Memory>)
    requires TaskFits(task, history) && task.phase.Got?
    ensures TaskFits(Completed(task, history, |history| - 1), history)
    ensures !Completed(task, history, |history| - 1).InTransaction()
  {
    var words := Received(task.Current(), task.phase.reply);
    if words.Ok? {
      ReplyCollects(task, history, words.value);
      AdvancedFits(task, task.values + words.value, task.phase.stamp, history);
    }
  }

  /** It also brings the call closer to its end. */
  lemma {:induction false} CompletedRemaining(task: Task, history: seq<Memory>)
    requires task.phase.Got? && task.phase.stamp < |history| && task.done < |task.call.Requests()|
    ensures Remaining(Completed(task, history, |history| - 1)) < Remaining(task)
  {
  }

  /** A task that has left its transaction gives up the lock. */
  lemma {:induction false} LeavingKeepsInv(s: State, t: nat, next: Task)
    requires Inv(s) && s.lock == Some(t) && s.link.Idle? && t < |s.tasks|
    requires TaskFits(next, s.history) && !next.InTransaction()
    ensures Inv(s.(tasks := s.tasks[t := next], lock := None))
  {
    var s' := s.(tasks := s.tasks[t := next], lock := None);
    forall u | 0 <= u < |s'.tasks|
      ensures TaskFits(s'.tasks[u], s'.history) && !s'.tasks[u].InTransaction()
    {
      if u != t {
        assert s'.tasks[u] == s.tasks[u];
      }
    }
  }

  /** What releasing the lock makes of the task, without how it does so. */
  lemma {:induction false} ReleasedTask(s: State, t: nat, s': State) returns (next: Task)
    requires Releases(s, t, s') && TaskFits(s.tasks[t], s.history)
    ensures s' == s.(tasks := s.tasks[t := next], lock := None)
    ensures TaskFits(next, s.history) && !next.InTransaction() && Remaining(next) < Remaining(s.tasks[t])
  {
    CompletedFits(s.tasks[t], s.history);
    CompletedRemaining(s.tasks[t], s.history);
    next := s'.tasks[t];
  }

  lemma {:induction false} ReleaseKeepsInv(s: State, t: nat, s': State)
    requires Inv(s) && Releases(s, t, s')
    ensures Inv(s')
  {
    LinkIsIdle(s, t);
    assert TaskFits(s.tasks[t], s.history);
    var next := ReleasedTask(s, t, s');
    LeavingKeepsInv(s, t, next);
  }

  lemma {:induction false} DriftKeepsInv(s: State, memory: Memory, s': State)
    requires Inv(s) && Next(s, Drift(memory), s')
    ensures Inv(s')
  {
    forall u | 0 <= u < |s.tasks|
      ensures TaskFits(s'.tasks[u], s'.history)
    {
      TaskFitsLater(s.tasks[u], s.history, memory);
    }
  }

  lemma {:induction false} NextKeepsInv(s: State, step: Step, s': State)
    requires Inv(s) && Next(s, step, s')
    ensures Inv(s')
  {
    match step
    case Start(t) => StartKeepsInv(s, t, s');
    case Acquire(t) => AcquireKeepsInv(s, t, s');
    case Send(t) => SendKeepsInv(s, t, s');
    case Serve(answer) => ServeKeepsInv(s, answer, s');
    case Receive(t) => ReceiveKeepsInv(s, t, s');
    case Release(t) => ReleaseKeepsInv(s, t, s');
    case Drift(memory) => DriftKeepsInv(s, memory, s');
  }

  lemma {:induction false} OneStep(states: seq<State>, steps: seq<Step>, i: nat)
    requires Run(states, steps) && i < |steps|
    ensures Next(states[i], steps[i], states[i + 1])
  {
  }

  lemma {:induction false} RunKeepsInv(states: seq<State>, steps: seq<Step>, i: nat)
    requires Run(states, steps) && i < |states|
    ensures Inv(states[i])
  {
    if i == 0 {
      InitialInv(states[0]);
    } else {
      RunKeepsInv(states, steps, i - 1);
      OneStep(states, steps, i - 1);
      NextKeepsInv(states[i - 1], steps[i - 1], states[i]);
    }
  }

  // ----- Mutual exclusion

  /** In every reachable state the link is intact, at most one task is in a transaction, and the
    lock is held exactly while one is: no finished call, successful or not, keeps it. */
  lemma {:induction false} OneTransactionAtATime(states: seq<State>, steps: seq<Step>, i: nat)
    requires Run(states, steps) && i < |states|
    ensures var s := states[i];
      && !s.link.Corrupted?
      && (forall t, u :: 0 <= t < |s.tasks| && 0 <= u < |s.tasks| ==>
            s.tasks[t].InTransaction() && s.tasks[u].InTransaction() ==> t == u)
      && (s.lock.None? <==> forall t :: 0 <= t < |s.tasks| ==> !s.tasks[t].InTransaction())
      && (s.lock.None? ==> s.link.Idle?)
  {
    RunKeepsInv(states, steps, i);
    var s := states[i];
    assert s.lock.Some? ==> s.tasks[s.lock.value].InTransaction();
  }

  /** A task only ever receives the reply to the request it is waiting for. */
  lemma {:induction false} ReplyGoesToAsker(states: seq<State>, steps: seq<Step>, i: nat)
    requires Run(states, steps) && i < |steps| && steps[i].Receive?
    ensures var (s, t) := (states[i], steps[i].t);
      && t < |s.tasks| && s.link.Answered? && s.link.asker == t
      && s.tasks[t].done < |s.tasks[t].call.Requests()| && s.link.request == s.tasks[t].Current()
      && ReplyFits(s.link.request, s.link.reply, s.link.stamp, s.history)
  {
    RunKeepsInv(states, steps, i);
    OneStep(states, steps, i);
    HolderIsAlone(states[i], steps[i].t);
  }

  // ----- What a finished call has returned

  ghost predicate HasReturned(s: State, t: nat) {
    t < |s.tasks| && s.tasks[t].phase.Finished? && s.tasks[t].phase.outcome.Returned?
  }

  /** A memory state between the beginning and the end of the call. */
  ghost predicate WithinCall(s: State, t: nat, k: int)
    requires HasReturned(s, t)
  {
    s.tasks[t].began <= k <= s.tasks[t].phase.ended < |s.history|
  }

  /** The values of a returned read are the snapshots of its requests, taken in order within
    the call. */
  lemma {:induction false} ReturnedValues(states: seq<State>, steps: seq<Step>, i: nat, t: nat)
    requires Run(states, steps) && i < |states|
    requires HasReturned(states[i], t) && !states[i].tasks[t].call.WriteCall?
    ensures var (s, task) := (states[i], states[i].tasks[t]);
      && |task.stamps| == |task.seen| == |task.call.Reads()|
      && task.phase.outcome.values == Assemble(task.call.Reads(), task.seen)
      && (forall j :: 0 <= j < |task.seen| ==>
            WithinCall(s, t, task.stamps[j]) && task.seen[j] == s.history[task.stamps[j]])
      && (forall j, k :: 0 <= j < k < |task.stamps| ==> task.stamps[j] <= task.stamps[k])
  {
    RunKeepsInv(states, steps, i);
    var task := states[i].tasks[t];
    assert TaskFits(task, states[i].history);
    assert task.call.Reads()[..task.done] == task.call.Reads();
  }

  /** The value at `a` is the word that the read saw in the state. */
  ghost predicate WordFrom(r: Read, memory: Memory, a: int, values: map<int, Word>) {
    r.Contains(a) && a in values && values[a] == WordSeen(memory, r, a)
  }

  /** A batch that returns holds exactly the words of its reads, each one as the meter held it
    at some moment of the call. */
  lemma {:induction false} BatchReturnsItsWords(states: seq<State>, steps: seq<Step>, i: nat, t: nat, a: int)
    requires Run(states, steps) && i < |states|
    requires HasReturned(states[i], t) && states[i].tasks[t].call.BatchCall?
    ensures var (s, task) := (states[i], states[i].tasks[t]);
      var values := task.phase.outcome.values;
      && (a in values <==> Covered(task.call.plan, a))
      && (a in values ==>
            exists j, k :: LastHolder(task.call.plan, j, a) && WithinCall(s, t, k)
              && WordFrom(task.call.plan[j], s.history[k], a, values))
  {
    ReturnedValues(states, steps, i, t);
    var s, task := states[i], states[i].tasks[t];
    AssembledCover(task.call.plan, task.seen, a);
    if a in task.phase.outcome.values {
      var j := AssembledWord(task.call.plan, task.seen, a);
      assert WithinCall(s, t, task.stamps[j]);
      assert WordFrom(task.call.plan[j], s.history[task.stamps[j]], a, task.phase.outcome.values);
    }
  }

  /** A single read returns its word as the meter held it at some moment of the call. */
  lemma {:induction false} SingleReturnsItsWord(states: seq<State>, steps: seq<Step>, i: nat, t: nat)
    requires Run(states, steps) && i < |states|
    requires HasReturned(states[i], t) && states[i].tasks[t].call.SingleCall?
    ensures var (s, task) := (states[i], states[i].tasks[t]);
      var (address, values) := (task.call.address, task.phase.outcome.values);
      exists k :: WithinCall(s, t, k) && values == map[address := WordSeen(s.history[k], Read(address, 1), address)]
  {
    ReturnedValues(states, steps, i, t);
    var s, task := states[i], states[i].tasks[t];
    var plan := task.call.Reads();
    assert plan[..0] == [];
    assert Assemble(plan, task.seen) == Snapshot(task.seen[0], plan[0]);
    assert WithinCall(s, t, task.stamps[0]);
  }

  /** A write that returns has put the low 16 bits of its payload into the memory during the call. */
  lemma {:induction false} WriteTakesEffect(states: seq<State>, steps: seq<Step>, i: nat, t: nat) returns (k: nat)
    requires Run(states, steps) && i < |states|
    requires HasReturned(states[i], t) && states[i].tasks[t].call.WriteCall?
    ensures var (s, task) := (states[i], states[i].tasks[t]);
      WithinCall(s, t, k) && s.history[k].words(task.call.target) == task.call.payload % 0x1_0000
  {
    RunKeepsInv(states, steps, i);
    var s, task := states[i], states[i].tasks[t];
    assert TaskFits(task, s.history);
    ReturnedWrite(task, s.history);
    k := task.stamps[0];
  }

  lemma {:induction false} ReturnedWrite(task: Task, history: seq<Memory>)
    requires TaskFits(task, history) && task.call.WriteCall?
    requires task.phase.Finished? && task.phase.outcome.Returned?
    ensures |task.stamps| == 1 && task.began <= task.stamps[0] <= task.phase.ended < |history|
    ensures history[task.stamps[0]].words(task.call.target) == task.call.payload % 0x1_0000
  {
    assert |task.call.Requests()| == 1;
  }

  /** A poll, interleaved with any other calls against a meter that keeps changing, gives every
    polled register the value it had in one single state within the poll. */
  lemma {:induction false} PollIsNeverTorn(
    states: seq<State>, steps: seq<Step>, i: nat, t: nat, batch: RegisterBatch, r: Register) returns (k: nat)
    requires Run(states, steps) && i < |states|
    requires Pollable(batch) && r in batch.registers
    requires HasReturned(states[i], t) && states[i].tasks[t].call == BatchCall(batch.requests)
    ensures WithinCall(states[i], t, k)
    ensures var decoded := Decoder.DecodedAll(batch.registers, states[i].tasks[t].phase.outcome.values);
      Reports(decoded, batch.registers, r, states[i].history[k])
  {
    ReturnedValues(states, steps, i, t);
    var task := states[i].tasks[t];
    var j := NoTornValues(batch, task.seen, r);
    k := task.stamps[j];
  }

  // ----- Why a call has failed

  ghost predicate HasFailed(s: State, t: nat) {
    t < |s.tasks| && s.tasks[t].phase.Finished? && s.tasks[t].phase.outcome.Failed?
  }

  /** A step changes only the task it is about. */
  lemma {:induction false} OneTaskMoves(s: State, step: Step, s': State, t: nat)
    requires Next(s, step, s') && t < |s.tasks| && |s'.tasks| == |s.tasks|
    ensures s'.tasks[t] == s.tasks[t]
      || step == Start(t) || step == Acquire(t) || step == Send(t) || step == Receive(t) || step == Release(t)
  {
  }

  lemma {:induction false} TasksStay(states: seq<State>, steps: seq<Step>, i: nat)
    requires Run(states, steps) && i < |states|
    ensures |states[i].tasks| == |states[0].tasks|
  {
    if i > 0 {
      TasksStay(states, steps, i - 1);
      OneStep(states, steps, i - 1);
    }
  }

  /** A task that has failed did so when it released the lock holding a reply that is an error. */
  lemma {:induction false} FailureIsReleased(states: seq<State>, steps: seq<Step>, i: nat, t: nat) returns (j: nat)
    requires Run(states, steps) && i < |states| && HasFailed(states[i], t)
    ensures j < i && steps[j] == Release(t) && t < |states[j].tasks| && states[j].tasks[t].phase.Got?
    ensures states[j + 1].tasks[t] == states[i].tasks[t]
  {
    TasksStay(states, steps, i);
    assert i == 0 ==> Fresh(states[i].tasks[t]);
    j := i - 1;
    TasksStay(states, steps, j);
    OneStep(states, steps, j);
    OneTaskMoves(states[j], steps[j], states[i], t);
    if states[j].tasks[t] == states[i].tasks[t] {
      j := FailureIsReleased(states, steps, j, t);
    }
  }

  /** A task that holds a reply has received it. */
  lemma {:induction false} ReplyIsReceived(states: seq<State>, steps: seq<Step>, i: nat, t: nat) returns (m: nat)
    requires Run(states, steps) && i < |states| && t < |states[i].tasks| && states[i].tasks[t].phase.Got?
    ensures m < i && steps[m] == Receive(t) && states[m].link.Answered?
    ensures states[m + 1].tasks[t] == states[i].tasks[t]
  {
    TasksStay(states, steps, i);
    assert i == 0 ==> Fresh(states[i].tasks[t]);
    m := i - 1;
    TasksStay(states, steps, m);
    OneStep(states, steps, m);
    OneTaskMoves(states[m], steps[m], states[i], t);
    if states[m].tasks[t] == states[i].tasks[t] {
      m := ReplyIsReceived(states, steps, m, t);
    }
  }

  /** The step `m` has handed the task the reply to its own request number `done`, given in a
    memory state of the call, and that reply is no answer, or one of another length than the
    read asked for. The fault is the one that was raised, or else the integration's own. */
  ghost predicate FaultReceived(s: State, step: Step, t: nat, done: nat, call: Call, fault: Fault) {
    && step == Receive(t) && s.link.Answered? && s.link.asker == t
    && t < |s.tasks| && s.tasks[t].call == call && s.tasks[t].done == done < |call.Requests()|
    && s.link.request == call.Requests()[done]
    && s.tasks[t].began <= s.link.stamp && ReplyFits(s.link.request, s.link.reply, s.link.stamp, s.history)
    && Received(s.link.request, s.link.reply) == Err(fault)
    && match s.link.reply
       case Raised(raised) => fault == raised
       case Answer(words) =>
         fault == ModbusFault && s.link.request.ReadRequest? && |words| != s.link.request.read.length
       case _ => fault == ModbusFault
  }

  lemma {:induction false} ReleaseOfFault(s: State, t: nat, s': State)
    requires Inv(s) && Releases(s, t, s') && HasFailed(s', t)
    ensures var (before, after) := (s.tasks[t], s'.tasks[t]);
      && before.done < |before.call.Requests()|
      && Received(before.Current(), before.phase.reply) == Err(after.phase.outcome.fault)
      && after == before.(phase := after.phase)
  {
  }

  /** A call that has failed received, at some step of the run, an error in reply to its own next
    request, under any interleaving; all its requests before that one have succeeded, each in a
    memory state of the call. */
  lemma {:induction false} FailedCallHasCause(states: seq<State>, steps: seq<Step>, i: nat, t: nat) returns (m: nat)
    requires Run(states, steps) && i < |states| && HasFailed(states[i], t)
    ensures m < i
    ensures var task := states[i].tasks[t];
      && FaultReceived(states[m], steps[m], t, task.done, task.call, task.phase.outcome.fault)
      && StampsFit(task, states[i].history) && ValuesFit(task)
  {
    var j := FailureIsReleased(states, steps, i, t);
    m := ReplyIsReceived(states, steps, j, t);
    SuccessesFit(states, steps, i, t);
    RunKeepsInv(states, steps, j);
    OneStep(states, steps, j);
    ReleaseOfFault(states[j], t, states[j + 1]);
    FaultWasReceived(states, steps, m, t, states[i].tasks[t].phase.outcome.fault);
  }

  lemma {:induction false} SuccessesFit(states: seq<State>, steps: seq<Step>, i: nat, t: nat)
    requires Run(states, steps) && i < |states| && t < |states[i].tasks|
    ensures StampsFit(states[i].tasks[t], states[i].history) && ValuesFit(states[i].tasks[t])
  {
    RunKeepsInv(states, steps, i);
    assert TaskFits(states[i].tasks[t], states[i].history);
  }

  /** When a reply is an error: never for a write that is answered, and for a read only when the
    answer has another length. */
  lemma {:induction false} ReplyFails(request: Request, reply: Reply)
    ensures match reply
      case Raised(fault) => Received(request, reply) == Err(fault)
      case Answer(words) =>
        if request.ReadRequest? && |words| != request.read.length then Received(request, reply) == Err(ModbusFault)
        else Received(request, reply).Ok?
      case _ => Received(request, reply) == Err(ModbusFault)
  {
  }

  lemma {:induction false} FaultWasReceived(states: seq<State>, steps: seq<Step>, m: nat, t: nat, fault: Fault)
    requires Run(states, steps) && m < |steps| && steps[m] == Receive(t)
    requires t < |states[m + 1].tasks| && states[m + 1].tasks[t].phase.Got?
    requires var task := states[m + 1].tasks[t];
      task.done < |task.call.Requests()| && Received(task.Current(), task.phase.reply) == Err(fault)
    ensures var task := states[m + 1].tasks[t];
      FaultReceived(states[m], steps[m], t, task.done, task.call, fault)
  {
    ReplyGoesToAsker(states, steps, m);
    ReplyFails(states[m].link.request, states[m].link.reply);
    RunKeepsInv(states, steps, m);
    OneStep(states, steps, m);
  }

  // ----- Progress

  /** The steps a task still has to take, not counting the one of the meter. */
  function Remaining(task: Task): int {
    var left := 5 * (|task.call.Requests()| - task.done);
    match task.phase
    case NotStarted => left + 1
    case Waiting => left
    case Locked => left - 1
    case Sent => left - 3
    case Got(_, _) => left - 4
    case Finished(_, _) => 0
  }

  function TotalRemaining(tasks: seq<Task>): int {
    if tasks == [] then 0 else Remaining(tasks[0]) + TotalRemaining(tasks[1..])
  }

  /** A request that the meter still has to answer. */
  function Open(link: Link): int {
    if link.Pending? then 1 else 0
  }

  function Measure(s: State): int {
    TotalRemaining(s.tasks) + Open(s.link)
  }

  lemma {:induction false} ReplacedRemaining(tasks: seq<Task>, t: nat, next: Task)
    requires t < |tasks|
    ensures TotalRemaining(tasks[t := next]) == TotalRemaining(tasks) - Remaining(tasks[t]) + Remaining(next)
  {
    if t == 0 {
      assert tasks[0 := next][1..] == tasks[1..];
    } else {
      assert tasks[t := next][1..] == tasks[1..][t - 1 := next];
      ReplacedRemaining(tasks[1..], t - 1, next);
    }
  }

  lemma {:induction false} MeasureIsNotNegative(s: State)
    requires Inv(s)
    ensures Measure(s) >= 0
  {
    forall t | 0 <= t < |s.tasks|
      ensures Remaining(s.tasks[t]) >= 0
    {
      assert TaskFits(s.tasks[t], s.history);
    }
    TotalIsNotNegative(s.tasks);
  }

  lemma {:induction false} TotalIsNotNegative(tasks: seq<Task>)
    requires forall t :: 0 <= t < |tasks| ==> Remaining(tasks[t]) >= 0
    ensures TotalRemaining(tasks) >= 0
  {
    if tasks != [] {
      TotalIsNotNegative(tasks[1..]);
    }
  }

  lemma {:induction false} OneTaskDecreasesMeasure(s: State, t: nat, next: Task, s': State)
    requires t < |s.tasks| && s'.tasks == s.tasks[t := next]
    requires Remaining(next) + Open(s'.link) < Remaining(s.tasks[t]) + Open(s.link)
    ensures Measure(s') < Measure(s)
  {
    ReplacedRemaining(s.tasks, t, next);
  }

  lemma {:induction false} BegunRemaining(task: Task, history: seq<Memory>, now: nat)
    requires TaskFits(task, history) && task.phase.NotStarted?
    ensures Remaining(Begun(task, now)) < Remaining(task)
  {
  }

  lemma {:induction false} StartDecreasesMeasure(s: State, t: nat, s': State)
    requires Inv(s) && Next(s, Start(t), s')
    ensures Measure(s') < Measure(s)
  {
    assert TaskFits(s.tasks[t], s.history);
    BegunRemaining(s.tasks[t], s.history, s.Now());
    OneTaskDecreasesMeasure(s, t, Begun(s.tasks[t], s.Now()), s');
  }

  lemma {:induction false} ReleaseDecreasesMeasure(s: State, t: nat, s': State)
    requires Inv(s) && Releases(s, t, s')
    ensures Measure(s') < Measure(s)
  {
    assert TaskFits(s.tasks[t], s.history);
    var next := ReleasedTask(s, t, s');
    OneTaskDecreasesMeasure(s, t, next, s');
  }

  lemma {:induction false} AcquireDecreasesMeasure(s: State, t: nat, s': State)
    requires Next(s, Acquire(t), s')
    ensures Measure(s') < Measure(s)
  {
    OneTaskDecreasesMeasure(s, t, s.tasks[t].(phase := Locked), s');
  }

  lemma {:induction false} SendDecreasesMeasure(s: State, t: nat, s': State)
    requires Inv(s) && Next(s, Send(t), s')
    ensures Measure(s') < Measure(s)
  {
    LinkIsIdle(s, t);
    OneTaskDecreasesMeasure(s, t, s.tasks[t].(phase := Sent), s');
  }

  lemma {:induction false} ReceiveDecreasesMeasure(s: State, t: nat, s': State)
    requires Next(s, Receive(t), s')
    ensures Measure(s') < Measure(s)
  {
    OneTaskDecreasesMeasure(s, t, s.tasks[t].(phase := Got(s.link.reply, s.link.stamp)), s');
  }

  /** Every step but a drift of the memory brings the calls closer to their end. */
  lemma {:induction false} StepsDecreaseMeasure(s: State, step: Step, s': State)
    requires Inv(s) && Next(s, step, s')
    ensures if step.Drift? then Measure(s') == Measure(s) else Measure(s') < Measure(s)
  {
    match step
    case Start(t) => StartDecreasesMeasure(s, t, s');
    case Acquire(t) => AcquireDecreasesMeasure(s, t, s');
    case Send(t) => SendDecreasesMeasure(s, t, s');
    case Serve(answer) =>
    case Receive(t) => ReceiveDecreasesMeasure(s, t, s');
    case Release(t) => ReleaseDecreasesMeasure(s, t, s');
    case Drift(_) =>
  }

  /** The steps of a run that are not drifts of the memory. */
  function Moves(steps: seq<Step>): nat {
    if steps == [] then 0
    else Moves(steps[..|steps| - 1]) + if steps[|steps| - 1].Drift? then 0 else 1
  }

  lemma {:induction false} StepOfRun(states: seq<State>, steps: seq<Step>, i: nat)
    requires Run(states, steps) && i < |steps|
    ensures if steps[i].Drift? then Measure(states[i + 1]) == Measure(states[i])
            else Measure(states[i + 1]) < Measure(states[i])
    ensures Measure(states[i + 1]) >= 0
  {
    RunKeepsInv(states, steps, i);
    RunKeepsInv(states, steps, i + 1);
    MeasureIsNotNegative(states[i + 1]);
    StepsDecreaseMeasure(states[i], steps[i], states[i + 1]);
  }

  /** The tasks of a run can only take as many steps as the calls they begin with allow. */
  lemma {:induction false} RunsAreBounded(states: seq<State>, steps: seq<Step>, i: nat)
    requires Run(states, steps) && i <= |steps|
    ensures Moves(steps[..i]) + Measure(states[i]) <= Measure(states[0])
    ensures Moves(steps[..i]) <= Measure(states[0])
  {
    if i == 0 {
      RunKeepsInv(states, steps, 0);
      MeasureIsNotNegative(states[0]);
    } else {
      RunsAreBounded(states, steps, i - 1);
      StepOfRun(states, steps, i - 1);
      assert steps[..i][..i - 1] == steps[..i - 1];
    }
  }

  /** While a call is unfinished some step other than a drift can be taken. */
  lemma {:induction false} SomeStepIsPossible(s: State, t: nat) returns (step: Step, s': State)
    requires Inv(s) && t < |s.tasks| && s.tasks[t].Unfinished()
    ensures !step.Drift? && Next(s, step, s')
  {
    if s.lock.Some? {
      var u := s.lock.value;
      assert s.tasks[u].InTransaction() && TaskFits(s.tasks[u], s.history);
      step, s' := HolderCanMove(s, u);
    } else {
      assert !s.tasks[t].InTransaction() && TaskFits(s.tasks[t], s.history);
      if s.tasks[t].phase.NotStarted? {
        step, s' := Start(t), s.(tasks := s.tasks[t := Begun(s.tasks[t], s.Now())]);
      } else {
        step, s' := Acquire(t), s.(tasks := s.tasks[t := s.tasks[t].(phase := Locked)], lock := Some(t));
      }
    }
  }

  lemma {:induction false} HolderCanMove(s: State, t: nat) returns (step: Step, s': State)
    requires Inv(s) && t < |s.tasks| && s.tasks[t].InTransaction() && TaskFits(s.tasks[t], s.history)
    ensures !step.Drift? && Next(s, step, s')
  {
    if s.tasks[t].phase.Locked? {
      LinkIsIdle(s, t);
      step := Send(t);
      s' := s.(tasks := s.tasks[t := s.tasks[t].(phase := Sent)], link := Pending(t, s.tasks[t].Current()));
    } else if s.tasks[t].phase.Got? {
      step := Release(t);
      s' := s.(tasks := s.tasks[t := Completed(s.tasks[t], s.history, s.Now())], lock := None);
    } else if s.link.Pending? {
      step := Serve(NoReply);
      s' := s.(link := Answered(s.link.asker, s.link.request, NoReply, s.Now()));
    } else {
      step := Receive(t);
      s' := s.(tasks := s.tasks[t := s.tasks[t].(phase := Got(s.link.reply, s.link.stamp))], link := Idle);
    }
  }

  /** When nothing but a drift can happen any more, every call has finished, the lock is free
    and the link is idle. */
  lemma {:induction false} AllCallsFinish(s: State)
    requires Inv(s)
    requires forall step, s' :: Next(s, step, s') ==> step.Drift?
    ensures forall t :: 0 <= t < |s.tasks| ==> s.tasks[t].phase.Finished?
    ensures s.lock.None? && s.link.Idle?
  {
    forall t | 0 <= t < |s.tasks|
      ensures s.tasks[t].phase.Finished?
    {
      if s.tasks[t].Unfinished() {
        var step, s' := SomeStepIsPossible(s, t);
        assert false;
      }
    }
    assert s.lock.Some? ==> s.tasks[s.lock.value].InTransaction();
  }
}
