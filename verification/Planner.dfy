/** Grouping word addresses into read requests (api/batch.py).

  A plan is specified without reference to how it is computed: `IsPlan` says which
  lists of reads are acceptable, `PlanIsUnique` shows that there is only one for each
  set of addresses, and `PlanIsMinimal` that no other way of reading the set is shorter.
 */
module Planner {
  import opened Wrappers

  /** One read request: `length` consecutive words from `start`. */
  datatype Read = Read(start: int, length: int) {
    function End(): int {
      start + length
    }

    predicate Contains(address: int) {
      start <= address < start + length
    }
  }

  /** Python's `range()` refuses a step of zero. */
  datatype PlanError = ZeroStep

  /** The most words one request may ask for. */
  const MAX_READ_REGISTERS := 20

  // ----- What a plan is

  ghost function Elements(s: seq<int>): set<int> {
    set x | x in s
  }

  ghost predicate Covered(plan: seq<Read>, address: int) {
    exists r :: r in plan && r.Contains(address)
  }

  ghost predicate CoversExactly(plan: seq<Read>, addresses: set<int>) {
    forall a {:trigger Covered(plan, a)} :: a in addresses <==> Covered(plan, a)
  }

  ghost predicate Ordered(plan: seq<Read>) {
    forall i, j :: 0 <= i < j < |plan| ==> plan[i].End() <= plan[j].start
  }

  ghost predicate Sized(plan: seq<Read>, cap: int) {
    forall i :: 0 <= i < |plan| ==> 1 <= plan[i].length <= cap
  }

  /** A read stops only at the cap or at a gap. */
  ghost predicate Greedy(plan: seq<Read>, addresses: set<int>, cap: int) {
    forall i :: 0 <= i < |plan| ==> plan[i].length == cap || plan[i].End() !in addresses
  }

  ghost predicate IsPlan(plan: seq<Read>, addresses: set<int>, cap: int) {
    && Ordered(plan)
    && Sized(plan, cap)
    && CoversExactly(plan, addresses)
    && Greedy(plan, addresses, cap)
  }

  /** Any list of reads that could stand in for a plan: it fetches every address, nothing
    outside the set, and at most `cap` words at a time. Reads may overlap and repeat. */
  ghost predicate IsLegalCover(plan: seq<Read>, addresses: set<int>, cap: int) {
    && CoversExactly(plan, addresses)
    && forall i :: 0 <= i < |plan| ==> plan[i].length <= cap
  }

  // ----- Minimality

  /** No legal read holds the first words of two different planned reads. */
  lemma StartsAreFarApart(plan: seq<Read>, addresses: set<int>, cap: int, i: nat, j: nat, r: Read)
    requires IsPlan(plan, addresses, cap)
    requires i < j < |plan|
    requires r.length <= cap
    requires forall a :: r.Contains(a) ==> a in addresses
    ensures !(r.Contains(plan[i].start) && r.Contains(plan[j].start))
  {
    assert plan[i].End() <= plan[j].start;
    assert r.Contains(plan[i].start) && r.Contains(plan[j].start) ==> r.Contains(plan[i].End());
  }

  /** The pigeonhole principle: an injection of n things into m holes needs n <= m. */
  lemma {:induction false} Pigeonhole(holes: seq<int>, m: nat)
    requires forall i :: 0 <= i < |holes| ==> 0 <= holes[i] < m
    requires forall i, j :: 0 <= i < j < |holes| ==> holes[i] != holes[j]
    ensures |holes| <= m
    decreases m
  {
    if holes != [] {
      var n := |holes| - 1;
      var last := holes[n];
      // Move the occupant of hole m-1, if any, into the hole that is being vacated.
      var rest := seq(n, i requires 0 <= i < n => if holes[i] == m - 1 then last else holes[i]);
      Pigeonhole(rest, m - 1);
    }
  }

  /** Some read of the list that contains the address. */
  ghost function Holder(plan: seq<Read>, address: int): (k: nat)
    requires Covered(plan, address)
    ensures k < |plan| && plan[k].Contains(address)
  {
    assert exists k :: 0 <= k < |plan| && plan[k].Contains(address);
    var k :| 0 <= k < |plan| && plan[k].Contains(address);
    k
  }

  lemma PlanIsMinimal(plan: seq<Read>, other: seq<Read>, addresses: set<int>, cap: int)
    requires IsPlan(plan, addresses, cap)
    requires IsLegalCover(other, addresses, cap)
    ensures |plan| <= |other|
  {
    forall i | 0 <= i < |plan|
      ensures Covered(other, plan[i].start)
    {
      assert plan[i] in plan && plan[i].Contains(plan[i].start);
      assert Covered(plan, plan[i].start);
    }
    var holes := seq(|plan|, i requires 0 <= i < |plan| => Holder(other, plan[i].start));
    forall i, j | 0 <= i < j < |plan|
      ensures holes[i] != holes[j]
    {
      var r := other[holes[i]];
      forall a | r.Contains(a)
        ensures a in addresses
      {
        assert Covered(other, a);
      }
      StartsAreFarApart(plan, addresses, cap, i, j, r);
    }
    Pigeonhole(holes, |other|);
  }

  // ----- Uniqueness

  lemma FirstStartIsLeast(plan: seq<Read>, addresses: set<int>, cap: int, a: int)
    requires IsPlan(plan, addresses, cap)
    requires a in addresses
    ensures plan != [] && plan[0].start in addresses && plan[0].start <= a
  {
    assert Covered(plan, a);
    assert plan[0] in plan && plan[0].Contains(plan[0].start);
    assert Covered(plan, plan[0].start);
  }

  lemma PlansShareFirstRead(p: seq<Read>, q: seq<Read>, addresses: set<int>, cap: int)
    requires IsPlan(p, addresses, cap) && IsPlan(q, addresses, cap)
    requires p != []
    ensures q != [] && p[0] == q[0]
  {
    assert p[0] in p && p[0].Contains(p[0].start);
    assert Covered(p, p[0].start);
    FirstStartIsLeast(q, addresses, cap, p[0].start);
    FirstStartIsLeast(p, addresses, cap, q[0].start);
    FirstReadIsNotShorter(p, q, addresses, cap);
    FirstReadIsNotShorter(q, p, addresses, cap);
  }

  lemma FirstReadIsNotShorter(p: seq<Read>, q: seq<Read>, addresses: set<int>, cap: int)
    requires IsPlan(p, addresses, cap) && IsPlan(q, addresses, cap)
    requires p != [] && q != [] && p[0].start == q[0].start
    ensures p[0].length >= q[0].length
  {
    assert q[0] in q;
    assert q[0].Contains(p[0].End()) ==> Covered(q, p[0].End());
  }

  ghost function Without(addresses: set<int>, r: Read): set<int> {
    set a | a in addresses && !r.Contains(a)
  }

  /** What is left of a plan after its first read is a plan of what is left of the set. */
  lemma RestIsPlan(plan: seq<Read>, addresses: set<int>, cap: int)
    requires IsPlan(plan, addresses, cap)
    requires plan != []
    ensures IsPlan(plan[1..], Without(addresses, plan[0]), cap)
  {
    var rest := Without(addresses, plan[0]);
    forall a
      ensures a in rest <==> Covered(plan[1..], a)
    {
      if a in rest {
        assert Covered(plan, a);
      }
      if Covered(plan[1..], a) {
        var i :| 0 <= i < |plan[1..]| && plan[1..][i].Contains(a);
        assert plan[i + 1] in plan && plan[i + 1].Contains(a);
        assert Covered(plan, a);
      }
    }
  }

  /** The set of addresses and the cap determine the plan: neither the order in which the
    addresses are given nor repetitions matter. */
  lemma {:induction false} PlanIsUnique(p: seq<Read>, q: seq<Read>, addresses: set<int>, cap: int)
    requires IsPlan(p, addresses, cap) && IsPlan(q, addresses, cap)
    ensures p == q
  {
    if p == [] {
      if q != [] {
        PlansShareFirstRead(q, p, addresses, cap);
      }
    } else {
      PlansShareFirstRead(p, q, addresses, cap);
      RestIsPlan(p, addresses, cap);
      RestIsPlan(q, addresses, cap);
      PlanIsUnique(p[1..], q[1..], Without(addresses, p[0]), cap);
      assert p == [p[0]] + p[1..] && q == [q[0]] + q[1..];
    }
  }

  // ----- Computing the plan

  ghost predicate StrictlyIncreasing(s: seq<int>) {
    forall i, j :: 0 <= i < j < |s| ==> s[i] < s[j]
  }

  function InsertSorted(x: int, s: seq<int>): (t: seq<int>)
    requires StrictlyIncreasing(s)
    ensures StrictlyIncreasing(t)
    ensures forall a :: a in t <==> a == x || a in s
  {
    if s == [] then [x]
    else if x < s[0] then [x] + s
    else if x == s[0] then s
    else
      var rest := InsertSorted(x, s[1..]);
      assert forall i :: 0 <= i < |rest| ==> rest[i] in rest;
      assert s == [s[0]] + s[1..];
      [s[0]] + rest
  }

  /** Python's `sorted(set(addresses))`. */
  function SortedDistinct(addresses: seq<int>): (ordered: seq<int>)
    ensures StrictlyIncreasing(ordered)
    ensures Elements(ordered) == Elements(addresses)
  {
    if addresses == [] then []
    else
      assert addresses == [addresses[0]] + addresses[1..];
      assert forall a :: a in SortedDistinct(addresses[1..]) <==> a in Elements(addresses[1..]);
      InsertSorted(addresses[0], SortedDistinct(addresses[1..]))
  }

  function Min(a: int, b: int): int {
    if a <= b then a else b
  }

  /** The chunks at offsets `offset`, `offset + step`, ... of a run of `width` words. */
  function Chunks(start: int, width: int, offset: int, step: int): seq<Read>
    requires step >= 1
    decreases width - offset
  {
    if offset >= width then []
    else [Read(start + offset, Min(step, width - offset))] + Chunks(start, width, offset + step, step)
  }

  /** `range(0, width, maximumLength)` raises on a zero step and is empty for a negative one. */
  function SplitRun(start: int, end: int, maximumLength: int): Result<seq<Read>, PlanError>
    requires start <= end
  {
    if maximumLength == 0 then Err(ZeroStep)
    else if maximumLength < 0 then Ok([])
    else Ok(Chunks(start, end - start + 1, 0, maximumLength))
  }

  /** The addresses from `start` to `end`, both included. */
  function Run(start: int, end: int): (run: set<int>)
    ensures forall a :: a in run <==> start <= a <= end
    decreases end - start
  {
    if start > end then {} else Run(start, end - 1) + {end}
  }

  lemma {:induction false} ChunksArePlan(start: int, width: int, offset: int, step: int)
    requires step >= 1
    ensures IsPlan(Chunks(start, width, offset, step), Run(start + offset, start + width - 1), step)
    decreases width - offset
  {
    if offset < width {
      ChunksArePlan(start, width, offset + step, step);
      var first := Read(start + offset, Min(step, width - offset));
      FirstChunk(first, Chunks(start, width, offset + step, step), start + width - 1, step);
    }
  }

  /** A full read, or one that ends the run, goes in front of a plan of the rest of the run. */
  lemma FirstChunk(first: Read, rest: seq<Read>, end: int, cap: int)
    requires 1 <= first.length <= cap
    requires first.length == cap <= end + 1 - first.start || first.End() == end + 1
    requires IsPlan(rest, Run(first.start + cap, end), cap)
    ensures IsPlan([first] + rest, Run(first.start, end), cap)
  {
    var plan := [first] + rest;
    var here, later := Run(first.start, end), Run(first.start + cap, end);
    EndsAreCovered(rest, later, cap);
    assert CoversExactly(plan, here) by {
      forall a
        ensures a in here <==> Covered(plan, a)
      {
        CoveredByEither([first], rest, a);
        assert Covered([first], a) <==> first.Contains(a);
      }
    }
    assert Greedy(plan, here, cap) by {
      forall i | 0 <= i < |plan|
        ensures plan[i].length == cap || plan[i].End() !in here
      {
        if i > 0 {
          assert plan[i] == rest[i - 1];
        }
      }
    }
  }

  lemma CoveredByEither(p: seq<Read>, q: seq<Read>, a: int)
    ensures Covered(p + q, a) <==> Covered(p, a) || Covered(q, a)
  {
  }

  /** Plans of two sets with a gap between them concatenate. */
  lemma PlansConcatenate(p: seq<Read>, s: set<int>, q: seq<Read>, t: set<int>, cap: int)
    requires IsPlan(p, s, cap) && IsPlan(q, t, cap)
    requires forall a, b :: a in s && b in t ==> a + 1 < b
    ensures IsPlan(p + q, s + t, cap)
  {
    var pq := p + q;
    assert CoversExactly(pq, s + t) by {
      forall a
        ensures a in s + t <==> Covered(pq, a)
      {
        CoveredByEither(p, q, a);
      }
    }
    EndsAreCovered(p, s, cap);
    EndsAreCovered(q, t, cap);
    assert Ordered(pq) by {
      forall i, j | 0 <= i < j < |pq|
        ensures pq[i].End() <= pq[j].start
      {
        if i < |p| <= j {
          assert p[i].End() - 1 in s && q[j - |p|].start in t;
        }
      }
    }
    assert Greedy(pq, s + t, cap) by {
      forall i | 0 <= i < |pq|
        ensures pq[i].length == cap || pq[i].End() !in s + t
      {
        if i < |p| {
          assert p[i].End() - 1 in s;
        } else {
          assert q[i - |p|].End() - 1 in t;
        }
      }
    }
  }

  lemma EndsAreCovered(plan: seq<Read>, addresses: set<int>, cap: int)
    requires IsPlan(plan, addresses, cap)
    ensures forall i :: 0 <= i < |plan| ==> plan[i].start in addresses && plan[i].End() - 1 in addresses
  {
    forall i | 0 <= i < |plan|
      ensures plan[i].start in addresses && plan[i].End() - 1 in addresses
    {
      assert plan[i] in plan && plan[i].Contains(plan[i].start) && plan[i].Contains(plan[i].End() - 1);
      assert Covered(plan, plan[i].start) && Covered(plan, plan[i].End() - 1);
    }
  }

  /** Words of `ordered[from..to]` that follow each other without a gap. */
  ghost predicate Contiguous(ordered: seq<int>, from: nat, to: nat)
    requires from < to <= |ordered|
  {
    forall k :: from <= k < to ==> ordered[k] == ordered[from] + (k - from)
  }

  /** The words up to `to` are those up to `from` and the run in between. */
  lemma ElementsUpTo(ordered: seq<int>, from: nat, to: nat)
    requires from < to <= |ordered| && Contiguous(ordered, from, to)
    ensures Elements(ordered[..to]) == Elements(ordered[..from]) + Run(ordered[from], ordered[to - 1])
  {
    var start := ordered[from];
    assert ordered[..to] == ordered[..from] + ordered[from..to];
    forall a
      ensures a in ordered[from..to] <==> a in Run(start, ordered[to - 1])
    {
      if start <= a <= ordered[to - 1] {
        assert ordered[from..to][a - start] == a;
      }
    }
  }

  /** Flushing the pending run extends a plan of what came before it. */
  lemma FlushRun(plan: seq<Read>, ordered: seq<int>, from: nat, to: nat, cap: int)
    requires cap >= 1 && StrictlyIncreasing(ordered)
    requires from < to <= |ordered| && Contiguous(ordered, from, to)
    requires IsPlan(plan, Elements(ordered[..from]), cap)
    requires from > 0 ==> ordered[from - 1] + 1 < ordered[from]
    ensures ordered[from] <= ordered[to - 1]
    ensures IsPlan(plan + SplitRun(ordered[from], ordered[to - 1], cap).value, Elements(ordered[..to]), cap)
  {
    var start, end := ordered[from], ordered[to - 1];
    ChunksArePlan(start, end - start + 1, 0, cap);
    ElementsUpTo(ordered, from, to);
    var before, run := Elements(ordered[..from]), Run(start, end);
    forall a, b | a in before && b in run
      ensures a + 1 < b
    {
      assert a <= ordered[from - 1];
    }
    PlansConcatenate(plan, before, SplitRun(start, end, cap).value, run, cap);
  }

  /** What the loop below knows of the reads collected so far. */
  ghost predicate Flushed(plan: seq<Read>, ordered: seq<int>, from: nat, cap: int)
    requires from <= |ordered|
  {
    && (cap < 0 ==> plan == [])
    && (cap >= 1 ==> IsPlan(plan, Elements(ordered[..from]), cap))
  }

  lemma FlushStep(plan: seq<Read>, ordered: seq<int>, from: nat, to: nat, cap: int)
    requires StrictlyIncreasing(ordered)
    requires from < to <= |ordered| && Contiguous(ordered, from, to)
    requires Flushed(plan, ordered, from, cap)
    requires from > 0 ==> ordered[from - 1] + 1 < ordered[from]
    ensures ordered[from] <= ordered[to - 1]
    ensures cap == 0 || Flushed(plan + SplitRun(ordered[from], ordered[to - 1], cap).value, ordered, to, cap)
  {
    if cap >= 1 {
      FlushRun(plan, ordered, from, to, cap);
    }
  }

  /** What a caller of `SplitAddresses` is promised. */
  ghost predicate Split(addresses: seq<int>, cap: int, r: Result<seq<Read>, PlanError>) {
    && (r.Err? <==> addresses != [] && cap == 0)
    && (cap < 0 ==> r == Ok([]))
    && (cap >= 1 ==> r.Ok? && IsPlan(r.value, Elements(addresses), cap))
  }

  lemma AllFlushed(addresses: seq<int>, ordered: seq<int>, plan: seq<Read>, cap: int)
    requires Elements(ordered) == Elements(addresses)
    requires ordered != [] && cap != 0 && Flushed(plan, ordered, |ordered|, cap)
    ensures Split(addresses, cap, Ok(plan))
  {
    assert ordered[..|ordered|] == ordered;
  }

  lemma NothingToRead(addresses: seq<int>, ordered: seq<int>)
    requires Elements(ordered) == Elements(addresses)
    ensures ordered == [] <==> addresses == []
  {
    assert addresses != [] ==> addresses[0] in Elements(ordered);
    assert ordered != [] ==> ordered[0] in Elements(addresses);
  }

  method SplitAddresses(addresses: seq<int>, maximumLength: int := MAX_READ_REGISTERS)
    returns (r: Result<seq<Read>, PlanError>)
    ensures Split(addresses, maximumLength, r)
  {
    var ordered := SortedDistinct(addresses);
    NothingToRead(addresses, ordered);
    if ordered == [] {
      return Ok([]);
    }

    var plan: seq<Read> := [];
    var runStart, runEnd := ordered[0], ordered[0];
    ghost var from := 0;
    for i := 1 to |ordered|
      invariant 0 <= from < i && runStart == ordered[from] && runEnd == ordered[i - 1]
      invariant Contiguous(ordered, from, i)
      invariant from > 0 ==> ordered[from - 1] + 1 < ordered[from]
      invariant Flushed(plan, ordered, from, maximumLength)
    {
      var address := ordered[i];
      if address == runEnd + 1 {
        runEnd := address;
        continue;
      }
      FlushStep(plan, ordered, from, i, maximumLength);
      var run :- SplitRun(runStart, runEnd, maximumLength);
      plan := plan + run;
      runStart, runEnd := address, address;
      from := i;
    }
    FlushStep(plan, ordered, from, |ordered|, maximumLength);
    var run :- SplitRun(runStart, runEnd, maximumLength);
    plan := plan + run;
    AllFlushed(addresses, ordered, plan, maximumLength);
    return Ok(plan);
  }

  // ----- Alignment

  /** Two neighbouring words of the set lie in one read, or the second one starts a read
    right after a full one. */
  lemma NeighboursInPlan(plan: seq<Read>, addresses: set<int>, cap: int, i: nat, a: int)
    requires IsPlan(plan, addresses, cap)
    requires i < |plan| && plan[i].Contains(a) && a + 1 in addresses
    ensures plan[i].Contains(a + 1) || (plan[i].length == cap && plan[i].End() == a + 1)
  {
  }

  /** A read that continues a run starts where a full read ends. */
  lemma ReadBefore(plan: seq<Read>, addresses: set<int>, cap: int, i: nat) returns (j: nat)
    requires IsPlan(plan, addresses, cap)
    requires i < |plan| && plan[i].start - 1 in addresses
    ensures j < i && plan[j].length == cap && plan[j].End() == plan[i].start
  {
    var s := plan[i].start;
    EndsAreCovered(plan, addresses, cap);
    assert Covered(plan, s - 1);
    var k: nat :| k < |plan| && plan[k].Contains(s - 1);
    j := k;
    assert !(i < j);
    NeighboursInPlan(plan, addresses, cap, j, s - 1);
  }

  /** With an even cap and every run starting at an even address, every read starts there too. */
  lemma {:induction false} ReadsStartEven(plan: seq<Read>, addresses: set<int>, cap: int, i: nat)
    requires IsPlan(plan, addresses, cap) && cap % 2 == 0
    requires forall a :: a in addresses && a - 1 !in addresses ==> a % 2 == 0
    requires i < |plan|
    ensures plan[i].start % 2 == 0
  {
    var s := plan[i].start;
    EndsAreCovered(plan, addresses, cap);
    if s - 1 in addresses {
      var j := ReadBefore(plan, addresses, cap, i);
      ReadsStartEven(plan, addresses, cap, j);
    }
  }

  /** Then a pair of words at an even address is never split between two reads. */
  lemma EvenPairsAreNotSplit(plan: seq<Read>, addresses: set<int>, cap: int, a: int)
    requires IsPlan(plan, addresses, cap) && cap % 2 == 0
    requires forall x :: x in addresses && x - 1 !in addresses ==> x % 2 == 0
    requires a % 2 == 0 && a in addresses && a + 1 in addresses
    ensures exists i :: 0 <= i < |plan| && plan[i].Contains(a) && plan[i].Contains(a + 1)
  {
    assert Covered(plan, a);
    var i :| 0 <= i < |plan| && plan[i].Contains(a);
    ReadsStartEven(plan, addresses, cap, i);
    NeighboursInPlan(plan, addresses, cap, i, a);
  }
}
