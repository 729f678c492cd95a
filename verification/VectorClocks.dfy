/** Causal versions: comparison, merge and construction of vector clocks (vector_clock.hpp). */
module VectorClocks {
  import opened Basics

  // Counters are 64-bit unsigned words on the wire.
  const COUNTER_LIMIT: nat := 0x1_0000_0000_0000_0000
  type Counter = n: nat | n < 0x1_0000_0000_0000_0000

  datatype Clock = Clock(counters: map<NodeId, Counter>, lastUpdated: int, writerId: NodeId) {
    function Stamp(): Stamp { Basics.Stamp(lastUpdated, writerId) }
  }

  // What a default-constructed message holds.
  const EMPTY_CLOCK := Clock(map[], 0, "")

  datatype Versioned = Versioned(value: string, clock: Clock)

  datatype ClockComparison = EQUAL | DOMINATES | DOMINATED | CONCURRENT

  /** A node absent from the map stands at zero. */
  function Count(c: Clock, n: NodeId): Counter {
    if n in c.counters then c.counters[n] else 0
  }

  // ---- the causal order -------------------------------------------------

  ghost predicate Leq(a: Clock, b: Clock) {
    forall n: NodeId :: Count(a, n) <= Count(b, n)
  }

  ghost predicate Equiv(a: Clock, b: Clock) { Leq(a, b) && Leq(b, a) }

  ghost predicate Lt(a: Clock, b: Clock) { Leq(a, b) && !Leq(b, a) }

  ghost predicate Concurrent(a: Clock, b: Clock) { !Leq(a, b) && !Leq(b, a) }

  ghost predicate Comparable(a: Clock, b: Clock) { Leq(a, b) || Leq(b, a) }

  ghost function Comparison(a: Clock, b: Clock): ClockComparison {
    if Leq(a, b) then (if Leq(b, a) then EQUAL else DOMINATED)
    else if Leq(b, a) then DOMINATES
    else CONCURRENT
  }

  lemma LeqTransitive(a: Clock, b: Clock, c: Clock)
    requires Leq(a, b) && Leq(b, c)
    ensures Leq(a, c)
    ensures Lt(a, b) || Lt(b, c) ==> Lt(a, c)
  {
    forall n: NodeId ensures Count(a, n) <= Count(c, n) {
      assert Count(a, n) <= Count(b, n) <= Count(c, n);
    }
    if Leq(c, a) {
      forall n: NodeId ensures Count(b, n) <= Count(a, n) && Count(c, n) <= Count(b, n) {
        assert Count(b, n) <= Count(c, n) && Count(c, n) <= Count(a, n) && Count(a, n) <= Count(b, n);
      }
    }
  }

  lemma LeqReflexive(a: Clock)
    ensures Leq(a, a) && Equiv(a, a)
  {
  }

  /** The four outcomes are exactly the four order relations, and swapping the arguments mirrors them. */
  lemma ComparisonMeaning(a: Clock, b: Clock)
    ensures Comparison(a, b) == EQUAL <==> forall n: NodeId :: Count(a, n) == Count(b, n)
    ensures Comparison(a, b) == DOMINATES <==> Comparison(b, a) == DOMINATED
    ensures Comparison(a, b) == CONCURRENT <==>
            (exists n: NodeId, m: NodeId :: Count(a, n) > Count(b, n) && Count(b, m) > Count(a, m))
  {
    if Comparison(a, b) == EQUAL {
      forall n: NodeId ensures Count(a, n) == Count(b, n) {
        assert Count(a, n) <= Count(b, n);
      }
    }
    if Comparison(a, b) == CONCURRENT {
      var n: NodeId :| Count(a, n) > Count(b, n);
      var m: NodeId :| Count(b, m) > Count(a, m);
    }
  }

  /** Counters do not go down from `x` to `y` on the given names. */
  ghost predicate LeqOn(x: Clock, y: Clock, names: set<NodeId>) {
    forall n :: n in names ==> Count(x, n) <= Count(y, n)
  }

  lemma LeqFromEntries(x: Clock, y: Clock, names: set<NodeId>)
    requires LeqOn(x, y, names) && x.counters.Keys <= names
    ensures Leq(x, y)
  {
    forall n: NodeId ensures Count(x, n) <= Count(y, n) {
      if n in x.counters { assert n in names; }
    }
  }

  lemma FullIntersection(a: set<NodeId>, b: set<NodeId>)
    ensures |a * b| <= |b|
    ensures |a * b| == |b| ==> b <= a
  {
    assert b == (a * b) + (b - a);
    assert |b| == |a * b| + |b - a|;
  }

  lemma RemoveFromIntersection(s: set<NodeId>, n: NodeId, other: set<NodeId>)
    requires n in s
    ensures |s * other| == |(s - {n}) * other| + (if n in other then 1 else 0)
  {
    if n in other {
      assert s * other == ((s - {n}) * other) + {n};
    } else {
      assert s * other == (s - {n}) * other;
    }
  }

  /** Walks the entries of `a`, stopping as soon as each side has been seen ahead somewhere. */
  method CompareFirstPass(a: Clock, b: Clock) returns (aGreater: bool, bGreater: bool, sharedKeyCount: nat)
    ensures aGreater ==> !Leq(a, b)
    ensures bGreater ==> !Leq(b, a)
    ensures !aGreater ==> Leq(a, b)
    ensures !bGreater ==> LeqOn(b, a, a.counters.Keys)
    ensures (aGreater && bGreater) || sharedKeyCount == |a.counters.Keys * b.counters.Keys|
  {
    aGreater, bGreater, sharedKeyCount := false, false, 0;
    var todo := a.counters.Keys;
    while todo != {}
      invariant todo <= a.counters.Keys
      invariant if aGreater then !Leq(a, b) else LeqOn(a, b, a.counters.Keys - todo)
      invariant if bGreater then !Leq(b, a) else LeqOn(b, a, a.counters.Keys - todo)
      invariant sharedKeyCount + |todo * b.counters.Keys| == |a.counters.Keys * b.counters.Keys|
      decreases todo
    {
      var n :| n in todo;
      RemoveFromIntersection(todo, n, b.counters.Keys);
      var aCount := a.counters[n];
      var bCount := 0;
      if n in b.counters {
        bCount := b.counters[n];
        sharedKeyCount := sharedKeyCount + 1;
      }
      assert aCount == Count(a, n) && bCount == Count(b, n);
      if aCount > bCount { aGreater := true; }
      if bCount > aCount { bGreater := true; }
      todo := todo - {n};
      if aGreater && bGreater { break; }
    }
    if !aGreater { LeqFromEntries(a, b, a.counters.Keys); }
  }

  /** Walks the entries of `b` that `a` lacks, stopping at the first nonzero one. */
  method CompareSecondPass(a: Clock, b: Clock) returns (bGreater: bool)
    ensures bGreater <==> exists n :: n in b.counters && n !in a.counters && b.counters[n] > 0
    ensures bGreater ==> !Leq(b, a)
    ensures !bGreater ==> LeqOn(b, a, b.counters.Keys - a.counters.Keys)
  {
    bGreater := false;
    var todo := b.counters.Keys;
    while todo != {}
      invariant todo <= b.counters.Keys
      invariant LeqOn(b, a, (b.counters.Keys - a.counters.Keys) - todo)
      decreases todo
    {
      var n :| n in todo;
      if n !in a.counters && b.counters[n] > 0 {
        assert Count(b, n) > Count(a, n);
        return true;
      }
      todo := todo - {n};
    }
    forall n | n in b.counters && n !in a.counters
      ensures b.counters[n] == 0
    {
      assert n in b.counters.Keys - a.counters.Keys;
      assert Count(b, n) <= Count(a, n);
    }
  }

  /** Two passes with early exits; the second is skipped when every entry of `b` was met in the first. */
  method CompareVectorClocks(a: Clock, b: Clock) returns (r: ClockComparison)
    ensures r == Comparison(a, b)
  {
    var aGreater, bGreater, sharedKeyCount := CompareFirstPass(a, b);
    FullIntersection(a.counters.Keys, b.counters.Keys);
    if sharedKeyCount < |b.counters| && !(aGreater && bGreater) {
      var ahead := CompareSecondPass(a, b);
      bGreater := bGreater || ahead;
    }
    if !bGreater { LeqFromEntries(b, a, a.counters.Keys + b.counters.Keys); }
    r := if !aGreater && !bGreater then EQUAL
         else if aGreater && !bGreater then DOMINATES
         else if !aGreater && bGreater then DOMINATED
         else CONCURRENT;
  }

  // ---- merging and building ---------------------------------------------

  function Max(x: Counter, y: Counter): Counter { if x < y then y else x }

  function MergedCounters(a: Clock, b: Clock): map<NodeId, Counter> {
    map n | n in a.counters.Keys + b.counters.Keys :: Max(Count(a, n), Count(b, n))
  }

  /** The merge alone: no timestamp, no writer. */
  function Merged(a: Clock, b: Clock): Clock { Clock(MergedCounters(a, b), 0, "") }

  /** `counters` holds the pointwise maximum on exactly the given names. */
  ghost predicate HoldsMax(counters: map<NodeId, Counter>, a: Clock, b: Clock, names: set<NodeId>) {
    && (forall n :: n in counters <==> n in names)
    && (forall n :: n in counters ==> counters[n] == Max(Count(a, n), Count(b, n)))
  }

  lemma HoldsMaxEverywhere(counters: map<NodeId, Counter>, a: Clock, b: Clock)
    requires HoldsMax(counters, a, b, a.counters.Keys + b.counters.Keys)
    ensures counters == MergedCounters(a, b)
  {
  }

  method MergeFirstPass(a: Clock, b: Clock) returns (counters: map<NodeId, Counter>, sharedKeyCount: nat)
    ensures HoldsMax(counters, a, b, a.counters.Keys)
    ensures sharedKeyCount == |a.counters.Keys * b.counters.Keys|
  {
    counters, sharedKeyCount := map[], 0;
    var todo := a.counters.Keys;
    ghost var shared: set<NodeId> := {};
    while todo != {}
      invariant forall n :: n in todo ==> n in a.counters
      invariant forall n :: n in counters <==> n in a.counters && n !in todo
      invariant forall n :: n in counters ==> counters[n] == Max(Count(a, n), Count(b, n))
      invariant sharedKeyCount == |shared|
      invariant forall n :: n in shared <==> n in counters && n in b.counters
      decreases todo
    {
      var n :| n in todo;
      if n in b.counters {
        counters := counters[n := Max(a.counters[n], b.counters[n])];
        sharedKeyCount := sharedKeyCount + 1;
        shared := shared + {n};
      } else {
        counters := counters[n := a.counters[n]];
      }
      todo := todo - {n};
    }
    assert shared == a.counters.Keys * b.counters.Keys;
  }

  method MergeSecondPass(a: Clock, b: Clock, first: map<NodeId, Counter>) returns (counters: map<NodeId, Counter>)
    requires HoldsMax(first, a, b, a.counters.Keys)
    ensures HoldsMax(counters, a, b, a.counters.Keys + b.counters.Keys)
  {
    counters := first;
    var todo := b.counters.Keys;
    while todo != {}
      invariant todo <= b.counters.Keys
      invariant HoldsMax(counters, a, b, a.counters.Keys + (b.counters.Keys - todo))
      decreases todo
    {
      var n :| n in todo;
      if n !in a.counters {
        counters := counters[n := b.counters[n]];
      }
      todo := todo - {n};
    }
  }

  method MergeClocks(a: Clock, b: Clock) returns (vc: Clock)
    ensures vc == Merged(a, b)
  {
    var counters, sharedKeyCount := MergeFirstPass(a, b);
    FullIntersection(a.counters.Keys, b.counters.Keys);
    if sharedKeyCount < |b.counters| {
      counters := MergeSecondPass(a, b, counters);
    } else {
      assert a.counters.Keys + b.counters.Keys == a.counters.Keys;
    }
    HoldsMaxEverywhere(counters, a, b);
    vc := Clock(counters, 0, "");
  }

  /** Merge is the pointwise maximum, hence the least upper bound of the causal order. */
  lemma MergeIsLeastUpperBound(a: Clock, b: Clock, c: Clock)
    ensures forall n: NodeId :: Count(Merged(a, b), n) == Max(Count(a, n), Count(b, n))
    ensures Leq(a, Merged(a, b)) && Leq(b, Merged(a, b))
    ensures Leq(Merged(a, b), c) <==> Leq(a, c) && Leq(b, c)
    ensures forall n :: n in Merged(a, b).counters <==> n in a.counters || n in b.counters
  {
    var m := Merged(a, b);
    forall n: NodeId ensures Count(m, n) == Max(Count(a, n), Count(b, n)) {}
    if Leq(m, c) {
      forall n: NodeId ensures Count(a, n) <= Count(c, n) && Count(b, n) <= Count(c, n) {
        assert Count(m, n) <= Count(c, n);
      }
    }
  }

  function OrEmpty(c: Option<Clock>): Clock {
    match c case Some(clock) => clock case None => EMPTY_CLOCK
  }

  /** The clock of a new write: merge what the client saw with the local copy, then bump the coordinator's axis.
      The increment is on a 64-bit word and wraps. */
  function NewClock(context: Option<Clock>, local: Option<Clock>, coordinator: NodeId, now: int): Clock {
    var m := Merged(OrEmpty(context), OrEmpty(local));
    Clock(m.counters[coordinator := (Count(m, coordinator) + 1) % COUNTER_LIMIT], now, coordinator)
  }

  method BuildNewClock(context: Option<Clock>, local: Option<Clock>, coordinator: NodeId, now: int)
    returns (vc: Clock)
    ensures vc == NewClock(context, local, coordinator, now)
  {
    var merged := MergeClocks(OrEmpty(context), OrEmpty(local));
    var bumped := (Count(merged, coordinator) + 1) % COUNTER_LIMIT;
    vc := Clock(merged.counters[coordinator := bumped], now, coordinator);
  }

  /** The increment of this build does not wrap. */
  predicate RoomToCount(context: Option<Clock>, local: Option<Clock>, coordinator: NodeId) {
    Max(Count(OrEmpty(context), coordinator), Count(OrEmpty(local), coordinator)) < COUNTER_LIMIT - 1
  }

  /** Every axis of a new clock is the maximum of the inputs, except the coordinator's, which is bumped modulo
      the word size. */
  lemma NewClockCounts(context: Option<Clock>, local: Option<Clock>, coordinator: NodeId, now: int, n: NodeId)
    ensures var top := Max(Count(OrEmpty(context), n), Count(OrEmpty(local), n));
            Count(NewClock(context, local, coordinator, now), n) ==
              if n == coordinator then (top + 1) % COUNTER_LIMIT else top
  {
    MergeIsLeastUpperBound(OrEmpty(context), OrEmpty(local), EMPTY_CLOCK);
    assert Count(Merged(OrEmpty(context), OrEmpty(local)), n) == Max(Count(OrEmpty(context), n),
        Count(OrEmpty(local), n));
  }

  /** A new clock carries the time and the name of its coordinator, whatever stamps went in, and names exactly the nodes
      that went in and the coordinator. */
  lemma NewClockStamp(context: Option<Clock>, local: Option<Clock>, coordinator: NodeId, now: int)
    ensures var vc := NewClock(context, local, coordinator, now);
            && vc.lastUpdated == now && vc.writerId == coordinator
            && forall n :: n in vc.counters <==>
                 n == coordinator || n in OrEmpty(context).counters || n in OrEmpty(local).counters
  {
  }

  /** The new clock strictly dominates both inputs exactly when the coordinator's counter is not
      already at its largest value. */
  lemma NewClockDominates(context: Option<Clock>, local: Option<Clock>, coordinator: NodeId, now: int)
    ensures var vc := NewClock(context, local, coordinator, now);
            Lt(OrEmpty(context), vc) && Lt(OrEmpty(local), vc) <==> RoomToCount(context, local, coordinator)
  {
    var a, b := OrEmpty(context), OrEmpty(local);
    var vc := NewClock(context, local, coordinator, now);
    NewClockCounts(context, local, coordinator, now, coordinator);
    if RoomToCount(context, local, coordinator) {
      forall n: NodeId
        ensures Count(a, n) <= Count(vc, n) && Count(b, n) <= Count(vc, n)
      {
        NewClockCounts(context, local, coordinator, now, n);
      }
      assert Count(vc, coordinator) > Count(a, coordinator) && Count(vc, coordinator) > Count(b, coordinator);
    } else {
      assert Count(vc, coordinator) < Count(a, coordinator) || Count(vc, coordinator) < Count(b, coordinator);
    }
  }
}
