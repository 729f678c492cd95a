/** When a clock identifies its write: in a run with comparable writes of a key, no two of them carry equal clocks if
    and only if every coordinator's own count rises from write to write. It always does when owners coordinate, so
    what a read returns then does not depend on the order of its replies; a stand-in can reuse a clock. */
module Identity {
  import opened Basics
  import opened VectorClocks
  import opened Resolution
  import opened Replica
  import opened ReadPath
  import opened Protocol
  import opened Counters
  import opened Durability
  import opened FirstWrites
  import opened QuorumReads

  // ---- every clock extends an earlier one by one count -----------------------------------

  function BaseCount(puts: seq<Put>, base: Option<nat>, n: NodeId): Counter
    requires base.Some? ==> base.value < |puts|
  {
    if base.Some? then Count(puts[base.value].version.clock, n) else 0
  }

  /** The clock of write `i` is that of write `base`, or the empty one, plus one count by the coordinator. */
  ghost predicate ExtendsFrom(puts: seq<Put>, key: Key, i: nat, base: Option<nat>)
    requires i < |puts|
  {
    && (base.Some? ==> base.value < i && puts[base.value].key == key)
    && forall n: NodeId :: Count(puts[i].version.clock, n) ==
         BaseCount(puts, base, n) + (if n == puts[i].coordinator then 1 else 0)
  }

  ghost predicate Extends(puts: seq<Put>, key: Key, i: nat)
    requires i < |puts|
  {
    exists base :: ExtendsFrom(puts, key, i, base)
  }

  ghost predicate AllExtend(puts: seq<Put>, key: Key) {
    forall i :: 0 <= i < |puts| && puts[i].key == key ==> Extends(puts, key, i)
  }

  /** The write `base` stands for a clock handed out or stored for the key; none stands for an empty one. */
  ghost predicate Stands(puts: seq<Put>, key: Key, base: Option<nat>, c: Clock) {
    match base
    case None => forall n: NodeId :: Count(c, n) == 0
    case Some(q) => q < |puts| && puts[q].key == key && puts[q].version.clock == c
  }

  /** Of two comparable clocks one is the merge. */
  lemma MergeIsOne(puts: seq<Put>, key: Key, a: Option<nat>, b: Option<nat>, x: Clock, y: Clock)
    returns (base: Option<nat>)
    requires ComparableLog(puts, key) && Stands(puts, key, a, x) && Stands(puts, key, b, y)
    ensures base == a || base == b
    ensures forall n: NodeId :: BaseCount(puts, base, n) == Max(Count(x, n), Count(y, n))
  {
    base := if a.None? then b else if b.None? then a else if Leq(x, y) then b else a;
    assert a.Some? && b.Some? ==> Leq(x, y) || Leq(y, x);
  }

  /** What a new clock is built on is, axis by axis, one earlier clock or nothing. */
  lemma BuiltOn(s: State, key: Key, context: Clock, local: Option<Versioned>) returns (base: Option<nat>)
    requires Provenance(s) && HonestContext(s, key, context) && ComparableLog(s.puts, key)
    requires local.Some? ==> Logged(s.puts, key, local.value)
    ensures base.Some? ==> base.value < |s.puts| && s.puts[base.value].key == key
    ensures forall n: NodeId :: BaseCount(s.puts, base, n) == Max(Count(context, n), Count(OrEmpty(ClockOf(local)), n))
  {
    var a: Option<nat>, b: Option<nat> := None, None;
    if context != EMPTY_CLOCK {
      assert ClockLogged(s.puts, key, context);
      var i: nat :| i < |s.puts| && s.puts[i].key == key && s.puts[i].version.clock == context;
      a := Some(i);
    }
    if local.Some? {
      var i: nat :| i < |s.puts| && s.puts[i].key == key && s.puts[i].version == local.value;
      b := Some(i);
    }
    base := MergeIsOne(s.puts, key, a, b, context, OrEmpty(ClockOf(local)));
  }

  lemma NewClockExtends(s: State, key: Key, context: Clock, local: Option<Versioned>, node: NodeId, now: int)
    returns (base: Option<nat>)
    requires Provenance(s) && Bounded(s.puts) && HonestContext(s, key, context) && |s.puts| < COUNTER_LIMIT - 1
    requires ComparableLog(s.puts, key) && (local.Some? ==> Logged(s.puts, key, local.value))
    ensures base.Some? ==> base.value < |s.puts| && s.puts[base.value].key == key
    ensures var c := NewClock(Some(context), ClockOf(local), node, now);
            forall n: NodeId :: Count(c, n) == BaseCount(s.puts, base, n) + (if n == node then 1 else 0)
  {
    base := BuiltOn(s, key, context, local);
    BuildsAtMostAll(s.puts, node);
    NoWrap(s, node, key, context, local, now);
    CountsUpByOne(context, OrEmpty(ClockOf(local)), ClockOf(local), node, now);
  }

  lemma CountsUpByOne(context: Clock, y: Clock, local: Option<Clock>, node: NodeId, now: int)
    requires y == OrEmpty(local)
    requires var c := NewClock(Some(context), local, node, now); Lt(context, c) && Lt(y, c)
    ensures var c := NewClock(Some(context), local, node, now);
            forall n: NodeId :: Count(c, n) == Max(Count(context, n), Count(y, n)) + (if n == node then 1 else 0)
  {
    NewClockDominates(Some(context), local, node, now);
    var c := NewClock(Some(context), local, node, now);
    forall n: NodeId
      ensures Count(c, n) == Max(Count(context, n), Count(y, n)) + (if n == node then 1 else 0)
    {
      NewClockCounts(Some(context), local, node, now, n);
    }
  }

  lemma ExtendsStays(puts: seq<Put>, more: seq<Put>, key: Key, i: nat)
    requires i < |puts| && puts <= more && Extends(puts, key, i)
    ensures Extends(more, key, i)
  {
    var base: Option<nat> :| ExtendsFrom(puts, key, i, base);
    assert more[i] == puts[i];
    assert base.Some? ==> more[base.value] == puts[base.value];
    assert forall n: NodeId :: BaseCount(more, base, n) == BaseCount(puts, base, n);
    assert ExtendsFrom(more, key, i, base);
  }

  lemma StepKeepsExtend(s: State, step: Step, key: Key)
    requires Provenance(s) && Bounded(s.puts) && Enabled(s, step) && Tame(Do(s, step).puts, key)
    requires ComparableLog(s.puts, key) && AllExtend(s.puts, key)
    ensures AllExtend(Do(s, step).puts, key)
  {
    var t := Do(s, step);
    StepGrows(s, step);
    forall i | 0 <= i < |s.puts| && s.puts[i].key == key
      ensures Extends(t.puts, key, i)
    {
      ExtendsStays(s.puts, t.puts, key, i);
    }
    if (step.Commit? || step.CommitAsStandIn?) && step.key == key {
      NewPutExtends(s, step, key);
    }
  }

  lemma NewPutExtends(s: State, step: Step, key: Key)
    requires Provenance(s) && Bounded(s.puts) && Enabled(s, step) && ComparableLog(s.puts, key)
    requires (step.Commit? || step.CommitAsStandIn?) && step.key == key && |s.puts| < COUNTER_LIMIT - 1
    ensures |s.puts| < |Do(s, step).puts| && Extends(Do(s, step).puts, key, |s.puts|)
  {
    var t := Do(s, step);
    var local := if step.Commit? then Lookup(s.store, Cell(step.node, key)) else None;
    var base := NewClockExtends(s, key, step.context, local, step.node, step.now);
    assert base.Some? ==> t.puts[base.value] == s.puts[base.value];
    assert forall n: NodeId :: BaseCount(t.puts, base, n) == BaseCount(s.puts, base, n);
    assert ExtendsFrom(t.puts, key, |s.puts|, base);
  }

  lemma {:induction false} RunExtends(states: seq<State>, steps: seq<Step>, key: Key)
    requires IsRun(states, steps) && Tame(Last(states).puts, key)
    ensures AllExtend(Last(states).puts, key)
    decreases |steps|
  {
    if steps != [] {
      var front, step := states[..|steps|], steps[|steps| - 1];
      RunPrefix(states, steps);
      StepGrows(Last(front), step);
      TameBefore(Last(front).puts, Last(states).puts, key);
      RunExtends(front, steps[..|steps| - 1], key);
      RunIsSound(front, steps[..|steps| - 1], key);
      StepKeepsExtend(Last(front), step, key);
    }
  }

  // ---- equal clocks -------------------------------------------------------------------------

  ghost predicate RisesTo(p: Put, q: Put) {
    p.coordinator == q.coordinator ==> Count(p.version.clock, q.coordinator) < Count(q.version.clock, q.coordinator)
  }

  /** A node's own counts for `key` go strictly up from write to write. */
  ghost predicate OwnCountsRise(puts: seq<Put>, key: Key) {
    forall i, j :: 0 <= i < j < |puts| && puts[i].key == puts[j].key == key ==> RisesTo(puts[i], puts[j])
  }

  /** No two writes of the key carry equal clocks. */
  ghost predicate ClocksDistinct(puts: seq<Put>, key: Key) {
    forall i, j :: 0 <= i < j < |puts| && puts[i].key == puts[j].key == key ==>
      !Equiv(puts[i].version.clock, puts[j].version.clock)
  }

  /** Every count up to the one in a clock was made by a write at that very node, no later than the clock. */
  lemma {:induction false} Counted(puts: seq<Put>, key: Key, i: nat, n: NodeId, count: nat) returns (k: nat)
    requires AllExtend(puts, key) && i < |puts| && puts[i].key == key
    requires 1 <= count <= Count(puts[i].version.clock, n)
    ensures k <= i && puts[k].key == key && puts[k].coordinator == n && Count(puts[k].version.clock, n) == count
    decreases i
  {
    if n == puts[i].coordinator && count == Count(puts[i].version.clock, n) {
      k := i;
    } else {
      var base: Option<nat> :| ExtendsFrom(puts, key, i, base);
      assert count <= BaseCount(puts, base, n);
      k := Counted(puts, key, base.value, n, count);
    }
  }

  /** Writes of one coordinator with the same own count carry the same clock. */
  lemma SameCountBelow(puts: seq<Put>, key: Key, k: nat, j: nat)
    requires AllExtend(puts, key) && ComparableLog(puts, key)
    requires k < |puts| && j < |puts| && puts[k].key == puts[j].key == key && puts[k].coordinator == puts[j].coordinator
    requires Count(puts[k].version.clock, puts[j].coordinator) == Count(puts[j].version.clock, puts[j].coordinator)
    ensures Leq(puts[j].version.clock, puts[k].version.clock)
  {
    var n := puts[j].coordinator;
    var base: Option<nat> :| ExtendsFrom(puts, key, j, base);
    if base.Some? {
      var b := puts[base.value].version.clock;
      assert Count(b, n) == BaseCount(puts, base, n) < Count(puts[k].version.clock, n);
      assert Comparable(b, puts[k].version.clock);
      assert Leq(b, puts[k].version.clock);
    }
    forall m: NodeId
      ensures Count(puts[j].version.clock, m) <= Count(puts[k].version.clock, m)
    {
      if m != n { assert Count(puts[j].version.clock, m) == BaseCount(puts, base, m); }
    }
  }

  /** Exactly when a clock identifies its write. */
  lemma ClockIdentifiesWrite(states: seq<State>, steps: seq<Step>, key: Key)
    requires IsRun(states, steps) && Tame(Last(states).puts, key)
    ensures ClocksDistinct(Last(states).puts, key) <==> OwnCountsRise(Last(states).puts, key)
  {
    var puts := Last(states).puts;
    RunExtends(states, steps, key);
    forall i, j | 0 <= i < j < |puts| && puts[i].key == puts[j].key == key
      ensures ClocksDistinct(puts, key) ==> RisesTo(puts[i], puts[j])
      ensures OwnCountsRise(puts, key) ==> !Equiv(puts[i].version.clock, puts[j].version.clock)
    {
      var n := puts[j].coordinator;
      OwnCountPositive(puts, key, j);
      if Count(puts[i].version.clock, n) >= Count(puts[j].version.clock, n) {
        var k := Counted(puts, key, i, n, Count(puts[j].version.clock, n));
        SameCountBelow(puts, key, k, j);
        SameCountBelow(puts, key, j, k);
        assert !RisesTo(puts[k], puts[j]);
      }
    }
  }

  lemma OwnCountPositive(puts: seq<Put>, key: Key, j: nat)
    requires AllExtend(puts, key) && j < |puts| && puts[j].key == key
    ensures Count(puts[j].version.clock, puts[j].coordinator) >= 1
  {
    var base: Option<nat> :| ExtendsFrom(puts, key, j, base);
  }

  // ---- owners always count up -----------------------------------------------------------------

  ghost predicate OwnersCoordinate(puts: seq<Put>, key: Key) {
    forall i :: 0 <= i < |puts| && puts[i].key == key ==> puts[i].standIn == None
  }

  /** An owner acknowledges its own commit at once. */
  ghost predicate CommitsAcknowledged(s: State) {
    forall i :: 0 <= i < |s.puts| && s.puts[i].standIn == None ==> Stored(i, s.puts[i].coordinator) in s.net
  }

  /** The coordinator's own count is above all its earlier ones for the key: its store still covers them. */
  lemma NewCountIsFresh(s: State, step: Step, key: Key, i: nat)
    requires Sound(s, key) && CommitsAcknowledged(s) && Enabled(s, step) && step.Commit? && step.key == key
    requires |s.puts| < COUNTER_LIMIT - 1
    requires i < |s.puts| && s.puts[i].key == key && s.puts[i].coordinator == step.node && s.puts[i].standIn == None
    ensures Count(s.puts[i].version.clock, step.node) < Count(Do(s, step).puts[|s.puts|].version.clock, step.node)
  {
    var local := Lookup(s.store, Cell(step.node, key));
    assert MessageKept(s, key, Stored(i, step.node));
    assert Count(s.puts[i].version.clock, step.node) <= Count(local.value.clock, step.node);
    BuildsAtMostAll(s.puts, step.node);
    NoWrap(s, step.node, key, step.context, local, step.now);
    OwnCountRises(step.context, local.value.clock, step.node, step.now);
  }

  lemma OwnCountRises(context: Clock, local: Clock, node: NodeId, now: int)
    requires Lt(local, NewClock(Some(context), Some(local), node, now))
        && Lt(context, NewClock(Some(context), Some(local), node, now))
    ensures Count(local, node) < Count(NewClock(Some(context), Some(local), node, now), node)
  {
    NewClockDominates(Some(context), Some(local), node, now);
    NewClockCounts(Some(context), Some(local), node, now, node);
  }

  lemma RiseAppends(puts: seq<Put>, p: Put, key: Key)
    requires OwnCountsRise(puts, key)
    requires forall i :: 0 <= i < |puts| && puts[i].key == key ==> RisesTo(puts[i], p)
    ensures OwnCountsRise(puts + [p], key)
  {
  }

  lemma OwnersCoordinateBefore(puts: seq<Put>, more: seq<Put>, key: Key)
    requires puts <= more && OwnersCoordinate(more, key)
    ensures OwnersCoordinate(puts, key)
  {
    assert forall i :: 0 <= i < |puts| ==> more[i] == puts[i];
  }

  lemma CommitKeepsRise(s: State, step: Step, key: Key)
    requires Sound(s, key) && Enabled(s, step) && step.Commit? && step.key == key && |s.puts| < COUNTER_LIMIT - 1
    requires OwnCountsRise(s.puts, key) && CommitsAcknowledged(s) && OwnersCoordinate(s.puts, key)
    ensures OwnCountsRise(Do(s, step).puts, key)
  {
    var t := Do(s, step);
    var p := t.puts[|s.puts|];
    forall i | 0 <= i < |s.puts| && s.puts[i].key == key
      ensures RisesTo(s.puts[i], p)
    {
      if s.puts[i].coordinator == step.node { NewCountIsFresh(s, step, key, i); }
    }
    assert t.puts == s.puts + [p];
    RiseAppends(s.puts, p, key);
  }

  lemma StepKeepsRise(s: State, step: Step, key: Key)
    requires Sound(s, key) && Enabled(s, step) && |Do(s, step).puts| < COUNTER_LIMIT
    requires OwnCountsRise(s.puts, key) && CommitsAcknowledged(s) && OwnersCoordinate(Do(s, step).puts, key)
    ensures OwnCountsRise(Do(s, step).puts, key)
  {
    var t := Do(s, step);
    StepGrows(s, step);
    OwnersCoordinateBefore(s.puts, t.puts, key);
    if step.Commit? && step.key == key {
      CommitKeepsRise(s, step, key);
    } else if step.Commit? || step.CommitAsStandIn? {
      assert t.puts[|s.puts|].key != key;
    }
  }

  lemma StepKeepsAcknowledged(s: State, step: Step)
    requires Enabled(s, step) && CommitsAcknowledged(s)
    ensures CommitsAcknowledged(Do(s, step))
  {
  }

  /** Without stand-in coordination of the key, own counts always rise. */
  lemma {:induction false} OwnersCountUp(states: seq<State>, steps: seq<Step>, key: Key)
    requires IsRun(states, steps) && Tame(Last(states).puts, key) && OwnersCoordinate(Last(states).puts, key)
    ensures OwnCountsRise(Last(states).puts, key) && CommitsAcknowledged(Last(states))
    decreases |steps|
  {
    if steps != [] {
      var front, step := states[..|steps|], steps[|steps| - 1];
      RunPrefix(states, steps);
      StepGrows(Last(front), step);
      TameBefore(Last(front).puts, Last(states).puts, key);
      OwnersCoordinateBefore(Last(front).puts, Last(states).puts, key);
      OwnersCountUp(front, steps[..|steps| - 1], key);
      RunIsSound(front, steps[..|steps| - 1], key);
      StepKeepsRise(Last(front), step, key);
      StepKeepsAcknowledged(Last(front), step);
    }
  }

  /** A stand-in builds its clock without a local copy, so it can give two different values the same clock. */
  lemma StandInReusesClock() returns (states: seq<State>, steps: seq<Step>)
    ensures IsRun(states, steps)
    ensures var puts := Last(states).puts;
            && |puts| == 2 && puts[0].key == puts[1].key && puts[0].version.value != puts[1].version.value
            && Equiv(puts[0].version.clock, puts[1].version.clock) && Tame(puts, puts[0].key)
  {
    var step0 := Step.CommitAsStandIn("x", "t", "k", "1", EMPTY_CLOCK, 1);
    var step1 := Step.CommitAsStandIn("x", "t", "k", "2", EMPTY_CLOCK, 2);
    var s1 := Do(Initial, step0);
    var s2 := Do(s1, step1);
    states, steps := [Initial, s1, s2], [step0, step1];
    var first, second := NewClock(Some(EMPTY_CLOCK), None, "x", 1), NewClock(Some(EMPTY_CLOCK), None, "x", 2);
    assert s2.puts[0].version.clock == first && s2.puts[1].version.clock == second;
    assert first.counters == second.counters;
    assert forall n: NodeId :: Count(first, n) == Count(second, n);
  }

  // ---- reads ----------------------------------------------------------------------------------

  /** Among the versions a run has written for the key, a clock determines its version. */
  lemma VersionsIdentified(states: seq<State>, steps: seq<Step>, key: Key, rs: seq<Versioned>)
    requires IsRun(states, steps) && Tame(Last(states).puts, key) && OwnCountsRise(Last(states).puts, key)
    requires forall v :: v in rs ==> Logged(Last(states).puts, key, v)
    ensures ClockDeterminesVersion(rs) && ConcurrentStampsDiffer(rs)
  {
    var puts := Last(states).puts;
    ClockIdentifiesWrite(states, steps, key);
    forall u, v | u in rs && v in rs
      ensures Equiv(u.clock, v.clock) ==> u == v
      ensures !Concurrent(u.clock, v.clock)
    {
      LoggedComparable(puts, key, u, v);
      var i: nat :| i < |puts| && puts[i].key == key && puts[i].version == u;
      var j: nat :| j < |puts| && puts[j].key == key && puts[j].version == v;
    }
  }

  /** What a read returns depends only on which replicas it counts, not on the order in which they answered. */
  lemma ReadIgnoresArrivalOrder(states: seq<State>, steps: seq<Step>, j: nat, some: seq<NodeId>, others: seq<NodeId>)
    requires IsRun(states, steps) && j < |Last(states).gets|
    requires var s, key := Last(states), Last(states).gets[j].key; Tame(s.puts, key) && OwnCountsRise(s.puts, key)
    requires Members(some) == Members(others) && forall n :: n in some ==> n in Last(states).gets[j].replies
    ensures forall n :: n in others ==> n in Last(states).gets[j].replies
    ensures WinnerOf(Last(states).gets[j], some) == WinnerOf(Last(states).gets[j], others)
  {
    var s, r := Last(states), Last(states).gets[j];
    assert forall n :: n in others ==> n in Members(others);
    assert forall n :: n in Members(some) ==> n in some;
    RunProvenance(states, steps);
    assert ReadLogged(s.puts, r);
    var a, b := Found(Answers(r, some)), Found(Answers(r, others));
    forall v
      ensures v in a <==> v in b
    {
      FoundThrough(r, some, v);
      FoundThrough(r, others, v);
      assert forall n :: n in some <==> n in Members(some);
      assert forall n :: n in others <==> n in Members(others);
    }
    assert a == [] <==> b == [] by {
      if a != [] { assert a[0] in b; }
      if b != [] { assert b[0] in a; }
    }
    if a != [] {
      forall v | v in a
        ensures Logged(s.puts, r.key, v)
      {
        FoundIsLogged(s.puts, r, some, v);
      }
      VersionsIdentified(states, steps, r.key, a);
      ResolutionIgnoresOrder(a, b);
    }
  }

  lemma FoundThrough(r: Read, responders: seq<NodeId>, v: Versioned)
    requires forall n :: n in responders ==> n in r.replies
    ensures v in Found(Answers(r, responders)) <==> exists n :: n in responders && r.replies[n] == Some(v)
  {
    var answers := Answers(r, responders);
    FoundMembers(answers);
    if v in Found(answers) {
      var j :| 0 <= j < |answers| && answers[j].version == Some(v);
      assert responders[j] in responders;
    }
    if n :| n in responders && r.replies[n] == Some(v) {
      var j :| 0 <= j < |responders| && responders[j] == n;
      assert answers[j].version == Some(v);
    }
  }
}
