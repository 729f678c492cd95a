/** First writes over whole runs: every write of a key either starts a history, with a single count, or strictly follows
    an earlier clock of that key; so nothing older than a minimal clock can ever be written. */
module FirstWrites {
  import opened Basics
  import opened VectorClocks
  import opened Replica
  import opened Protocol
  import opened Counters
  import opened Durability

  /** A clock with a single count, by `n`. */
  ghost predicate OneCount(c: Clock, n: NodeId) {
    Count(c, n) == 1 && forall m: NodeId :: m != n ==> Count(c, m) == 0
  }

  ghost predicate Preceded(puts: seq<Put>, key: Key, c: Clock) {
    exists k :: 0 <= k < |puts| && puts[k].key == key && Lt(puts[k].version.clock, c)
  }

  ghost predicate RootedPut(puts: seq<Put>, p: Put) {
    && Count(p.version.clock, p.coordinator) >= 1
    && (OneCount(p.version.clock, p.coordinator) || Preceded(puts, p.key, p.version.clock))
  }

  /** Every write either is a first one, with a single count, or strictly follows another write of its key. */
  ghost predicate Rooted(puts: seq<Put>) {
    forall i :: 0 <= i < |puts| ==> RootedPut(puts, puts[i])
  }

  lemma RootedStays(puts: seq<Put>, more: seq<Put>, p: Put)
    requires RootedPut(puts, p) && puts <= more
    ensures RootedPut(more, p)
  {
    if k :| 0 <= k < |puts| && puts[k].key == p.key && Lt(puts[k].version.clock, p.version.clock) {
      assert more[k] == puts[k];
    }
  }

  lemma NewClockIsRooted(s: State, key: Key, context: Clock, local: Option<Versioned>, node: NodeId, now: int)
    requires Provenance(s) && Bounded(s.puts) && HonestContext(s, key, context) && |s.puts| < COUNTER_LIMIT - 1
    requires local.Some? ==> Logged(s.puts, key, local.value)
    ensures var c := NewClock(Some(context), ClockOf(local), node, now);
            Count(c, node) >= 1 && (OneCount(c, node) || Preceded(s.puts, key, c))
  {
    var c := NewClock(Some(context), ClockOf(local), node, now);
    BuildsAtMostAll(s.puts, node);
    NoWrap(s, node, key, context, local, now);
    NewClockCounts(Some(context), ClockOf(local), node, now, node);
    ContextWithinBuilds(s, key, context);
    assert Count(context, node) <= Builds(s.puts, node);
    if local.Some? {
      LoggedWithinBuilds(s.puts, key, local.value);
      assert Count(local.value.clock, node) <= Builds(s.puts, node);
    } else if context != EMPTY_CLOCK {
      assert ClockLogged(s.puts, key, context);
    } else {
      forall m: NodeId | m != node ensures Count(c, m) == 0 {
        NewClockCounts(Some(context), ClockOf(local), node, now, m);
      }
    }
  }

  lemma StepKeepsRooted(s: State, step: Step)
    requires Provenance(s) && Bounded(s.puts) && Enabled(s, step) && |Do(s, step).puts| < COUNTER_LIMIT
    requires Rooted(s.puts)
    ensures Rooted(Do(s, step).puts)
  {
    var t := Do(s, step);
    if step.Commit? || step.CommitAsStandIn? {
      var p := t.puts[|s.puts|];
      var local := if step.Commit? then Lookup(s.store, Cell(step.node, step.key)) else None;
      NewClockIsRooted(s, step.key, step.context, local, step.node, step.now);
      RootedStays(s.puts, t.puts, p);
      forall i | 0 <= i < |s.puts|
        ensures RootedPut(t.puts, t.puts[i])
      {
        RootedStays(s.puts, t.puts, s.puts[i]);
      }
    }
  }

  lemma {:induction false} PathKeepsRooted(states: seq<State>, steps: seq<Step>)
    requires IsPath(states, steps) && |Last(states).puts| < COUNTER_LIMIT
    requires Provenance(states[0]) && Bounded(states[0].puts) && Rooted(states[0].puts)
    ensures Provenance(Last(states)) && Bounded(Last(states).puts) && Rooted(Last(states).puts)
    decreases |steps|
  {
    if steps != [] {
      var front, step := states[..|steps|], steps[|steps| - 1];
      PathPrefix(states, steps);
      StepGrows(Last(front), step);
      PathKeepsRooted(front, steps[..|steps| - 1]);
      StepKeepsProvenance(Last(front), step);
      StepKeepsBounded(Last(front), step);
      StepKeepsRooted(Last(front), step);
    }
  }

  /** Some write of `key` so far is not at or above `c`. */
  ghost predicate HasOlder(puts: seq<Put>, key: Key, c: Clock) {
    exists i :: 0 <= i < |puts| && puts[i].key == key && !Leq(c, puts[i].version.clock)
  }

  /** When nothing older than a handed-out clock has been written, nothing older can be written later. */
  lemma NothingOlderLater(puts: seq<Put>, more: seq<Put>, key: Key, c: Clock)
    requires puts <= more && Rooted(puts) && Rooted(more) && ComparableLog(more, key)
    requires ClockLogged(puts, key, c) && !HasOlder(puts, key, c)
    ensures !HasOlder(more, key, c)
  {
    var i: nat :| i < |puts| && puts[i].key == key && puts[i].version.clock == c;
    var a := puts[i].coordinator;
    assert RootedPut(puts, puts[i]);
    assert OneCount(c, a);
    forall k | 0 <= k < |more| && more[k].key == key
      ensures Leq(c, more[k].version.clock)
    {
      var w := more[k].version.clock;
      assert RootedPut(more, more[k]) && more[i] == puts[i];
      if Leq(w, c) {
        assert Count(w, more[k].coordinator) <= Count(c, more[k].coordinator);
        assert more[k].coordinator == a;
      }
    }
  }

  lemma RunIsRooted(states: seq<State>, steps: seq<Step>)
    requires IsRun(states, steps) && |Last(states).puts| < COUNTER_LIMIT
    ensures Provenance(Last(states)) && Bounded(Last(states).puts) && Rooted(Last(states).puts)
  {
    PathKeepsRooted(states, steps);
  }
}
