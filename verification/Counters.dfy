/** Counters over whole runs: no clock anywhere claims more writes by a node than that node has coordinated, so the
    64-bit increment cannot wrap before that many writes. */
module Counters {
  import opened Basics
  import opened VectorClocks
  import opened Replica
  import opened Protocol

  /** How many clocks node `n` has built. */
  function Builds(puts: seq<Put>, n: NodeId): nat {
    if puts == [] then 0
    else Builds(puts[..|puts| - 1], n) + (if puts[|puts| - 1].coordinator == n then 1 else 0)
  }

  lemma BuildsAppend(puts: seq<Put>, p: Put, n: NodeId)
    ensures Builds(puts + [p], n) == Builds(puts, n) + (if p.coordinator == n then 1 else 0)
  {
    assert (puts + [p])[..|puts|] == puts;
  }

  lemma {:induction false} BuildsAtMostAll(puts: seq<Put>, n: NodeId)
    ensures Builds(puts, n) <= |puts|
  {
    if puts != [] { BuildsAtMostAll(puts[..|puts| - 1], n); }
  }

  ghost predicate WithinBuilds(puts: seq<Put>, c: Clock) {
    forall n: NodeId :: Count(c, n) <= Builds(puts, n)
  }

  ghost predicate Bounded(puts: seq<Put>) {
    forall i :: 0 <= i < |puts| ==> WithinBuilds(puts, puts[i].version.clock)
  }

  lemma WithinBuildsGrows(puts: seq<Put>, p: Put, c: Clock)
    requires WithinBuilds(puts, c)
    ensures WithinBuilds(puts + [p], c)
  {
    forall n: NodeId
      ensures Count(c, n) <= Builds(puts + [p], n)
    {
      BuildsAppend(puts, p, n);
    }
  }

  lemma LoggedWithinBuilds(puts: seq<Put>, key: Key, v: Versioned)
    requires Bounded(puts) && Logged(puts, key, v)
    ensures WithinBuilds(puts, v.clock)
  {
  }

  lemma ContextWithinBuilds(s: State, key: Key, context: Clock)
    requires Provenance(s) && Bounded(s.puts) && HonestContext(s, key, context)
    ensures WithinBuilds(s.puts, context)
  {
    if context == EMPTY_CLOCK {
      assert forall n: NodeId :: Count(EMPTY_CLOCK, n) == 0;
    } else {
      assert ClockLogged(s.puts, key, context);
    }
  }

  /** A clock built from clocks within the bound is within it once the build itself is counted, wrap or no wrap. */
  lemma NewClockWithinBuilds(puts: seq<Put>, p: Put, context: Clock, local: Option<Clock>, now: int)
    requires WithinBuilds(puts, context) && (local.Some? ==> WithinBuilds(puts, local.value))
    requires p.version.clock == NewClock(Some(context), local, p.coordinator, now)
    ensures WithinBuilds(puts + [p], p.version.clock)
  {
    forall n: NodeId
      ensures Count(p.version.clock, n) <= Builds(puts + [p], n)
    {
      BuildsAppend(puts, p, n);
      NewClockCounts(Some(context), local, p.coordinator, now, n);
      assert Count(context, n) <= Builds(puts, n);
      assert Count(OrEmpty(local), n) <= Builds(puts, n);
    }
  }

  lemma StepKeepsBounded(s: State, step: Step)
    requires Provenance(s) && Bounded(s.puts) && Enabled(s, step)
    ensures Bounded(Do(s, step).puts)
  {
    var t := Do(s, step);
    if step.Commit? || step.CommitAsStandIn? {
      var p := t.puts[|s.puts|];
      var local := if step.Commit? then ClockOf(Lookup(s.store, Cell(step.node, step.key))) else None;
      ContextWithinBuilds(s, step.key, step.context);
      if step.Commit? && Cell(step.node, step.key) in s.store {
        LoggedWithinBuilds(s.puts, step.key, s.store[Cell(step.node, step.key)]);
      }
      NewClockWithinBuilds(s.puts, p, step.context, local, step.now);
      assert t.puts == s.puts + [p];
      forall i | 0 <= i < |s.puts|
        ensures WithinBuilds(t.puts, t.puts[i].version.clock)
      {
        WithinBuildsGrows(s.puts, p, s.puts[i].version.clock);
      }
    }
  }

  lemma {:induction false} RunBounded(states: seq<State>, steps: seq<Step>)
    requires IsRun(states, steps)
    ensures Bounded(Last(states).puts)
    decreases |steps|
  {
    if steps != [] {
      RunPrefix(states, steps);
      RunBounded(states[..|steps|], steps[..|steps| - 1]);
      RunProvenance(states[..|steps|], steps[..|steps| - 1]);
      StepKeepsBounded(Last(states[..|steps|]), steps[|steps| - 1]);
    }
  }

  ghost predicate ReadWithinBuilds(puts: seq<Put>, r: Read) {
    && (forall n :: n in r.replies && r.replies[n].Some? ==> WithinBuilds(puts, r.replies[n].value.clock))
    && (r.result.Some? && r.result.value.winner.Some? ==> WithinBuilds(puts, r.result.value.winner.value.clock))
  }

  /** In every reachable state, every clock coordinated, stored, held, in flight, reported delivered, read, returned or
      handed to a client is within the bound. */
  lemma CounterBound(states: seq<State>, steps: seq<Step>)
    requires IsRun(states, steps)
    ensures var s := Last(states);
            && Bounded(s.puts)
            && (forall c :: c in s.store ==> WithinBuilds(s.puts, s.store[c].clock))
            && (forall sl :: sl in s.held ==> WithinBuilds(s.puts, s.held[sl].clock))
            && (forall m :: m in s.net && (m.Write? || m.Delivered?) ==> WithinBuilds(s.puts, m.version.clock))
            && (forall c :: c in s.contexts ==> WithinBuilds(s.puts, c.1))
            && (forall j :: 0 <= j < |s.gets| ==> ReadWithinBuilds(s.puts, s.gets[j]))
  {
    var s := Last(states);
    RunProvenance(states, steps);
    RunBounded(states, steps);
    forall m | m in s.net && (m.Write? || m.Delivered?)
      ensures WithinBuilds(s.puts, m.version.clock)
    {
      assert MessageLogged(s.puts, m);
    }
    forall j | 0 <= j < |s.gets|
      ensures ReadWithinBuilds(s.puts, s.gets[j])
    {
      assert ReadLogged(s.puts, s.gets[j]);
    }
  }

  /** Until a node has coordinated 2^64 - 1 writes, whatever it commits strictly dominates the client's context and its
      own copy. */
  lemma NoWrap(s: State, node: NodeId, key: Key, context: Clock, local: Option<Versioned>, now: int)
    requires Provenance(s) && Bounded(s.puts) && HonestContext(s, key, context)
    requires local.Some? ==> Logged(s.puts, key, local.value)
    requires Builds(s.puts, node) < COUNTER_LIMIT - 1
    ensures var v := NewClock(Some(context), ClockOf(local), node, now);
            Lt(context, v) && Lt(OrEmpty(ClockOf(local)), v)
  {
    ContextWithinBuilds(s, key, context);
    if local.Some? { LoggedWithinBuilds(s.puts, key, local.value); }
    NewClockDominates(Some(context), ClockOf(local), node, now);
  }
}
