/** Where values come from: over whole runs every version, and so every value a read returns, is exactly what one
    coordinated write of that key wrote, with that write's time and coordinator as its stamp. */
module Origins {
  import opened Basics
  import opened VectorClocks
  import opened Replica
  import opened Protocol

  /** Step `p` wrote the version `v` of `key`. */
  ghost predicate WroteAt(steps: seq<Step>, p: nat, key: Key, v: Versioned)
    requires p < |steps|
  {
    match steps[p]
    case Commit(node, k, value, _, now) =>
      k == key && v.value == value && v.clock.writerId == node && v.clock.lastUpdated == now
    case CommitAsStandIn(node, _, k, value, _, now) =>
      k == key && v.value == value && v.clock.writerId == node && v.clock.lastUpdated == now
    case _ => false
  }

  ghost predicate WasWritten(steps: seq<Step>, key: Key, v: Versioned) {
    exists p: nat :: p < |steps| && WroteAt(steps, p, key, v)
  }

  lemma WasWrittenLater(steps: seq<Step>, step: Step, key: Key, v: Versioned)
    requires WasWritten(steps, key, v)
    ensures WasWritten(steps + [step], key, v)
  {
    var p: nat :| p < |steps| && WroteAt(steps, p, key, v);
    assert (steps + [step])[p] == steps[p];
    assert WroteAt(steps + [step], p, key, v);
  }

  lemma NewPutWasWritten(s: State, steps: seq<Step>, step: Step)
    requires Enabled(s, step) && (step.Commit? || step.CommitAsStandIn?)
    ensures var t := Do(s, step);
            && |t.puts| == |s.puts| + 1 && t.puts[|s.puts|].key == step.key && t.puts[|s.puts|].coordinator == step.node
            && WasWritten(steps + [step], step.key, t.puts[|s.puts|].version)
  {
    var p := Do(s, step).puts[|s.puts|];
    var local := if step.Commit? then ClockOf(Lookup(s.store, Cell(step.node, step.key))) else None;
    NewClockStamp(Some(step.context), local, step.node, step.now);
    assert (steps + [step])[|steps|] == step;
    assert WroteAt(steps + [step], |steps|, step.key, p.version);
  }

  lemma {:induction false} PutsWereWritten(states: seq<State>, steps: seq<Step>)
    requires IsRun(states, steps)
    ensures forall i :: 0 <= i < |Last(states).puts| ==>
              WasWritten(steps, Last(states).puts[i].key, Last(states).puts[i].version)
    decreases |steps|
  {
    if steps != [] {
      var front, did, step := states[..|steps|], steps[..|steps| - 1], steps[|steps| - 1];
      var s := Last(front);
      RunPrefix(states, steps);
      PutsWereWritten(front, did);
      StepGrows(s, step);
      assert steps == did + [step];
      forall i | 0 <= i < |Last(states).puts|
        ensures WasWritten(steps, Last(states).puts[i].key, Last(states).puts[i].version)
      {
        if i < |s.puts| {
          WasWrittenLater(did, step, s.puts[i].key, s.puts[i].version);
        } else {
          NewPutWasWritten(s, did, step);
        }
      }
    }
  }

  /** What a store, a hint or a read holds was written by a coordinated write of its key. */
  lemma VersionsWereWritten(states: seq<State>, steps: seq<Step>)
    requires IsRun(states, steps)
    ensures forall c :: c in Last(states).store ==> WasWritten(steps, c.key, Last(states).store[c])
    ensures forall sl :: sl in Last(states).held ==> WasWritten(steps, sl.key, Last(states).held[sl])
    ensures forall j :: 0 <= j < |Last(states).gets| ==>
              var r := Last(states).gets[j];
              r.result.Some? && r.result.value.winner.Some? ==> WasWritten(steps, r.key, r.result.value.winner.value)
  {
    var s := Last(states);
    RunProvenance(states, steps);
    PutsWereWritten(states, steps);
    forall j | 0 <= j < |s.gets| && s.gets[j].result.Some? && s.gets[j].result.value.winner.Some?
      ensures WasWritten(steps, s.gets[j].key, s.gets[j].result.value.winner.value)
    {
      assert ReadLogged(s.puts, s.gets[j]);
    }
  }
}
