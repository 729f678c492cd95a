/** One replica's data: the stored version of each key, the hints held for other nodes, and the two rules that
    decide whether an incoming version replaces the present one (node_kv.cpp, node_reachability.cpp). */
module Replica {
  import opened Basics
  import opened VectorClocks

  datatype WriteOutcome = STORED | ALREADY_CURRENT

  function ClockOf(v: Option<Versioned>): Option<Clock> {
    match v case None => None case Some(version) => Some(version.clock)
  }

  // ---- the two acceptance rules -----------------------------------------

  /** Replica side: a present version survives only if it equals or dominates the incoming one. */
  ghost function AcceptUnlessCovered(present: Option<Versioned>, incoming: Versioned): Versioned {
    match present
    case None => incoming
    case Some(v) =>
      match Comparison(v.clock, incoming.clock)
      case EQUAL => v
      case DOMINATES => v
      case DOMINATED => incoming
      case CONCURRENT => incoming
  }

  ghost function StoreOutcome(present: Option<Versioned>, incoming: Versioned): WriteOutcome {
    if present.Some? && Leq(incoming.clock, present.value.clock) then ALREADY_CURRENT else STORED
  }

  /** Coordinator side, for a hint it holds itself: only a dominating version replaces the present one. */
  ghost function AcceptIfDominating(present: Option<Versioned>, incoming: Versioned): Versioned {
    match present
    case None => incoming
    case Some(v) => if Comparison(v.clock, incoming.clock) == DOMINATED then incoming else v
  }

  /** The version a coordinated write installs. */
  function CommitVersion(present: Option<Versioned>, value: string, context: Option<Clock>, self: NodeId,
                         now: int): Versioned {
    Versioned(value, NewClock(context, ClockOf(present), self, now))
  }

  /** `v` is at or below what is present. */
  ghost predicate Covered(v: Versioned, present: Option<Versioned>) {
    present.Some? && Leq(v.clock, present.value.clock)
  }

  /** The replica rule always covers the incoming version; it still covers the previous one exactly when the two
      were comparable. A concurrent write can therefore lose what was stored. */
  lemma ReplicaRule(present: Versioned, incoming: Versioned)
    ensures var after := AcceptUnlessCovered(Some(present), incoming);
            && Covered(incoming, Some(after))
            && (Covered(present, Some(after)) <==> !Concurrent(present.clock, incoming.clock))
            && (StoreOutcome(Some(present), incoming) == STORED <==> !Leq(incoming.clock, present.clock))
            && (StoreOutcome(Some(present), incoming) == STORED ==> after == incoming)
            && (StoreOutcome(Some(present), incoming) == ALREADY_CURRENT ==> after == present)
  {
    LeqReflexive(present.clock);
    LeqReflexive(incoming.clock);
  }

  /** The coordinator rule always covers the previous version, and covers the incoming one exactly when the two
      were comparable: an acknowledged concurrent hint is dropped. */
  lemma CoordinatorRule(present: Versioned, incoming: Versioned)
    ensures var after := AcceptIfDominating(Some(present), incoming);
            && Covered(present, Some(after))
            && (Covered(incoming, Some(after)) <==> !Concurrent(present.clock, incoming.clock))
            && after == (if Lt(present.clock, incoming.clock) then incoming else present)
    ensures AcceptIfDominating(None, incoming) == AcceptUnlessCovered(None, incoming) == incoming
    ensures StoreOutcome(None, incoming) == STORED
    ensures AcceptIfDominating(Some(present), incoming) == AcceptUnlessCovered(Some(present), incoming)
            <==> Comparable(present.clock, incoming.clock)
  {
    LeqReflexive(present.clock);
    LeqReflexive(incoming.clock);
  }

  // ---- whole sequences of writes at one replica --------------------------

  /** What is stored after the replicated writes `ws`, in order. */
  ghost function StoreAll(present: Option<Versioned>, ws: seq<Versioned>): Option<Versioned> {
    if ws == [] then present
    else Some(AcceptUnlessCovered(StoreAll(present, ws[..|ws| - 1]), ws[|ws| - 1]))
  }

  ghost predicate AllBelow(present: Option<Versioned>, ws: seq<Versioned>, top: Clock) {
    && (present.Some? ==> Leq(present.value.clock, top))
    && forall i :: 0 <= i < |ws| ==> Leq(ws[i].clock, top)
  }

  /** In any order, with duplicates and concurrent siblings, the replica never rises above `top`, and it stands at
      `top` from the moment a write at `top` arrives. */
  lemma {:induction false} GreatestWriteAbsorbed(present: Option<Versioned>, ws: seq<Versioned>, top: Clock)
    requires AllBelow(present, ws, top)
    ensures var after := StoreAll(present, ws);
            && (after.Some? ==> Leq(after.value.clock, top))
            && ((exists i :: 0 <= i < |ws| && Leq(top, ws[i].clock)) ==> after.Some? && Equiv(after.value.clock, top))
  {
    if ws != [] {
      var front, last := ws[..|ws| - 1], ws[|ws| - 1];
      GreatestWriteAbsorbed(present, front, top);
      var before := StoreAll(present, front);
      if before.Some? {
        ReplicaRule(before.value, last);
        if Leq(top, last.clock) {
          LeqTransitive(before.value.clock, top, last.clock);
          LeqTransitive(top, last.clock, AcceptUnlessCovered(before, last).clock);
        }
      }
      if i :| 0 <= i < |ws| && Leq(top, ws[i].clock) && i < |front| {
        assert front[i] == ws[i];
        LeqTransitive(last.clock, top, before.value.clock);
      }
    }
  }

  function Only(n: NodeId, c: Counter): Versioned { Versioned("", Clock(map[n := c], 0, n)) }

  /** Without a greatest write the stored clock can go strictly down: two concurrent siblings are enough. */
  lemma StoreCanRegress()
    ensures var first := Only("a", 2);
            var after := StoreAll(Some(first), [Only("b", 1), Only("a", 1)]);
            after.Some? && Lt(after.value.clock, first.clock)
  {
    var first, sibling, stale := Only("a", 2), Only("b", 1), Only("a", 1);
    var ws := [sibling, stale];
    assert ws[..1] == [sibling] && ws[..1][..0] == [];
    assert Count(first.clock, "a") == 2 && Count(stale.clock, "a") == 1 && Count(sibling.clock, "a") == 0;
    assert Count(first.clock, "b") == 0 && Count(stale.clock, "b") == 0 && Count(sibling.clock, "b") == 1;
    assert Comparison(first.clock, sibling.clock) == CONCURRENT;
    assert Comparison(sibling.clock, stale.clock) == CONCURRENT;
    assert StoreAll(Some(first), ws[..1]) == Some(sibling);
    assert StoreAll(Some(first), ws) == Some(stale);
  }

  // What can happen to one key at one node.
  datatype Event =
    | Commit(value: string, context: Option<Clock>, now: int)
    | Replicate(version: Versioned)

  ghost function Apply(self: NodeId, present: Option<Versioned>, e: Event): Option<Versioned> {
    match e
    case Commit(value, context, now) => Some(CommitVersion(present, value, context, self, now))
    case Replicate(version) => Some(AcceptUnlessCovered(present, version))
  }

  ghost function StateAfter(self: NodeId, present: Option<Versioned>, es: seq<Event>, k: nat): Option<Versioned>
    requires k <= |es|
  {
    if k == 0 then present else Apply(self, StateAfter(self, present, es, k - 1), es[k - 1])
  }

  /** The event neither replaces the stored version by a concurrent one nor overflows the counter. */
  ghost predicate Calm(self: NodeId, present: Option<Versioned>, e: Event) {
    match e
    case Commit(_, context, _) => RoomToCount(context, ClockOf(present), self)
    case Replicate(version) => Comparable(OrEmpty(ClockOf(present)), version.clock)
  }

  ghost predicate CalmAt(self: NodeId, present: Option<Versioned>, es: seq<Event>, k: nat)
    requires k < |es|
  {
    Calm(self, StateAfter(self, present, es, k), es[k])
  }

  ghost predicate AllCalm(self: NodeId, present: Option<Versioned>, es: seq<Event>) {
    forall k: nat :: k < |es| ==> CalmAt(self, present, es, k)
  }

  lemma ApplyCalm(self: NodeId, present: Option<Versioned>, e: Event)
    requires Calm(self, present, e)
    ensures var before, after := OrEmpty(ClockOf(present)), OrEmpty(ClockOf(Apply(self, present, e)));
            Leq(before, after) && (e.Commit? ==> Lt(before, after))
  {
    match e
    case Commit(_, context, now) =>
      NewClockDominates(context, ClockOf(present), self, now);
    case Replicate(version) =>
      match present {
        case None =>
          assert forall n: NodeId :: Count(EMPTY_CLOCK, n) == 0;
        case Some(v) =>
          ReplicaRule(v, version);
      }
  }

  ghost function ClockAt(self: NodeId, present: Option<Versioned>, es: seq<Event>, k: nat): Clock
    requires k <= |es|
  {
    OrEmpty(ClockOf(StateAfter(self, present, es, k)))
  }

  ghost predicate CommitWithin(es: seq<Event>, i: nat, j: nat)
    requires j <= |es|
  {
    exists k: nat :: i <= k < j && es[k].Commit?
  }

  lemma ClockStep(self: NodeId, present: Option<Versioned>, es: seq<Event>, k: nat)
    requires k < |es| && AllCalm(self, present, es)
    ensures Leq(ClockAt(self, present, es, k), ClockAt(self, present, es, k + 1))
    ensures es[k].Commit? ==> Lt(ClockAt(self, present, es, k), ClockAt(self, present, es, k + 1))
  {
    assert CalmAt(self, present, es, k);
    ApplyCalm(self, StateAfter(self, present, es, k), es[k]);
  }

  /** `cs` lists clocks that never go down, and go strictly up across the commits of `es`. */
  ghost predicate Ladder(cs: seq<Clock>, es: seq<Event>) {
    && |cs| == |es| + 1
    && forall k {:trigger es[k]} :: 0 <= k < |es| ==>
         Leq(cs[k], cs[k + 1]) && (es[k].Commit? ==> Lt(cs[k], cs[k + 1]))
  }

  lemma {:induction false} Climb(cs: seq<Clock>, es: seq<Event>, i: nat, j: nat)
    requires Ladder(cs, es) && i <= j <= |es|
    ensures Leq(cs[i], cs[j]) && (CommitWithin(es, i, j) ==> Lt(cs[i], cs[j]))
    decreases j
  {
    if i == j {
      LeqReflexive(cs[i]);
    } else {
      Climb(cs, es, i, j - 1);
      assert es[j - 1].Commit? || !es[j - 1].Commit?;
      LeqTransitive(cs[i], cs[j - 1], cs[j]);
      assert CommitWithin(es, i, j) ==> CommitWithin(es, i, j - 1) || es[j - 1].Commit?;
    }
  }

  /** While no concurrent write intervenes, the clock at a node never goes down, and it goes strictly up across every
      coordinated write, however Puts and replicated writes interleave. */
  lemma CausalChain(self: NodeId, present: Option<Versioned>, es: seq<Event>, i: nat, j: nat)
    requires i <= j <= |es| && AllCalm(self, present, es)
    ensures Leq(ClockAt(self, present, es, i), ClockAt(self, present, es, j))
    ensures CommitWithin(es, i, j) ==> Lt(ClockAt(self, present, es, i), ClockAt(self, present, es, j))
  {
    var cs := ClockLadder(self, present, es);
    Climb(cs, es, i, j);
  }

  lemma ClockLadder(self: NodeId, present: Option<Versioned>, es: seq<Event>) returns (cs: seq<Clock>)
    requires AllCalm(self, present, es)
    ensures Ladder(cs, es)
    ensures forall k {:trigger cs[k]} :: 0 <= k <= |es| ==> cs[k] == ClockAt(self, present, es, k)
  {
    cs := seq(|es| + 1, k requires 0 <= k <= |es| => ClockAt(self, present, es, k));
    forall k {:trigger es[k]} | 0 <= k < |es|
      ensures Leq(cs[k], cs[k + 1]) && (es[k].Commit? ==> Lt(cs[k], cs[k + 1]))
    {
      ClockStep(self, present, es, k);
    }
  }
}
