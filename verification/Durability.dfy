/** Nothing acknowledged is lost: over whole runs in which the writes of a key are pairwise comparable, what a replica
    acknowledged stays covered by its store, and what a stand-in acknowledged stays covered by its hint or by the
    target's store, whatever the interleaving of stores, snapshots, deliveries, erases and reads. */
module Durability {
  import opened Basics
  import opened VectorClocks
  import opened Replica
  import opened Protocol
  import opened Counters

  /** No two writes of `key` are concurrent. */
  ghost predicate ComparableLog(puts: seq<Put>, key: Key) {
    forall i, j :: 0 <= i < |puts| && 0 <= j < |puts| && puts[i].key == key && puts[j].key == key ==>
      Comparable(puts[i].version.clock, puts[j].version.clock)
  }

  /** The runs considered: comparable writes of `key`, and fewer of all writes together than a counter can hold. */
  ghost predicate Tame(puts: seq<Put>, key: Key) {
    ComparableLog(puts, key) && |puts| < COUNTER_LIMIT
  }

  lemma TamePrefix(puts: seq<Put>, p: Put, key: Key)
    requires Tame(puts + [p], key)
    ensures Tame(puts, key)
  {
    var longer := puts + [p];
    forall i, j | 0 <= i < |puts| && 0 <= j < |puts| && puts[i].key == key && puts[j].key == key
      ensures Comparable(puts[i].version.clock, puts[j].version.clock)
    {
      assert longer[i] == puts[i] && longer[j] == puts[j];
    }
  }

  lemma LoggedComparable(puts: seq<Put>, key: Key, u: Versioned, v: Versioned)
    requires ComparableLog(puts, key) && Logged(puts, key, u) && Logged(puts, key, v)
    ensures Comparable(u.clock, v.clock)
  {
  }

  // ---- the invariant ---------------------------------------------------------------

  /** Version `v` of a key is covered for `target`: by its own store, or by the hint that `slot` holds for it. */
  ghost predicate Safe(s: State, slot: Slot, v: Versioned) {
    Covered(v, HeldIn(s.held, slot)) || Covered(v, Lookup(s.store, Cell(slot.target, slot.key)))
  }

  ghost predicate MessageKept(s: State, key: Key, m: Message) {
    match m
    case Stored(i, replica) =>
      i < |s.puts| && s.puts[i].key == key ==> Covered(s.puts[i].version, Lookup(s.store, Cell(replica, key)))
    case HeldFor(i, holder, target) =>
      i < |s.puts| && s.puts[i].key == key ==> Safe(s, Slot(holder, target, key), s.puts[i].version)
    case Delivered(slot, v) => slot.key == key ==> Covered(v, Lookup(s.store, Cell(slot.target, key)))
    case Write(_, _, _, _) => true
    case Hint(_, _, _) => true
  }

  ghost predicate AllKept(s: State, key: Key) {
    forall m :: m in s.net ==> MessageKept(s, key, m)
  }

  /** No stored version of `key` goes down from `s` to `t`, and no held one stops being covered. */
  ghost predicate Grew(s: State, t: State, key: Key) {
    && (forall c :: c in s.store && c.key == key ==> Covered(s.store[c], Lookup(t.store, c)))
    && (forall sl :: sl in s.held && sl.key == key ==> Safe(t, sl, s.held[sl]))
  }

  lemma CoveredTransitive(u: Versioned, v: Versioned, present: Option<Versioned>)
    requires Leq(u.clock, v.clock) && Covered(v, present)
    ensures Covered(u, present)
  {
    LeqTransitive(u.clock, v.clock, present.value.clock);
  }

  lemma MessageStaysKept(s: State, t: State, key: Key, m: Message)
    requires MessageLogged(s.puts, m) && MessageKept(s, key, m) && Grew(s, t, key)
    requires s.puts <= t.puts
    ensures MessageKept(t, key, m)
  {
    match m
    case Stored(i, replica) =>
      if s.puts[i].key == key {
        var c := Cell(replica, key);
        CoveredTransitive(s.puts[i].version, s.store[c], Lookup(t.store, c));
      }
    case HeldFor(i, holder, target) =>
      if s.puts[i].key == key {
        SafeStays(s, t, Slot(holder, target, key), s.puts[i].version);
      }
    case Delivered(slot, v) =>
      if slot.key == key {
        var c := Cell(slot.target, key);
        CoveredTransitive(v, s.store[c], Lookup(t.store, c));
      }
    case Write(_, _, _, _) =>
    case Hint(_, _, _) =>
  }

  lemma SafeStays(s: State, t: State, slot: Slot, v: Versioned)
    requires Safe(s, slot, v) && Grew(s, t, slot.key)
    ensures Safe(t, slot, v)
  {
    var c := Cell(slot.target, slot.key);
    if Covered(v, HeldIn(s.held, slot)) {
      if Covered(s.held[slot], HeldIn(t.held, slot)) {
        CoveredTransitive(v, s.held[slot], HeldIn(t.held, slot));
      } else {
        CoveredTransitive(v, s.held[slot], Lookup(t.store, c));
      }
    } else {
      CoveredTransitive(v, s.store[c], Lookup(t.store, c));
    }
  }

  // ---- every step lets what is acknowledged grow ---------------------------------------

  lemma ReplicaCovers(present: Option<Versioned>, incoming: Versioned)
    ensures Covered(incoming, Some(AcceptUnlessCovered(present, incoming)))
    ensures present.Some? && Comparable(present.value.clock, incoming.clock) ==>
              Covered(present.value, Some(AcceptUnlessCovered(present, incoming)))
  {
    LeqReflexive(incoming.clock);
    if present.Some? { ReplicaRule(present.value, incoming); }
  }

  lemma CoordinatorCovers(present: Option<Versioned>, incoming: Versioned)
    ensures present.Some? ==> Covered(present.value, Some(AcceptIfDominating(present, incoming)))
    ensures present.None? || Comparable(present.value.clock, incoming.clock) ==>
              Covered(incoming, Some(AcceptIfDominating(present, incoming)))
  {
    LeqReflexive(incoming.clock);
    if present.Some? { CoordinatorRule(present.value, incoming); }
  }

  lemma Unchanged(s: State, t: State, key: Key)
    requires t.store == s.store && t.held == s.held
    ensures Grew(s, t, key)
  {
    forall c | c in s.store ensures Covered(s.store[c], Lookup(t.store, c)) { LeqReflexive(s.store[c].clock); }
    forall sl | sl in s.held ensures Safe(t, sl, s.held[sl]) { LeqReflexive(s.held[sl].clock); }
  }

  /** Replacing one stored version by one that covers it. */
  lemma StoreGrew(s: State, t: State, key: Key, cell: Cell, v: Versioned)
    requires t.store == s.store[cell := v] && t.held == s.held
    requires cell in s.store && cell.key == key ==> Covered(s.store[cell], Some(v))
    ensures Grew(s, t, key)
  {
    forall c | c in s.store && c.key == key
      ensures Covered(s.store[c], Lookup(t.store, c))
    {
      LeqReflexive(s.store[c].clock);
    }
    forall sl | sl in s.held ensures Safe(t, sl, s.held[sl]) { LeqReflexive(s.held[sl].clock); }
  }

  lemma HeldGrew(s: State, t: State, key: Key, slot: Slot, v: Versioned)
    requires t.held == s.held[slot := v] && t.store == s.store
    requires slot in s.held && slot.key == key ==> Covered(s.held[slot], Some(v))
    ensures Grew(s, t, key)
  {
    forall c | c in s.store ensures Covered(s.store[c], Lookup(t.store, c)) { LeqReflexive(s.store[c].clock); }
    forall sl | sl in s.held && sl.key == key ensures Safe(t, sl, s.held[sl]) { LeqReflexive(s.held[sl].clock); }
  }

  lemma CommitGrew(s: State, step: Step, key: Key)
    requires Provenance(s) && Bounded(s.puts) && step.Commit? && Enabled(s, step) && Tame(Do(s, step).puts, key)
    ensures Grew(s, Do(s, step), key)
    ensures MessageKept(Do(s, step), key, Stored(|s.puts|, step.node))
  {
    var t := Do(s, step);
    var cell := Cell(step.node, step.key);
    var v := t.store[cell];
    LeqReflexive(v.clock);
    BuildsAtMostAll(s.puts, step.node);
    if cell in s.store {
      NoWrap(s, step.node, step.key, step.context, Some(s.store[cell]), step.now);
    }
    StoreGrew(s, t, key, cell, v);
  }

  lemma ReceiveWriteGrew(s: State, step: Step, key: Key)
    requires Provenance(s) && step.ReceiveWrite? && Enabled(s, step) && Tame(s.puts, key)
    ensures Grew(s, Do(s, step), key)
    ensures forall m :: m in AnswerTo(step.write) ==> MessageKept(Do(s, step), key, m)
  {
    var t := Do(s, step);
    var w := step.write;
    var cell := Cell(w.dest, w.key);
    assert MessageLogged(s.puts, w);
    ReplicaCovers(Lookup(s.store, cell), w.version);
    if cell in s.store && w.key == key {
      LoggedComparable(s.puts, key, s.store[cell], w.version);
    }
    StoreGrew(s, t, key, cell, t.store[cell]);
  }

  lemma CommitAsStandInGrew(s: State, step: Step, key: Key)
    requires Provenance(s) && step.CommitAsStandIn? && Enabled(s, step) && Tame(Do(s, step).puts, key)
    ensures Grew(s, Do(s, step), key)
    ensures MessageKept(Do(s, step), key, HeldFor(|s.puts|, step.node, step.target))
  {
    var t := Do(s, step);
    var p := t.puts[|s.puts|];
    var slot := Slot(step.node, step.target, step.key);
    assert t.puts == s.puts + [p];
    LogGrows(s.puts, p);
    CoordinatorCovers(HeldIn(s.held, slot), p.version);
    if slot in s.held && step.key == key {
      LoggedComparable(t.puts, key, s.held[slot], p.version);
    }
    HeldGrew(s, t, key, slot, t.held[slot]);
  }

  lemma ReceiveHintGrew(s: State, step: Step, key: Key)
    requires Provenance(s) && step.ReceiveHint? && Enabled(s, step) && Tame(s.puts, key)
    ensures Grew(s, Do(s, step), key)
    ensures MessageKept(Do(s, step), key, HeldFor(step.hint.put, step.hint.holder, step.hint.target))
  {
    var t := Do(s, step);
    var p := s.puts[step.hint.put];
    var slot := Slot(step.hint.holder, step.hint.target, p.key);
    assert Logged(s.puts, p.key, p.version);
    ReplicaCovers(HeldIn(s.held, slot), p.version);
    if slot in s.held && p.key == key {
      LoggedComparable(s.puts, key, s.held[slot], p.version);
    }
    HeldGrew(s, t, key, slot, t.held[slot]);
  }

  /** A hint is erased only when the target already covers it; a newer one that arrived meanwhile stays. */
  lemma FinishDeliveryGrew(s: State, step: Step, key: Key)
    requires AllKept(s, key) && step.FinishDelivery? && Enabled(s, step)
    ensures Grew(s, Do(s, step), key)
    ensures step.reply.slot in s.held && Lt(step.reply.version.clock, s.held[step.reply.slot].clock) ==>
        Do(s, step) == s
  {
    var t := Do(s, step);
    var slot, v := step.reply.slot, step.reply.version;
    Unchanged(s, s, key);
    if t != s {
      assert MessageKept(s, key, step.reply);
      forall sl | sl in s.held && sl.key == key
        ensures Safe(t, sl, s.held[sl])
      {
        LeqReflexive(s.held[sl].clock);
        if sl == slot {
          CoveredTransitive(s.held[slot], v, Lookup(t.store, Cell(slot.target, key)));
        }
      }
    }
  }

  /** The messages a step adds. */
  lemma KeptAfter(s: State, t: State, key: Key, added: set<Message>)
    requires Provenance(s) && AllKept(s, key) && Grew(s, t, key) && s.puts <= t.puts
    requires t.net == s.net + added && forall m :: m in added ==> MessageKept(t, key, m)
    ensures AllKept(t, key)
  {
    forall m | m in t.net
      ensures MessageKept(t, key, m)
    {
      if m in s.net { MessageStaysKept(s, t, key, m); }
    }
  }

  lemma StepGrew(s: State, step: Step, key: Key)
    requires Provenance(s) && Bounded(s.puts) && Enabled(s, step) && Tame(Do(s, step).puts, key)
    requires AllKept(s, key)
    ensures Grew(s, Do(s, step), key)
    ensures s.puts <= Do(s, step).puts && Tame(s.puts, key)
  {
    var t := Do(s, step);
    if t.puts != s.puts { TamePrefix(s.puts, t.puts[|s.puts|], key); }
    match step
    case Commit(_, _, _, _, _) => CommitGrew(s, step, key);
    case CommitAsStandIn(_, _, _, _, _, _) => CommitAsStandInGrew(s, step, key);
    case ReceiveWrite(_) => ReceiveWriteGrew(s, step, key);
    case ReceiveHint(_) => ReceiveHintGrew(s, step, key);
    case FinishDelivery(_) => FinishDeliveryGrew(s, step, key);
    case SendWrite(_, _) => Unchanged(s, t, key);
    case SendHint(_, _, _) => Unchanged(s, t, key);
    case SendHeld(_) => Unchanged(s, t, key);
    case ReceiveAck(_) => Unchanged(s, t, key);
    case StartRead(_) => Unchanged(s, t, key);
    case ReceiveReply(_, _) => Unchanged(s, t, key);
    case FinishRead(_, _) => Unchanged(s, t, key);
  }

  /** Steps whose new messages are acknowledgements. */
  lemma CommitKeepsAll(s: State, step: Step, key: Key)
    requires Provenance(s) && Bounded(s.puts) && Enabled(s, step) && Tame(Do(s, step).puts, key)
    requires AllKept(s, key) && (step.Commit? || step.CommitAsStandIn?)
    ensures AllKept(Do(s, step), key)
  {
    var t := Do(s, step);
    if step.Commit? {
      CommitGrew(s, step, key);
      KeptAfter(s, t, key, {Stored(|s.puts|, step.node)});
    } else {
      CommitAsStandInGrew(s, step, key);
      KeptAfter(s, t, key, {HeldFor(|s.puts|, step.node, step.target)});
    }
  }

  lemma ReceiveKeepsAll(s: State, step: Step, key: Key)
    requires Provenance(s) && Enabled(s, step) && Tame(s.puts, key)
    requires AllKept(s, key) && (step.ReceiveWrite? || step.ReceiveHint?)
    ensures AllKept(Do(s, step), key)
  {
    var t := Do(s, step);
    if step.ReceiveWrite? {
      ReceiveWriteGrew(s, step, key);
      KeptAfter(s, t, key, AnswerTo(step.write));
    } else {
      ReceiveHintGrew(s, step, key);
      KeptAfter(s, t, key, {HeldFor(step.hint.put, step.hint.holder, step.hint.target)});
    }
  }

  /** Steps whose new messages, if any, are requests. */
  lemma RequestKeepsAll(s: State, step: Step, key: Key)
    requires Provenance(s) && Enabled(s, step) && AllKept(s, key) && Grew(s, Do(s, step), key)
    requires !(step.Commit? || step.CommitAsStandIn? || step.ReceiveWrite? || step.ReceiveHint?)
    ensures AllKept(Do(s, step), key)
  {
    var t := Do(s, step);
    match step
    case SendWrite(put, dest) =>
      KeptAfter(s, t, key, {Write(dest, s.puts[put].key, s.puts[put].version, FromPut(put))});
    case SendHint(put, holder, target) => KeptAfter(s, t, key, {Hint(holder, target, put)});
    case SendHeld(slot) => KeptAfter(s, t, key, {Write(slot.target, slot.key, s.held[slot], FromDelivery(slot))});
    case FinishRead(read, responders) => KeptAfter(s, t, key, RepairsOf(s.gets[read], responders));
    case FinishDelivery(_) => KeptAfter(s, t, key, {});
    case ReceiveAck(_) => KeptAfter(s, t, key, {});
    case StartRead(_) => KeptAfter(s, t, key, {});
    case ReceiveReply(_, _) => KeptAfter(s, t, key, {});
  }

  lemma StepKeepsAll(s: State, step: Step, key: Key)
    requires Provenance(s) && Bounded(s.puts) && Enabled(s, step) && Tame(Do(s, step).puts, key)
    requires AllKept(s, key)
    ensures AllKept(Do(s, step), key)
  {
    StepGrew(s, step, key);
    if step.Commit? || step.CommitAsStandIn? {
      CommitKeepsAll(s, step, key);
    } else if step.ReceiveWrite? || step.ReceiveHint? {
      ReceiveKeepsAll(s, step, key);
    } else {
      RequestKeepsAll(s, step, key);
    }
  }

  lemma {:induction false} RunKeepsAll(states: seq<State>, steps: seq<Step>, key: Key)
    requires IsRun(states, steps) && Tame(Last(states).puts, key)
    ensures AllKept(Last(states), key)
    decreases |steps|
  {
    if steps != [] {
      var front, last := states[..|steps|], steps[..|steps| - 1];
      RunPrefix(states, steps);
      RunProvenance(front, last);
      RunBounded(front, last);
      LogOnlyGrows(Last(front), steps[|steps| - 1], key);
      RunKeepsAll(front, last, key);
      StepKeepsAll(Last(front), steps[|steps| - 1], key);
    }
  }

  lemma LogOnlyGrows(s: State, step: Step, key: Key)
    requires Enabled(s, step) && Tame(Do(s, step).puts, key)
    ensures Tame(s.puts, key)
  {
    var t := Do(s, step);
    if t.puts != s.puts {
      assert t.puts == s.puts + [t.puts[|s.puts|]];
      TamePrefix(s.puts, t.puts[|s.puts|], key);
    }
  }

  // ---- the theorems --------------------------------------------------------------------

  /** No acknowledged hint is lost: in every state of a run with comparable writes of its key, the write is covered by
      the hint still held for the target or by the target's own store. */
  lemma NoAckedHintLost(states: seq<State>, steps: seq<Step>, i: nat, holder: NodeId, target: NodeId)
    requires IsRun(states, steps)
    requires HeldFor(i, holder, target) in Last(states).net
    requires i < |Last(states).puts| && Tame(Last(states).puts, Last(states).puts[i].key)
    ensures var s := Last(states); Safe(s, Slot(holder, target, s.puts[i].key), s.puts[i].version)
  {
    RunKeepsAll(states, steps, Last(states).puts[i].key);
    assert MessageKept(Last(states), Last(states).puts[i].key, HeldFor(i, holder, target));
  }

  /** No directly acknowledged write is lost: the replica's store stays at or above it. */
  lemma NoAckedWriteLost(states: seq<State>, steps: seq<Step>, i: nat, replica: NodeId)
    requires IsRun(states, steps)
    requires Stored(i, replica) in Last(states).net
    requires i < |Last(states).puts| && Tame(Last(states).puts, Last(states).puts[i].key)
    ensures var s := Last(states); Covered(s.puts[i].version, Lookup(s.store, Cell(replica, s.puts[i].key)))
  {
    RunKeepsAll(states, steps, Last(states).puts[i].key);
    assert MessageKept(Last(states), Last(states).puts[i].key, Stored(i, replica));
  }
}
