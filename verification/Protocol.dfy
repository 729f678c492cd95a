/** The whole data path as one transition system: coordinators commit, the network delays, duplicates, reorders and
    loses messages, replicas store, stand-ins hold and deliver hints, reads collect replies and repair
    (node_kv.cpp, node_reachability.cpp). Membership is fixed and no node restarts or is removed during a run. */
module Protocol {
  import opened Basics
  import opened VectorClocks
  import opened Resolution
  import opened Replica
  import opened ReadPath

  // One coordinated write. `standIn` is the owner it was held for when the coordinator was not itself an owner.
  datatype Put = Put(key: Key, coordinator: NodeId, version: Versioned, standIn: Option<NodeId>)

  datatype Cell = Cell(node: NodeId, key: Key)

  datatype Slot = Slot(holder: NodeId, target: NodeId, key: Key)

  // Whom the answer to a replicated write goes back to.
  datatype Origin = FromPut(put: nat) | FromRepair | FromDelivery(slot: Slot)

  datatype Message =
    | Write(dest: NodeId, key: Key, version: Versioned, origin: Origin)
    | Hint(holder: NodeId, target: NodeId, put: nat)
    | Stored(put: nat, replica: NodeId)
    | HeldFor(put: nat, holder: NodeId, target: NodeId)
    | Delivered(slot: Slot, version: Versioned)

  // A read: what it has heard so far, and how it ended.
  datatype Read = Read(key: Key, replies: map<NodeId, Option<Versioned>>, result: Option<Result>)

  datatype Result = Result(responders: seq<NodeId>, winner: Option<Versioned>)

  datatype State = State(
    puts: seq<Put>,                 // every coordinated write so far, in commit order
    store: map<Cell, Versioned>,
    held: map<Slot, Versioned>,
    net: set<Message>,              // everything ever sent; a message may be received any number of times, or never
    acks: set<Message>,             // answers that reached a coordinator
    gets: seq<Read>,
    contexts: set<(Key, Clock)>)    // clocks handed to clients

  datatype Step =
    | Commit(node: NodeId, key: Key, value: string, context: Clock, now: int)
    | CommitAsStandIn(node: NodeId, target: NodeId, key: Key, value: string, context: Clock, now: int)
    | SendWrite(put: nat, dest: NodeId)
    | SendHint(put: nat, holder: NodeId, target: NodeId)
    | ReceiveWrite(write: Message)
    | ReceiveHint(hint: Message)
    | ReceiveAck(ack: Message)
    | SendHeld(slot: Slot)
    | FinishDelivery(reply: Message)
    | StartRead(key: Key)
    | ReceiveReply(read: nat, node: NodeId)
    | FinishRead(read: nat, responders: seq<NodeId>)

  const Initial := State([], map[], map[], {}, {}, [], {})

  function Lookup(store: map<Cell, Versioned>, c: Cell): Option<Versioned> {
    if c in store then Some(store[c]) else None
  }

  function HeldIn(held: map<Slot, Versioned>, s: Slot): Option<Versioned> {
    if s in held then Some(held[s]) else None
  }

  /** Clients send back only clocks they were given for that key, or none. */
  predicate HonestContext(s: State, key: Key, context: Clock) {
    context == EMPTY_CLOCK || (key, context) in s.contexts
  }

  function Answers(r: Read, responders: seq<NodeId>): seq<ReplicaResult>
    requires forall n :: n in responders ==> n in r.replies
  {
    seq(|responders|, j requires 0 <= j < |responders| => ReplicaResult(responders[j], r.replies[responders[j]]))
  }

  ghost function WinnerOf(r: Read, responders: seq<NodeId>): Option<Versioned>
    requires forall n :: n in responders ==> n in r.replies
  {
    var found := Found(Answers(r, responders));
    if found == [] then None else Some(Resolve(found).winner)
  }

  ghost function RepairsOf(r: Read, responders: seq<NodeId>): set<Message>
    requires forall n :: n in responders ==> n in r.replies
  {
    match WinnerOf(r, responders)
    case None => {}
    case Some(w) => set n | n in StalePeers(Answers(r, responders), w) :: Write(n, r.key, w, FromRepair)
  }

  ghost predicate Enabled(s: State, step: Step) {
    match step
    case Commit(_, key, _, context, _) => HonestContext(s, key, context)
    case CommitAsStandIn(_, _, key, _, context, _) => HonestContext(s, key, context)
    case SendWrite(put, _) => put < |s.puts|
    case SendHint(put, _, _) => put < |s.puts|
    case ReceiveWrite(m) => m in s.net && m.Write?
    case ReceiveHint(m) => m in s.net && m.Hint? && m.put < |s.puts|
    case ReceiveAck(m) => m in s.net && (m.Stored? || m.HeldFor?)
    case SendHeld(slot) => slot in s.held
    case FinishDelivery(m) => m in s.net && m.Delivered?
    case StartRead(_) => true
    case ReceiveReply(read, node) => read < |s.gets| && s.gets[read].result == None && node !in s.gets[read].replies
    case FinishRead(read, responders) =>
      read < |s.gets| && s.gets[read].result == None && forall n :: n in responders ==> n in s.gets[read].replies
  }

  function AnswerTo(m: Message): set<Message>
    requires m.Write?
  {
    match m.origin
    case FromPut(put) => {Stored(put, m.dest)}
    case FromRepair => {}
    case FromDelivery(slot) => {Delivered(slot, m.version)}
  }

  ghost function Do(s: State, step: Step): State
    requires Enabled(s, step)
  {
    match step
    case Commit(node, key, value, context, now) =>
      var cell := Cell(node, key);
      var v := CommitVersion(Lookup(s.store, cell), value, Some(context), node, now);
      var ack := Stored(|s.puts|, node);
      s.(puts := s.puts + [Put(key, node, v, None)], store := s.store[cell := v],
         net := s.net + {ack}, acks := s.acks + {ack}, contexts := s.contexts + {(key, v.clock)})
    case CommitAsStandIn(node, target, key, value, context, now) =>
      var slot := Slot(node, target, key);
      var v := CommitVersion(None, value, Some(context), node, now);
      var ack := HeldFor(|s.puts|, node, target);
      s.(puts := s.puts + [Put(key, node, v, Some(target))],
         held := s.held[slot := AcceptIfDominating(HeldIn(s.held, slot), v)],
         net := s.net + {ack}, acks := s.acks + {ack}, contexts := s.contexts + {(key, v.clock)})
    case SendWrite(put, dest) =>
      s.(net := s.net + {Write(dest, s.puts[put].key, s.puts[put].version, FromPut(put))})
    case SendHint(put, holder, target) =>
      s.(net := s.net + {Hint(holder, target, put)})
    case ReceiveWrite(m) =>
      var cell := Cell(m.dest, m.key);
      s.(store := s.store[cell := AcceptUnlessCovered(Lookup(s.store, cell), m.version)], net := s.net + AnswerTo(m))
    case ReceiveHint(m) =>
      var slot := Slot(m.holder, m.target, s.puts[m.put].key);
      s.(held := s.held[slot := AcceptUnlessCovered(HeldIn(s.held, slot), s.puts[m.put].version)],
         net := s.net + {HeldFor(m.put, m.holder, m.target)})
    case ReceiveAck(m) =>
      s.(acks := s.acks + {m})
    case SendHeld(slot) =>
      s.(net := s.net + {Write(slot.target, slot.key, s.held[slot], FromDelivery(slot))})
    case FinishDelivery(m) =>
      if m.slot in s.held && Equiv(s.held[m.slot].clock, m.version.clock) then s.(held := s.held - {m.slot}) else s
    case StartRead(key) =>
      s.(gets := s.gets + [Read(key, map[], None)])
    case ReceiveReply(read, node) =>
      var r := s.gets[read];
      s.(gets := s.gets[read := r.(replies := r.replies[node := Lookup(s.store, Cell(node, r.key))])])
    case FinishRead(read, responders) =>
      var r := s.gets[read];
      var winner := WinnerOf(r, responders);
      s.(gets := s.gets[read := r.(result := Some(Result(responders, winner)))],
         net := s.net + RepairsOf(r, responders),
         contexts := s.contexts + (if winner.Some? then {(r.key, winner.value.clock)} else {}))
  }

  /** Every transition is an enabled step. */
  ghost predicate IsPath(states: seq<State>, steps: seq<Step>) {
    && |states| == |steps| + 1
    && forall i {:trigger steps[i]} :: 0 <= i < |steps| ==>
        Enabled(states[i], steps[i]) && states[i + 1] == Do(states[i], steps[i])
  }

  /** A run is a path that starts empty-handed. */
  ghost predicate IsRun(states: seq<State>, steps: seq<Step>) {
    IsPath(states, steps) && states[0] == Initial
  }

  function Last(states: seq<State>): State
    requires states != []
  {
    states[|states| - 1]
  }

  lemma PathPrefix(states: seq<State>, steps: seq<Step>)
    requires IsPath(states, steps) && steps != []
    ensures IsPath(states[..|steps|], steps[..|steps| - 1])
    ensures Enabled(Last(states[..|steps|]), steps[|steps| - 1])
    ensures Last(states) == Do(Last(states[..|steps|]), steps[|steps| - 1])
  {
    assert Enabled(states[|steps| - 1], steps[|steps| - 1]);
  }

  lemma RunPrefix(states: seq<State>, steps: seq<Step>)
    requires IsRun(states, steps) && steps != []
    ensures IsRun(states[..|steps|], steps[..|steps| - 1])
    ensures Enabled(Last(states[..|steps|]), steps[|steps| - 1])
    ensures Last(states) == Do(Last(states[..|steps|]), steps[|steps| - 1])
  {
    PathPrefix(states, steps);
  }

  lemma PathExtends(states: seq<State>, steps: seq<Step>, step: Step)
    requires IsPath(states, steps) && Enabled(Last(states), step)
    ensures IsPath(states + [Do(Last(states), step)], steps + [step])
  {
  }

  lemma PathAppend(ts: seq<State>, us: seq<Step>, ts1: seq<State>, us1: seq<Step>)
    requires IsPath(ts, us) && IsPath(ts1, us1) && ts1[0] == Last(ts)
    ensures IsPath(ts + ts1[1..], us + us1) && Last(ts + ts1[1..]) == Last(ts1)
    ensures (ts + ts1[1..])[0] == ts[0] && (ts + ts1[1..])[..|ts|] == ts
  {
    var all, did := ts + ts1[1..], us + us1;
    forall i {:trigger did[i]} | 0 <= i < |did|
      ensures Enabled(all[i], did[i]) && all[i + 1] == Do(all[i], did[i])
    {
      if i < |us| {
        assert did[i] == us[i];
      } else {
        assert did[i] == us1[i - |us|];
        assert all[i] == ts1[i - |us|] && all[i + 1] == ts1[i - |us| + 1];
      }
    }
  }

  /** A run can be cut anywhere: a run up to that point, then a path from there. */
  lemma RunSplits(states: seq<State>, steps: seq<Step>, at: nat)
    requires IsRun(states, steps) && at <= |steps|
    ensures IsRun(states[..at + 1], steps[..at]) && Last(states[..at + 1]) == states[at]
    ensures IsPath(states[at..], steps[at..]) && states[at..][0] == states[at] && Last(states[at..]) == Last(states)
  {
    var front, back := steps[..at], steps[at..];
    forall i {:trigger front[i]} | 0 <= i < at
      ensures Enabled(states[i], front[i]) && states[i + 1] == Do(states[i], front[i])
    {
      assert front[i] == steps[i];
    }
    forall i {:trigger back[i]} | 0 <= i < |back|
      ensures Enabled(states[at..][i], back[i]) && states[at..][i + 1] == Do(states[at..][i], back[i])
    {
      assert back[i] == steps[at + i];
    }
  }

  /** What only ever grows. */
  lemma StepGrows(s: State, step: Step)
    requires Enabled(s, step)
    ensures s.puts <= Do(s, step).puts && s.contexts <= Do(s, step).contexts && |s.gets| <= |Do(s, step).gets|
  {
  }

  lemma {:induction false} PathGrows(states: seq<State>, steps: seq<Step>)
    requires IsPath(states, steps)
    ensures states[0].puts <= Last(states).puts && states[0].contexts <= Last(states).contexts
    ensures |states[0].gets| <= |Last(states).gets|
    decreases |steps|
  {
    if steps != [] {
      PathPrefix(states, steps);
      PathGrows(states[..|steps|], steps[..|steps| - 1]);
      StepGrows(Last(states[..|steps|]), steps[|steps| - 1]);
    }
  }

  // ---- where versions come from --------------------------------------------------

  ghost predicate Logged(puts: seq<Put>, key: Key, v: Versioned) {
    exists i: nat :: i < |puts| && puts[i].key == key && puts[i].version == v
  }

  ghost predicate ClockLogged(puts: seq<Put>, key: Key, c: Clock) {
    exists i: nat :: i < |puts| && puts[i].key == key && puts[i].version.clock == c
  }

  ghost predicate MessageLogged(puts: seq<Put>, m: Message) {
    match m
    case Write(dest, key, v, origin) =>
      && Logged(puts, key, v)
      && (origin.FromPut? ==> origin.put < |puts| && puts[origin.put].key == key && puts[origin.put].version == v)
      && (origin.FromDelivery? ==> dest == origin.slot.target && key == origin.slot.key)
    case Hint(_, _, put) => put < |puts|
    case Stored(put, _) => put < |puts|
    case HeldFor(put, _, _) => put < |puts|
    case Delivered(slot, v) => Logged(puts, slot.key, v)
  }

  ghost predicate ReadLogged(puts: seq<Put>, r: Read) {
    && (forall n :: n in r.replies && r.replies[n].Some? ==> Logged(puts, r.key, r.replies[n].value))
    && (r.result.Some? && r.result.value.winner.Some? ==> Logged(puts, r.key, r.result.value.winner.value))
  }

  /** Every version anywhere in the system is the version of some coordinated write for that key. */
  ghost predicate Provenance(s: State) {
    && (forall c :: c in s.store ==> Logged(s.puts, c.key, s.store[c]))
    && (forall sl :: sl in s.held ==> Logged(s.puts, sl.key, s.held[sl]))
    && (forall m :: m in s.net ==> MessageLogged(s.puts, m))
    && (forall m :: m in s.acks ==> m in s.net)
    && (forall c :: c in s.contexts ==> ClockLogged(s.puts, c.0, c.1))
    && (forall j :: 0 <= j < |s.gets| ==> ReadLogged(s.puts, s.gets[j]))
  }

  lemma LogGrows(puts: seq<Put>, p: Put)
    ensures forall k, v :: Logged(puts, k, v) ==> Logged(puts + [p], k, v)
    ensures forall k, c :: ClockLogged(puts, k, c) ==> ClockLogged(puts + [p], k, c)
    ensures forall m :: MessageLogged(puts, m) ==> MessageLogged(puts + [p], m)
    ensures Logged(puts + [p], p.key, p.version) && ClockLogged(puts + [p], p.key, p.version.clock)
  {
    var longer := puts + [p];
    assert longer[|puts|] == p;
    forall k, v | Logged(puts, k, v)
      ensures Logged(longer, k, v)
    {
      var i: nat :| i < |puts| && puts[i].key == k && puts[i].version == v;
      assert longer[i] == puts[i];
    }
    forall k, c | ClockLogged(puts, k, c)
      ensures ClockLogged(longer, k, c)
    {
      var i: nat :| i < |puts| && puts[i].key == k && puts[i].version.clock == c;
      assert longer[i] == puts[i];
    }
  }

  /** Every read stays well-founded when the log only grows. */
  lemma ReadsLoggedGrow(s: State, t: State)
    requires forall j :: 0 <= j < |s.gets| ==> ReadLogged(s.puts, s.gets[j])
    requires t.gets == s.gets && (t.puts == s.puts || exists p :: t.puts == s.puts + [p])
    ensures forall j :: 0 <= j < |t.gets| ==> ReadLogged(t.puts, t.gets[j])
  {
    if p :| t.puts == s.puts + [p] { LogGrows(s.puts, p); }
    forall j | 0 <= j < |t.gets|
      ensures ReadLogged(t.puts, t.gets[j])
    {
      assert ReadLogged(s.puts, s.gets[j]);
    }
  }

  lemma CommitKeepsProvenance(s: State, step: Step)
    requires Provenance(s) && step.Commit? && Enabled(s, step)
    ensures Provenance(Do(s, step))
  {
    var t := Do(s, step);
    assert t.puts == s.puts + [t.puts[|s.puts|]];
    LogGrows(s.puts, t.puts[|s.puts|]);
    ReadsLoggedGrow(s, t);
  }

  lemma CommitAsStandInKeepsProvenance(s: State, step: Step)
    requires Provenance(s) && step.CommitAsStandIn? && Enabled(s, step)
    ensures Provenance(Do(s, step))
  {
    var t := Do(s, step);
    assert t.puts == s.puts + [t.puts[|s.puts|]];
    LogGrows(s.puts, t.puts[|s.puts|]);
    ReadsLoggedGrow(s, t);
  }

  lemma SendWriteKeepsProvenance(s: State, step: Step)
    requires Provenance(s) && step.SendWrite? && Enabled(s, step)
    ensures Provenance(Do(s, step))
  {
    assert Logged(s.puts, s.puts[step.put].key, s.puts[step.put].version);
    ReadsLoggedGrow(s, Do(s, step));
  }

  lemma SendHintKeepsProvenance(s: State, step: Step)
    requires Provenance(s) && step.SendHint? && Enabled(s, step)
    ensures Provenance(Do(s, step))
  {
    ReadsLoggedGrow(s, Do(s, step));
  }

  lemma SendHeldKeepsProvenance(s: State, step: Step)
    requires Provenance(s) && step.SendHeld? && Enabled(s, step)
    ensures Provenance(Do(s, step))
  {
    ReadsLoggedGrow(s, Do(s, step));
  }

  lemma ReceiveWriteKeepsProvenance(s: State, step: Step)
    requires Provenance(s) && step.ReceiveWrite? && Enabled(s, step)
    ensures Provenance(Do(s, step))
  {
    assert MessageLogged(s.puts, step.write);
    ReadsLoggedGrow(s, Do(s, step));
  }

  lemma ReceiveHintKeepsProvenance(s: State, step: Step)
    requires Provenance(s) && step.ReceiveHint? && Enabled(s, step)
    ensures Provenance(Do(s, step))
  {
    assert Logged(s.puts, s.puts[step.hint.put].key, s.puts[step.hint.put].version);
    ReadsLoggedGrow(s, Do(s, step));
  }

  lemma ReceiveAckKeepsProvenance(s: State, step: Step)
    requires Provenance(s) && step.ReceiveAck? && Enabled(s, step)
    ensures Provenance(Do(s, step))
  {
    ReadsLoggedGrow(s, Do(s, step));
  }

  lemma FinishDeliveryKeepsProvenance(s: State, step: Step)
    requires Provenance(s) && step.FinishDelivery? && Enabled(s, step)
    ensures Provenance(Do(s, step))
  {
    ReadsLoggedGrow(s, Do(s, step));
  }

  lemma WinnerIsLogged(puts: seq<Put>, r: Read, responders: seq<NodeId>)
    requires forall n :: n in responders ==> n in r.replies
    requires forall n :: n in r.replies && r.replies[n].Some? ==> Logged(puts, r.key, r.replies[n].value)
    ensures var w := WinnerOf(r, responders); w.Some? ==> Logged(puts, r.key, w.value)
  {
    var answers := Answers(r, responders);
    if Found(answers) != [] {
      WinnerMeaning(Found(answers));
      FoundMembers(answers);
      var w := Resolve(Found(answers)).winner;
      var j :| 0 <= j < |answers| && answers[j].version == Some(w);
      assert responders[j] in r.replies;
    }
  }

  lemma StartReadKeepsProvenance(s: State, step: Step)
    requires Provenance(s) && step.StartRead? && Enabled(s, step)
    ensures Provenance(Do(s, step))
  {
    var t := Do(s, step);
    forall j | 0 <= j < |t.gets|
      ensures ReadLogged(t.puts, t.gets[j])
    {
      assert j < |s.gets| ==> ReadLogged(s.puts, s.gets[j]);
    }
  }

  lemma ReceiveReplyKeepsProvenance(s: State, step: Step)
    requires Provenance(s) && step.ReceiveReply? && Enabled(s, step)
    ensures Provenance(Do(s, step))
  {
    var t := Do(s, step);
    forall j | 0 <= j < |t.gets|
      ensures ReadLogged(t.puts, t.gets[j])
    {
      assert ReadLogged(s.puts, s.gets[j]);
    }
  }

  lemma FinishReadKeepsProvenance(s: State, step: Step)
    requires Provenance(s) && step.FinishRead? && Enabled(s, step)
    ensures Provenance(Do(s, step))
  {
    var t := Do(s, step);
    var r := s.gets[step.read];
    assert ReadLogged(s.puts, r);
    WinnerIsLogged(s.puts, r, step.responders);
    var w := WinnerOf(r, step.responders);
    if w.Some? {
      var i: nat :| i < |s.puts| && s.puts[i].key == r.key && s.puts[i].version == w.value;
      assert ClockLogged(s.puts, r.key, w.value.clock);
    }
    forall j | 0 <= j < |t.gets|
      ensures ReadLogged(t.puts, t.gets[j])
    {
      assert ReadLogged(s.puts, s.gets[j]);
    }
  }

  lemma StepKeepsProvenance(s: State, step: Step)
    requires Provenance(s) && Enabled(s, step)
    ensures Provenance(Do(s, step))
  {
    match step
    case Commit(_, _, _, _, _) => CommitKeepsProvenance(s, step);
    case CommitAsStandIn(_, _, _, _, _, _) => CommitAsStandInKeepsProvenance(s, step);
    case SendWrite(_, _) => SendWriteKeepsProvenance(s, step);
    case SendHint(_, _, _) => SendHintKeepsProvenance(s, step);
    case SendHeld(_) => SendHeldKeepsProvenance(s, step);
    case ReceiveWrite(_) => ReceiveWriteKeepsProvenance(s, step);
    case ReceiveHint(_) => ReceiveHintKeepsProvenance(s, step);
    case ReceiveAck(_) => ReceiveAckKeepsProvenance(s, step);
    case FinishDelivery(_) => FinishDeliveryKeepsProvenance(s, step);
    case StartRead(_) => StartReadKeepsProvenance(s, step);
    case ReceiveReply(_, _) => ReceiveReplyKeepsProvenance(s, step);
    case FinishRead(_, _) => FinishReadKeepsProvenance(s, step);
  }

  /** Provenance holds in every state of every run. */
  lemma {:induction false} RunProvenance(states: seq<State>, steps: seq<Step>)
    requires IsRun(states, steps)
    ensures Provenance(Last(states))
    decreases |steps|
  {
    if steps != [] {
      RunPrefix(states, steps);
      RunProvenance(states[..|steps|], steps[..|steps| - 1]);
      StepKeepsProvenance(Last(states[..|steps|]), steps[|steps| - 1]);
    }
  }
}
