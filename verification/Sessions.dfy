/** A client's calls placed in a run of the data path: exactly when a Get can take the cached context back, and what a
    whole session keeps (driftclient.hpp, node_kv.cpp). */
module Sessions {
  import opened Basics
  import opened VectorClocks
  import opened Replica
  import opened ReadPath
  import opened Protocol
  import opened Counters
  import opened Durability
  import opened FirstWrites
  import opened QuorumReads
  import Client

  // ---- a Get and the cached context ----------------------------------------------------

  /** Every quorum Get of `key` from number `first` on that found something found nothing below `c`. */
  ghost predicate LateGetsKeep(t: State, key: Key, c: Clock, owners: set<NodeId>, R: nat, first: nat) {
    forall j :: first <= j < |t.gets| && t.gets[j].key == key && HeardQuorum(t.gets[j], owners, R) ==>
      t.gets[j].result.value.winner.Some? ==> Leq(c, t.gets[j].result.value.winner.value.clock)
  }

  /** However the run goes on, a quorum Get begun from now on cannot take a client's context `c` back. */
  ghost predicate GetsWillKeep(s: State, key: Key, c: Clock, owners: set<NodeId>, R: nat) {
    forall ts, us :: IsPath(ts, us) && ts[0] == s && Tame(Last(ts).puts, key) ==>
      LateGetsKeep(Last(ts), key, c, owners, R, |s.gets|)
  }

  /** The state of the servers from which a Get is safe for a client whose context is `c`. */
  ghost predicate GetSafe(s: State, key: Key, c: Clock, owners: set<NodeId>, R: nat) {
    |Cover(s, key, c, owners)| + R > |owners| || !HasOlder(s.puts, key, c)
  }

  lemma SafeGetsKeep(s: State, key: Key, c: Clock, owners: set<NodeId>, R: nat, ts: seq<State>, us: seq<Step>)
    requires Sound(s, key) && Rooted(s.puts) && (key, c) in s.contexts && GetSafe(s, key, c, owners, R)
    requires IsPath(ts, us) && ts[0] == s && Tame(Last(ts).puts, key)
    ensures LateGetsKeep(Last(ts), key, c, owners, R, |s.gets|)
  {
    var t := Last(ts);
    if |Cover(s, key, c, owners)| + R > |owners| {
      CoverSuffices(s, key, c, owners, R, ts, us);
    } else {
      PathKeepsRooted(ts, us);
      PathGrows(ts, us);
      assert ClockLogged(s.puts, key, c);
      NothingOlderLater(s.puts, t.puts, key, c);
      forall j | 0 <= j < |t.gets| && t.gets[j].key == key && t.gets[j].result.Some?
          && t.gets[j].result.value.winner.Some?
        ensures Leq(c, t.gets[j].result.value.winner.value.clock)
      {
        assert ReadLogged(t.puts, t.gets[j]);
      }
    }
  }

  /** An older write, delivered late to an owner below `c`, leaves that owner holding something that is still below
      `c`. */
  lemma LateDelivery(s: State, key: Key, c: Clock, i: nat, n: NodeId) returns (ts: seq<State>, us: seq<Step>)
    requires i < |s.puts| && s.puts[i].key == key && !Leq(c, s.puts[i].version.clock)
    requires !Reaches(c, Lookup(s.store, Cell(n, key)))
    ensures IsPath(ts, us) && ts[0] == s && Last(ts).puts == s.puts && Last(ts).gets == s.gets
    ensures Cell(n, key) in Last(ts).store
    ensures forall m :: !Reaches(c, Lookup(s.store, Cell(m, key))) ==> !Reaches(c, Lookup(Last(ts).store, Cell(m, key)))
  {
    var send := SendWrite(i, n);
    var s1 := Do(s, send);
    var receive := ReceiveWrite(Write(n, key, s.puts[i].version, FromPut(i)));
    ts, us := [s, s1], [send];
    PathExtends(ts, us, receive);
    ts, us := ts + [Do(s1, receive)], us + [receive];
  }

  /** Otherwise some continuation ends a quorum Get on a version below `c`. */
  lemma UnsafeGetFalls(s: State, key: Key, c: Clock, owners: set<NodeId>, R: nat)
    returns (ts: seq<State>, us: seq<Step>)
    requires R >= 1 && !GetSafe(s, key, c, owners, R)
    ensures IsPath(ts, us) && ts[0] == s && Last(ts).puts == s.puts && |Last(ts).gets| == |s.gets| + 1
    ensures var r := Last(ts).gets[|s.gets|];
            && r.key == key && HeardQuorum(r, owners, R)
            && r.result.value.winner.Some? && !Leq(c, r.result.value.winner.value.clock)
  {
    var missed := Outside(owners, Cover(s, key, c, owners), R);
    var i: nat :| i < |s.puts| && s.puts[i].key == key && !Leq(c, s.puts[i].version.clock);
    var n :| n in missed;
    var ts1, us1 := LateDelivery(s, key, c, i, n);
    var ts2, us2 := MissedRead(Last(ts1), key, c, missed);
    PathAppend(ts1, us1, ts2, us2);
    ts, us := ts1 + ts2[1..], us1 + us2;
    assert missed * owners == missed;
  }

  /** Exactly when a Get cannot take a handed-out context back: a quorum must overlap the owners at or above it, or
      nothing older has ever been written. An owner that holds nothing now is no protection, because an older write
      may still reach it before it answers. */
  lemma ContextKeptExact(states: seq<State>, steps: seq<Step>, key: Key, c: Clock, owners: set<NodeId>, R: nat)
    requires IsRun(states, steps) && Tame(Last(states).puts, key) && (key, c) in Last(states).contexts && R >= 1
    ensures GetsWillKeep(Last(states), key, c, owners, R) <==> GetSafe(Last(states), key, c, owners, R)
  {
    var s := Last(states);
    RunIsSound(states, steps, key);
    RunIsRooted(states, steps);
    if GetSafe(s, key, c, owners, R) {
      forall ts, us | IsPath(ts, us) && ts[0] == s && Tame(Last(ts).puts, key)
        ensures LateGetsKeep(Last(ts), key, c, owners, R, |s.gets|)
      {
        SafeGetsKeep(s, key, c, owners, R, ts, us);
      }
    } else {
      var ts, us := UnsafeGetFalls(s, key, c, owners, R);
      assert !LateGetsKeep(Last(ts), key, c, owners, R, |s.gets|);
    }
  }

  // ---- a Get that nothing disturbs --------------------------------------------------------

  /** The read heard, from owners only, exactly what they held in state `s`. */
  ghost predicate Undisturbed(s: State, r: Read, key: Key, owners: set<NodeId>) {
    && r.key == key && r.result.Some? && Members(r.result.value.responders) <= owners
    && (forall n :: n in r.result.value.responders ==> n in r.replies && r.replies[n] == Lookup(s.store, Cell(n, key)))
    && r.result.value.winner == WinnerOf(r, r.result.value.responders)
  }

  ghost predicate UndisturbedGetsKeep(s: State, key: Key, c: Clock, owners: set<NodeId>, R: nat) {
    forall r: Read :: Undisturbed(s, r, key, owners) && HeardQuorum(r, owners, R) && r.result.value.winner.Some? ==>
      Leq(c, r.result.value.winner.value.clock)
  }

  ghost predicate HoldNothing(s: State, key: Key, q: set<NodeId>) {
    forall n :: n in q ==> Cell(n, key) !in s.store
  }

  /** Every `R` owners that miss the cover hold nothing at all for the key. */
  ghost predicate MissersHoldNothing(s: State, key: Key, c: Clock, owners: set<NodeId>, R: nat) {
    forall q :: Quorum(owners, q, R) && q !! Cover(s, key, c, owners) ==> HoldNothing(s, key, q)
  }

  lemma QuorumAround(owners: set<NodeId>, heard: set<NodeId>, n: NodeId, R: nat) returns (q: set<NodeId>)
    requires n in heard && heard <= owners && |heard| >= R >= 1
    ensures Quorum(owners, q, R) && n in q && q <= heard
  {
    var rest := SubsetOfSize(heard - {n}, R - 1);
    q := rest + {n};
  }

  lemma UndisturbedGetKeeps(s: State, key: Key, c: Clock, owners: set<NodeId>, R: nat, r: Read)
    requires Provenance(s) && ComparableLog(s.puts, key) && R >= 1 && MissersHoldNothing(s, key, c, owners, R)
    requires Undisturbed(s, r, key, owners) && HeardQuorum(r, owners, R) && r.result.value.winner.Some?
    ensures Leq(c, r.result.value.winner.value.clock)
  {
    var responders := r.result.value.responders;
    var heard, cover := Members(responders), Cover(s, key, c, owners);
    assert heard * owners == heard;
    var w := WinnerWasHeard(r, responders);
    assert w in heard;
    if heard !! cover {
      var q := QuorumAround(owners, heard, w, R);
      assert false;
    }
    var n :| n in heard && n in cover;
    forall m | m in responders && r.replies[m].Some?
      ensures Logged(s.puts, key, r.replies[m].value)
    {
      assert Cell(m, key) in s.store;
    }
    WinnerIsAbove(s.puts, r, responders, n, c);
  }

  lemma WinnerIsAbove(puts: seq<Put>, r: Read, responders: seq<NodeId>, n: NodeId, c: Clock)
    requires ComparableLog(puts, r.key) && forall m :: m in responders ==> m in r.replies
    requires forall m :: m in responders && r.replies[m].Some? ==> Logged(puts, r.key, r.replies[m].value)
    requires n in responders && Reaches(c, r.replies[n])
    ensures Reaches(c, WinnerOf(r, responders))
  {
    var heard := r.(replies := map m | m in responders :: r.replies[m], result := None);
    assert Answers(heard, responders) == Answers(r, responders);
    FinishReadReaches(puts, heard, responders, c, {n});
  }

  /** For a Get that nothing disturbs the condition is on the stores alone: it keeps the context if and only if every
      `R` owners that miss the cover hold nothing. */
  lemma UndisturbedGetExact(states: seq<State>, steps: seq<Step>, key: Key, c: Clock, owners: set<NodeId>, R: nat)
    requires IsRun(states, steps) && Tame(Last(states).puts, key) && R >= 1
    ensures var s := Last(states);
            UndisturbedGetsKeep(s, key, c, owners, R) <==> MissersHoldNothing(s, key, c, owners, R)
  {
    var s := Last(states);
    RunProvenance(states, steps);
    if MissersHoldNothing(s, key, c, owners, R) {
      forall r: Read | Undisturbed(s, r, key, owners) && HeardQuorum(r, owners, R) && r.result.value.winner.Some?
        ensures Leq(c, r.result.value.winner.value.clock)
      {
        UndisturbedGetKeeps(s, key, c, owners, R, r);
      }
    } else {
      var q :| Quorum(owners, q, R) && q !! Cover(s, key, c, owners) && !HoldNothing(s, key, q);
      var n :| n in q && Cell(n, key) in s.store;
      var r := DisturbingRead(s, key, c, owners, R, q, n);
    }
  }

  lemma DisturbingRead(s: State, key: Key, c: Clock, owners: set<NodeId>, R: nat, q: set<NodeId>, n: NodeId)
    returns (r: Read)
    requires Quorum(owners, q, R) && q !! Cover(s, key, c, owners) && n in q && Cell(n, key) in s.store
    ensures Undisturbed(s, r, key, owners) && HeardQuorum(r, owners, R)
    ensures r.result.value.winner.Some? && !Leq(c, r.result.value.winner.value.clock)
  {
    var ts, us;
    ts, us, r := ReadFrom(s, key, q);
    var responders := r.result.value.responders;
    assert forall m :: m in responders <==> m in Members(responders);
    assert q * owners == q;
    var w := WinnerWasHeard(r, responders);
    assert n in responders;
    assert w in q && w !in Cover(s, key, c, owners);
  }

  // ---- sessions -----------------------------------------------------------------------------

  // The stretch of the run during which a call was made, as positions in the list of states.
  datatype Window = Window(begin: nat, end: nat)

  /** Step `p` coordinates a write of `key` that carries `context`, and gives it the clock `clock`. */
  ghost predicate CommitsAt(states: seq<State>, steps: seq<Step>, p: nat, key: Key, context: Clock, clock: Clock)
    requires IsPath(states, steps) && p < |steps|
  {
    && (steps[p].Commit? || steps[p].CommitAsStandIn?) && steps[p].key == key && steps[p].context == context
    && |states[p + 1].puts| > |states[p].puts| && states[p + 1].puts[|states[p].puts|].version.clock == clock
  }

  /** An answer with counters to a Put that carried `context` comes from a write coordinated during the call. */
  ghost predicate PutServed(states: seq<State>, steps: seq<Step>, w: Window, key: Key, context: Clock,
                            answer: Option<Client.PutResult>)
    requires IsPath(states, steps) && w.end <= |steps|
  {
    answer.Some? && answer.value.context.counters != map[] ==>
      exists p :: w.begin <= p < w.end && CommitsAt(states, steps, p, key, context, answer.value.context)
  }

  /** A version found by a Get is the winner of a read begun and finished during the call, which counted at least `R` of
      `owners`. */
  ghost predicate GetServed(states: seq<State>, steps: seq<Step>, w: Window, key: Key, owners: set<NodeId>, R: nat,
                            answer: Option<Client.GetResult>)
    requires IsPath(states, steps) && w.begin <= w.end <= |steps|
  {
    answer.Some? && answer.value.found ==>
      exists j :: |states[w.begin].gets| <= j < |states[w.end].gets|
          && ReadGives(states[w.end].gets[j], key, owners, R, answer.value.context)
  }

  ghost predicate ReadGives(r: Read, key: Key, owners: set<NodeId>, R: nat, clock: Clock) {
    && r.key == key && HeardQuorum(r, owners, R)
    && r.result.value.winner.Some? && r.result.value.winner.value.clock == clock
  }

  ghost predicate ServedAt(states: seq<State>, steps: seq<Step>, calls: seq<Client.Call>, windows: seq<Window>,
                           key: Key,
                           k: nat)
    requires IsPath(states, steps) && |windows| == |calls| && k < |calls|
  {
    && windows[k].begin <= windows[k].end <= |steps|
    && (k > 0 ==> windows[k - 1].end <= windows[k].begin)
    && (calls[k].key == key ==>
          match calls[k]
          case PutCall(_, answer) =>
            PutServed(states, steps, windows[k], key, Client.ContextOf(Client.CacheAfter(calls, k), key), answer)
          case GetCall(_, answer) => GetServed(states, steps, windows[k], key, {}, 0, answer))
  }

  /** The calls follow one another, each Put sends what is cached, and the answers about `key` come from the run. */
  ghost predicate Served(states: seq<State>, steps: seq<Step>, calls: seq<Client.Call>, windows: seq<Window>, key: Key)
  {
    && IsRun(states, steps) && |windows| == |calls|
    && forall k: nat :: k < |calls| ==> ServedAt(states, steps, calls, windows, key, k)
  }

  lemma ContextsGrow(states: seq<State>, steps: seq<Step>, a: nat, b: nat)
    requires IsRun(states, steps) && a <= b <= |steps|
    ensures states[a].contexts <= states[b].contexts && states[a].puts <= states[b].puts
  {
    RunSplits(states, steps, b);
    RunSplits(states[..b + 1], steps[..b], a);
    PathGrows(states[..b + 1][a..], steps[..b][a..]);
  }

  lemma TameAt(states: seq<State>, steps: seq<Step>, key: Key, a: nat)
    requires IsRun(states, steps) && Tame(Last(states).puts, key) && a <= |steps|
    ensures Tame(states[a].puts, key)
  {
    ContextsGrow(states, steps, a, |steps|);
    TameBefore(states[a].puts, Last(states).puts, key);
  }

  /** A coordinated write raises the context it carried, and its clock is from then on one that clients were given. */
  lemma CommitRaises(states: seq<State>, steps: seq<Step>, p: nat, key: Key, context: Clock, clock: Clock)
    requires IsRun(states, steps) && Tame(Last(states).puts, key) && p < |steps|
        && CommitsAt(states, steps, p, key, context, clock)
    ensures Lt(context, clock) && (key, clock) in states[p + 1].contexts
  {
    var s, step := states[p], steps[p];
    RunSplits(states, steps, p);
    RunProvenance(states[..p + 1], steps[..p]);
    RunBounded(states[..p + 1], steps[..p]);
    TameAt(states, steps, key, p + 1);
    assert Enabled(s, step) && states[p + 1] == Do(s, step);
    var local := if step.Commit? then Lookup(s.store, Cell(step.node, key)) else None;
    BuildsAtMostAll(s.puts, step.node);
    NoWrap(s, step.node, key, context, local, step.now);
  }

  lemma PutKeeps(states: seq<State>, steps: seq<Step>, w: Window, key: Key, context: Clock,
                 answer: Option<Client.PutResult>)
    requires IsRun(states, steps) && Tame(Last(states).puts, key) && w.end <= |steps|
    requires PutServed(states, steps, w, key, context, answer) && answer.Some? && answer.value.context.counters != map[]
    ensures Lt(context, answer.value.context) && (key, answer.value.context) in states[w.end].contexts
  {
    var p: nat :| w.begin <= p < w.end && CommitsAt(states, steps, p, key, context, answer.value.context);
    CommitRaises(states, steps, p, key, context, answer.value.context);
    ContextsGrow(states, steps, p + 1, w.end);
  }

  /** The clock of a finished read's winner has been handed to a client. */
  ghost predicate ResultsGiven(s: State) {
    forall j :: 0 <= j < |s.gets| && s.gets[j].result.Some? && s.gets[j].result.value.winner.Some? ==>
      (s.gets[j].key, s.gets[j].result.value.winner.value.clock) in s.contexts
  }

  lemma {:induction false} RunGivesResults(states: seq<State>, steps: seq<Step>)
    requires IsRun(states, steps)
    ensures ResultsGiven(Last(states))
    decreases |steps|
  {
    if steps != [] {
      RunPrefix(states, steps);
      RunGivesResults(states[..|steps|], steps[..|steps| - 1]);
      StepGivesResults(Last(states[..|steps|]), steps[|steps| - 1]);
    }
  }

  lemma StepGivesResults(s: State, step: Step)
    requires ResultsGiven(s) && Enabled(s, step)
    ensures ResultsGiven(Do(s, step))
  {
  }

  lemma GetIsGiven(states: seq<State>, steps: seq<Step>, w: Window, key: Key, answer: Option<Client.GetResult>)
    requires IsRun(states, steps) && w.begin <= w.end <= |steps|
    requires GetServed(states, steps, w, key, {}, 0, answer) && answer.Some? && answer.value.found
    ensures (key, answer.value.context) in states[w.end].contexts
  {
    RunSplits(states, steps, w.end);
    RunGivesResults(states[..w.end + 1], steps[..w.end]);
  }

  /** The read that serves a Get begun in a safe state. */
  lemma GetKeeps(states: seq<State>, steps: seq<Step>, w: Window, key: Key, owners: set<NodeId>, R: nat, context: Clock,
                 answer: Option<Client.GetResult>)
    requires IsRun(states, steps) && Tame(Last(states).puts, key) && w.begin <= w.end <= |steps|
    requires GetServed(states, steps, w, key, owners, R, answer) && answer.Some? && answer.value.found
    requires (key, context) in states[w.begin].contexts && GetSafe(states[w.begin], key, context, owners, R)
    ensures Leq(context, answer.value.context)
  {
    var j :| |states[w.begin].gets| <= j < |states[w.end].gets|
             && ReadGives(states[w.end].gets[j], key, owners, R, answer.value.context);
    LateGetsKeepUntil(states, steps, w, key, owners, R, context);
  }

  lemma LateGetsKeepUntil(states: seq<State>, steps: seq<Step>, w: Window, key: Key, owners: set<NodeId>, R: nat,
                          context: Clock)
    requires IsRun(states, steps) && Tame(Last(states).puts, key) && w.begin <= w.end <= |steps|
    requires (key, context) in states[w.begin].contexts && GetSafe(states[w.begin], key, context, owners, R)
    ensures LateGetsKeep(states[w.end], key, context, owners, R, |states[w.begin].gets|)
  {
    var front, did := states[..w.end + 1], steps[..w.end];
    TameAt(states, steps, key, w.end);
    TameAt(states, steps, key, w.begin);
    RunSplits(states, steps, w.end);
    RunSplits(front, did, w.begin);
    RunIsSound(front[..w.begin + 1], did[..w.begin], key);
    RunIsRooted(front[..w.begin + 1], did[..w.begin]);
    SafeGetsKeep(states[w.begin], key, context, owners, R, front[w.begin..], did[w.begin..]);
  }

  /** What is cached before call `k` was handed out by the time the call begins. */
  ghost predicate CachedIsGiven(states: seq<State>, calls: seq<Client.Call>, key: Key, k: nat, at: nat)
    requires k <= |calls| && at < |states|
  {
    key in Client.CacheAfter(calls, k) ==> (key, Client.CacheAfter(calls, k)[key]) in states[at].contexts
  }

  lemma {:induction false} CachedWasGiven(states: seq<State>, steps: seq<Step>, calls: seq<Client.Call>,
                                          windows: seq<Window>,
                                          key: Key, k: nat)
    requires Served(states, steps, calls, windows, key) && Tame(Last(states).puts, key) && k < |calls|
    ensures windows[k].begin <= windows[k].end <= |steps|
    ensures CachedIsGiven(states, calls, key, k, windows[k].begin)
    ensures CachedIsGiven(states, calls, key, k + 1, windows[k].end)
    decreases k
  {
    assert ServedAt(states, steps, calls, windows, key, k);
    if k > 0 {
      CachedWasGiven(states, steps, calls, windows, key, k - 1);
      ContextsGrow(states, steps, windows[k - 1].end, windows[k].begin);
    }
    ContextsGrow(states, steps, windows[k].begin, windows[k].end);
    CallIsGiven(states, steps, calls, windows, key, k);
  }

  lemma CallIsGiven(states: seq<State>, steps: seq<Step>, calls: seq<Client.Call>, windows: seq<Window>,
                    key: Key, k: nat)
    requires IsRun(states, steps) && Tame(Last(states).puts, key) && |windows| == |calls| && k < |calls|
    requires ServedAt(states, steps, calls, windows, key, k)
    requires CachedIsGiven(states, calls, key, k, windows[k].end)
    ensures CachedIsGiven(states, calls, key, k + 1, windows[k].end)
  {
    var context := Client.ContextOf(Client.CacheAfter(calls, k), key);
    if calls[k].key == key {
      match calls[k]
      case PutCall(_, answer) =>
        if answer.Some? && answer.value.context.counters != map[] {
          PutKeeps(states, steps, windows[k], key, context, answer);
        }
      case GetCall(_, answer) =>
        if answer.Some? && answer.value.found {
          GetIsGiven(states, steps, windows[k], key, answer);
        }
    }
  }

  /** Call `k`, if it is a Get of `key`, counts a quorum and begins when the servers are safe for what the client has
      cached. */
  ghost predicate SafeAt(states: seq<State>, steps: seq<Step>, calls: seq<Client.Call>, windows: seq<Window>, key: Key,
                         owners: set<NodeId>, R: nat, k: nat)
    requires IsPath(states, steps) && |windows| == |calls| && k < |calls|
  {
    calls[k].GetCall? && calls[k].key == key ==>
      && windows[k].begin <= windows[k].end <= |steps|
      && GetServed(states, steps, windows[k], key, owners, R, calls[k].getAnswer)
      && GetSafe(states[windows[k].begin], key, ContextAt(calls, key, k), owners, R)
  }

  ghost function ContextAt(calls: seq<Client.Call>, key: Key, k: nat): Clock
    requires k <= |calls|
  {
    Client.ContextOf(Client.CacheAfter(calls, k), key)
  }

  /** What one call does to the context. */
  lemma CallKeeps(states: seq<State>, steps: seq<Step>, calls: seq<Client.Call>, windows: seq<Window>, key: Key,
                  owners: set<NodeId>, R: nat, k: nat)
    requires IsRun(states, steps) && Tame(Last(states).puts, key) && |windows| == |calls| && k < |calls|
    requires ServedAt(states, steps, calls, windows, key, k) && SafeAt(states, steps, calls, windows, key, owners, R, k)
    requires CachedIsGiven(states, calls, key, k, windows[k].begin)
    ensures Leq(ContextAt(calls, key, k), ContextAt(calls, key, k + 1))
    ensures Client.Advances(calls[k], key) ==> Lt(ContextAt(calls, key, k), ContextAt(calls, key, k + 1))
  {
    var context := ContextAt(calls, key, k);
    LeqReflexive(context);
    if calls[k].key == key {
      match calls[k]
      case PutCall(_, answer) =>
        if answer.Some? && answer.value.context.counters != map[] {
          PutKeeps(states, steps, windows[k], key, context, answer);
        }
      case GetCall(_, answer) =>
        if answer.Some? && answer.value.found {
          if key in Client.CacheAfter(calls, k) {
            GetKeeps(states, steps, windows[k], key, owners, R, context, answer);
          } else {
            assert forall n: NodeId :: Count(context, n) == 0;
          }
        }
    }
  }

  /** A session of Puts and Gets against a run with comparable writes: between calls `i` and `j` the cached context
      never goes down, and goes strictly up across every answered Put, if each Get in between begins when the servers
      are safe for it. */
  lemma {:induction false} ContextNeverFalls(states: seq<State>, steps: seq<Step>, calls: seq<Client.Call>,
                                             windows: seq<Window>, key: Key, owners: set<NodeId>, R: nat, i: nat,
                                             j: nat)
    requires Served(states, steps, calls, windows, key) && Tame(Last(states).puts, key)
    requires i <= j <= |calls|
    requires forall k: nat :: i <= k < j ==> SafeAt(states, steps, calls, windows, key, owners, R, k)
    ensures Leq(ContextAt(calls, key, i), ContextAt(calls, key, j))
    ensures Client.AdvanceWithin(calls, key, i, j) ==> Lt(ContextAt(calls, key, i), ContextAt(calls, key, j))
    decreases j
  {
    if i == j {
      LeqReflexive(ContextAt(calls, key, i));
    } else {
      ContextNeverFalls(states, steps, calls, windows, key, owners, R, i, j - 1);
      assert ServedAt(states, steps, calls, windows, key, j - 1);
      assert SafeAt(states, steps, calls, windows, key, owners, R, j - 1);
      CachedWasGiven(states, steps, calls, windows, key, j - 1);
      CallKeeps(states, steps, calls, windows, key, owners, R, j - 1);
      LeqTransitive(ContextAt(calls, key, i), ContextAt(calls, key, j - 1), ContextAt(calls, key, j));
      Client.AdvanceNext(calls, key, i, j);
    }
  }

  // ---- a session that goes back ----------------------------------------------------------------

  /** A run of exactly two writes of key k at owner c, the second on top of the first. */
  ghost predicate TwoWrites(states: seq<State>, steps: seq<Step>, first: Clock, second: Clock) {
    && IsRun(states, steps) && |steps| == 2
    && CommitsAt(states, steps, 0, "k", EMPTY_CLOCK, first) && CommitsAt(states, steps, 1, "k", first, second)
    && Lt(first, second) && first.counters != map[] && second.counters != map[]
    && var s := states[2];
       && |s.puts| == 2 && s.puts[0].key == s.puts[1].key == "k"
       && s.puts[0].version.clock == first && s.puts[1].version.clock == second
       && s.store.Keys == {Cell("c", "k")} && ("k", second) in s.contexts
  }

  lemma CommitTwice() returns (states: seq<State>, steps: seq<Step>, first: Clock, second: Clock)
    ensures TwoWrites(states, steps, first, second)
  {
    first := NewClock(Some(EMPTY_CLOCK), None, "c", 1);
    second := NewClock(Some(first), Some(first), "c", 2);
    var step0 := Step.Commit("c", "k", "1", EMPTY_CLOCK, 1);
    var s1 := Do(Initial, step0);
    assert s1.store[Cell("c", "k")].clock == first;
    var step1 := Step.Commit("c", "k", "2", first, 2);
    var s2 := Do(s1, step1);
    assert s2.puts[1].version.clock == second;
    states, steps := [Initial, s1, s2], [step0, step1];
    NewClockCounts(Some(EMPTY_CLOCK), None, "c", 1, "c");
    NewClockDominates(Some(first), Some(first), "c", 2);
    assert "c" in first.counters && "c" in second.counters;
  }

  lemma TwoAreTame(puts: seq<Put>, key: Key)
    requires |puts| == 2 && Lt(puts[0].version.clock, puts[1].version.clock)
    ensures Tame(puts, key)
  {
    LeqReflexive(puts[0].version.clock);
    LeqReflexive(puts[1].version.clock);
  }

  lemma UnsafeAfterTwo(s: State, first: Clock, second: Clock)
    requires |s.puts| == 2 && s.puts[0].key == "k" && s.puts[0].version.clock == first && Lt(first, second)
    requires s.store.Keys == {Cell("c", "k")}
    ensures !GetSafe(s, "k", second, {"c", "t", "u"}, 2)
  {
    var cover := Cover(s, "k", second, {"c", "t", "u"});
    assert cover <= {"c"};
    SubsetSize(cover, {"c"});
    assert !Leq(second, s.puts[0].version.clock);
  }

  lemma OldOneWon(s: State, r: Read, first: Clock, second: Clock)
    requires |s.puts| == 2 && s.puts[0].version.clock == first && s.puts[1].version.clock == second
    requires ReadLogged(s.puts, r) && r.result.Some? && r.result.value.winner.Some?
    requires !Leq(second, r.result.value.winner.value.clock)
    ensures r.result.value.winner.value.clock == first
  {
    LeqReflexive(second);
  }

  /** After the two writes a Get of two of the owners c, t, u can still come back with the first one. */
  lemma ThenGetOld(states0: seq<State>, steps0: seq<Step>, first: Clock, second: Clock)
    returns (states: seq<State>, steps: seq<Step>)
    requires TwoWrites(states0, steps0, first, second)
    ensures IsRun(states, steps) && states0 <= states && steps0 <= steps && Last(states).puts == states0[2].puts
    ensures |Last(states).gets| == |states0[2].gets| + 1
            && ReadGives(Last(states).gets[|states0[2].gets|], "k", {"c", "t", "u"}, 2, first)
  {
    var s := states0[2];
    UnsafeAfterTwo(s, first, second);
    var ts, us := UnsafeGetFalls(s, "k", second, {"c", "t", "u"}, 2);
    PathAppend(states0, steps0, ts, us);
    states, steps := states0 + ts[1..], steps0 + us;
    RunProvenance(states, steps);
    OldOneWon(s, Last(ts).gets[|s.gets|], first, second);
  }

  function ThreeCalls(first: Client.PutResult, second: Client.PutResult, third: Client.GetResult): seq<Client.Call> {
    [Client.PutCall("k", Some(first)), Client.PutCall("k", Some(second)), Client.GetCall("k", Some(third))]
  }

  lemma ThreeContexts(first: Client.PutResult, second: Client.PutResult, third: Client.GetResult)
    requires first.context.counters != map[] && second.context.counters != map[] && third.found
    ensures var calls := ThreeCalls(first, second, third);
            && ContextAt(calls, "k", 0) == EMPTY_CLOCK && ContextAt(calls, "k", 1) == first.context
            && ContextAt(calls, "k", 2) == second.context && ContextAt(calls, "k", 3) == third.context
  {
    var calls := ThreeCalls(first, second, third);
    assert Client.CacheAfter(calls, 1) == Client.AfterCall(Client.CacheAfter(calls, 0), calls[0]);
    assert Client.CacheAfter(calls, 2) == Client.AfterCall(Client.CacheAfter(calls, 1), calls[1]);
    assert Client.CacheAfter(calls, 3) == Client.AfterCall(Client.CacheAfter(calls, 2), calls[2]);
  }

  lemma PutServedAt(states: seq<State>, steps: seq<Step>, p: nat, context: Clock, answer: Client.PutResult)
    requires IsPath(states, steps) && p < |steps| && CommitsAt(states, steps, p, "k", context, answer.context)
    ensures PutServed(states, steps, Window(p, p + 1), "k", context, Some(answer))
  {
  }

  lemma GetServedAt(states: seq<State>, steps: seq<Step>, at: nat, owners: set<NodeId>, R: nat,
                    answer: Client.GetResult)
    requires IsPath(states, steps) && at <= |steps| && |states[at].gets| < |Last(states).gets|
    requires ReadGives(Last(states).gets[|states[at].gets|], "k", owners, R, answer.context)
    ensures GetServed(states, steps, Window(at, |steps|), "k", owners, R, Some(answer))
  {
    assert states[|steps|] == Last(states);
  }

  /** The failing session. A client puts twice, each Put sending what is cached, and then gets: the context it has
      cached goes strictly down, although the Get counted two of the three owners and W = R = 2 is a lawful
      configuration. */
  lemma StaleGetForgets() returns (states: seq<State>, steps: seq<Step>, calls: seq<Client.Call>, windows: seq<Window>)
    ensures Served(states, steps, calls, windows, "k") && Tame(Last(states).puts, "k") && |calls| == 3
    ensures calls[0].PutCall? && calls[1].PutCall? && calls[2].GetCall? && ValidQuorum(3, 2, 2)
    ensures windows[2].begin <= windows[2].end <= |steps|
            && GetServed(states, steps, windows[2], "k", {"c", "t", "u"}, 2, calls[2].getAnswer)
    ensures Lt(ContextAt(calls, "k", 3), ContextAt(calls, "k", 2))
  {
    var states0, steps0, first, second := CommitTwice();
    states, steps := ThenGetOld(states0, steps0, first, second);
    TwoAreTame(states0[2].puts, "k");
    var put1, put2 := Client.PutResult(false, 1, first), Client.PutResult(false, 1, second);
    var got := Client.GetResult(true, "1", 2, first);
    calls, windows := ThreeCalls(put1, put2, got), [Window(0, 1), Window(1, 2), Window(2, |steps|)];
    ThreeContexts(put1, put2, got);
    assert states[2] == states0[2] && CommitsAt(states, steps, 0, "k", EMPTY_CLOCK, first);
    assert CommitsAt(states, steps, 1, "k", first, second);
    PutServedAt(states, steps, 0, EMPTY_CLOCK, put1);
    PutServedAt(states, steps, 1, first, put2);
    GetServedAt(states, steps, 2, {"c", "t", "u"}, 2, got);
    GetServedAt(states, steps, 2, {}, 0, got);
    AllServed(states, steps, calls, windows);
  }

  lemma AllServed(states: seq<State>, steps: seq<Step>, calls: seq<Client.Call>, windows: seq<Window>)
    requires IsRun(states, steps) && |steps| >= 2 && |calls| == |windows| == 3
    requires windows[0] == Window(0, 1) && windows[1] == Window(1, 2) && windows[2] == Window(2, |steps|)
    requires calls[0].PutCall? && calls[1].PutCall? && calls[2].GetCall?
    requires PutServed(states, steps, windows[0], "k", ContextAt(calls, "k", 0), calls[0].putAnswer)
    requires PutServed(states, steps, windows[1], "k", ContextAt(calls, "k", 1), calls[1].putAnswer)
    requires GetServed(states, steps, windows[2], "k", {}, 0, calls[2].getAnswer)
    ensures Served(states, steps, calls, windows, "k")
  {
    forall k: nat | k < 3
      ensures ServedAt(states, steps, calls, windows, "k", k)
    {
      if k == 0 {
        assert ServedAt(states, steps, calls, windows, "k", 0);
      } else if k == 1 {
        assert ServedAt(states, steps, calls, windows, "k", 1);
      } else {
        assert ServedAt(states, steps, calls, windows, "k", 2);
      }
    }
  }
}
