/** Overlapping quorums: exactly when a later quorum read is sure to return a version at or above a given one, and what
    that makes of acknowledged writes. */
module QuorumReads {
  import opened Basics
  import opened VectorClocks
  import opened Resolution
  import opened Replica
  import opened ReadPath
  import opened Protocol
  import opened Counters
  import opened Durability

  // ---- reads along a path ----------------------------------------------------------

  /** What is present is at or above the clock `c`. */
  ghost predicate Reaches(c: Clock, present: Option<Versioned>) {
    present.Some? && Leq(c, present.value.clock)
  }

  /** The owners whose stores are at or above `c`. */
  ghost function Cover(s: State, key: Key, c: Clock, owners: set<NodeId>): set<NodeId> {
    set n | n in owners && Reaches(c, Lookup(s.store, Cell(n, key)))
  }

  /** What a read has heard from `cover` is at or above `c`, and so is its result if it counts one of them. */
  ghost predicate ReadReaches(r: Read, c: Clock, cover: set<NodeId>) {
    && (forall n :: n in cover && n in r.replies ==> Reaches(c, r.replies[n]))
    && (r.result.Some? ==> forall n :: n in cover && n in r.result.value.responders ==>
        Reaches(c, r.result.value.winner))
  }

  /** The stores of `cover` are at or above `c`, and so is what the reads from number `first` on heard from them. */
  ghost predicate Holding(s: State, key: Key, c: Clock, cover: set<NodeId>, first: nat) {
    && (forall n :: n in cover ==> Reaches(c, Lookup(s.store, Cell(n, key))))
    && (forall j :: first <= j < |s.gets| && s.gets[j].key == key ==> ReadReaches(s.gets[j], c, cover))
  }

  /** What every reachable state of a run tame for `key` satisfies. */
  ghost predicate Sound(s: State, key: Key) {
    Provenance(s) && Bounded(s.puts) && AllKept(s, key)
  }

  lemma RunIsSound(states: seq<State>, steps: seq<Step>, key: Key)
    requires IsRun(states, steps) && Tame(Last(states).puts, key)
    ensures Sound(Last(states), key)
  {
    RunProvenance(states, steps);
    RunBounded(states, steps);
    RunKeepsAll(states, steps, key);
  }

  /** Among comparable responses the winner covers each of them. */
  lemma WinnerCovers(answers: seq<ReplicaResult>, n: nat)
    requires n < |answers| && answers[n].version.Some?
    requires forall u, v :: u in Found(answers) && v in Found(answers) ==> Comparable(u.clock, v.clock)
    ensures Found(answers) != []
    ensures Covered(answers[n].version.value, Some(Resolve(Found(answers)).winner))
  {
    var found := Found(answers);
    FoundMembers(answers);
    var v := answers[n].version.value;
    assert v in found;
    WinnerMeaning(found);
    var p :| 0 <= p < |found| && found[p] == v;
    assert !Lt(Resolve(found).winner.clock, found[p].clock);
  }

  lemma FoundIsLogged(puts: seq<Put>, r: Read, responders: seq<NodeId>, v: Versioned)
    requires forall n :: n in responders ==> n in r.replies
    requires forall n :: n in r.replies && r.replies[n].Some? ==> Logged(puts, r.key, r.replies[n].value)
    requires v in Found(Answers(r, responders))
    ensures Logged(puts, r.key, v)
  {
    FoundMembers(Answers(r, responders));
    var j :| 0 <= j < |responders| && Answers(r, responders)[j].version == Some(v);
    assert responders[j] in r.replies;
  }

  lemma FinishReadReaches(puts: seq<Put>, r: Read, responders: seq<NodeId>, c: Clock, cover: set<NodeId>)
    requires ComparableLog(puts, r.key) && ReadLogged(puts, r) && ReadReaches(r, c, cover)
    requires forall n :: n in responders ==> n in r.replies
    ensures ReadReaches(r.(result := Some(Result(responders, WinnerOf(r, responders)))), c, cover)
  {
    var answers := Answers(r, responders);
    forall u, v | u in Found(answers) && v in Found(answers)
      ensures Comparable(u.clock, v.clock)
    {
      FoundIsLogged(puts, r, responders, u);
      FoundIsLogged(puts, r, responders, v);
      LoggedComparable(puts, r.key, u, v);
    }
    forall n | n in cover && n in responders
      ensures Reaches(c, WinnerOf(r, responders))
    {
      var j :| 0 <= j < |responders| && responders[j] == n;
      assert answers[j].version == r.replies[n];
      WinnerCovers(answers, j);
      LeqTransitive(c, r.replies[n].value.clock, WinnerOf(r, responders).value.clock);
    }
  }

  lemma GrewReaches(s: State, t: State, key: Key, c: Clock, n: NodeId)
    requires Grew(s, t, key) && Reaches(c, Lookup(s.store, Cell(n, key)))
    ensures Reaches(c, Lookup(t.store, Cell(n, key)))
  {
    var cell := Cell(n, key);
    assert Covered(s.store[cell], Lookup(t.store, cell));
    LeqTransitive(c, s.store[cell].clock, t.store[cell].clock);
  }

  lemma StepKeepsReads(s: State, step: Step, key: Key, c: Clock, cover: set<NodeId>, j: nat)
    requires Provenance(s) && Enabled(s, step) && Tame(s.puts, key)
    requires forall n :: n in cover ==> Reaches(c, Lookup(s.store, Cell(n, key)))
    requires j < |Do(s, step).gets| && Do(s, step).gets[j].key == key
    requires j < |s.gets| ==> ReadReaches(s.gets[j], c, cover)
    ensures ReadReaches(Do(s, step).gets[j], c, cover)
  {
    if j < |s.gets| && step.FinishRead? && step.read == j {
      assert ReadLogged(s.puts, s.gets[j]);
      FinishReadReaches(s.puts, s.gets[j], step.responders, c, cover);
    }
  }

  lemma StepKeepsHolding(s: State, step: Step, key: Key, c: Clock, cover: set<NodeId>, first: nat)
    requires Sound(s, key) && Enabled(s, step) && Tame(Do(s, step).puts, key)
    requires Holding(s, key, c, cover, first) && first <= |s.gets|
    ensures Holding(Do(s, step), key, c, cover, first)
  {
    var t := Do(s, step);
    StepGrew(s, step, key);
    forall n | n in cover ensures Reaches(c, Lookup(t.store, Cell(n, key))) { GrewReaches(s, t, key, c, n); }
    forall j | first <= j < |t.gets| && t.gets[j].key == key
      ensures ReadReaches(t.gets[j], c, cover)
    {
      if j < |s.gets| { StepKeepsKeys(s, step, j); }
      StepKeepsReads(s, step, key, c, cover, j);
    }
  }

  lemma StepKeepsKeys(s: State, step: Step, j: nat)
    requires Enabled(s, step) && j < |s.gets|
    ensures Do(s, step).gets[j].key == s.gets[j].key
  {
  }

  /** Soundness and the hold of `cover` survive any tame path. */
  lemma {:induction false} PathKeepsHolding(states: seq<State>, steps: seq<Step>, key: Key, c: Clock,
                                            cover: set<NodeId>)
    requires IsPath(states, steps) && Tame(Last(states).puts, key)
    requires Sound(states[0], key) && Holding(states[0], key, c, cover, |states[0].gets|)
    ensures Sound(Last(states), key) && Holding(Last(states), key, c, cover, |states[0].gets|)
    decreases |steps|
  {
    if steps != [] {
      var front, step := states[..|steps|], steps[|steps| - 1];
      PathPrefix(states, steps);
      PathGrows(front, steps[..|steps| - 1]);
      LogOnlyGrows(Last(front), step, key);
      PathKeepsHolding(front, steps[..|steps| - 1], key, c, cover);
      StepKeepsHolding(Last(front), step, key, c, cover, |states[0].gets|);
      StepKeepsProvenance(Last(front), step);
      StepKeepsBounded(Last(front), step);
      StepKeepsAll(Last(front), step, key);
    }
  }

  // ---- a read that hears from a chosen set --------------------------------------------

  function Members(ns: seq<NodeId>): set<NodeId> { set n | n in ns }

  lemma {:induction false} ListOf(s: set<NodeId>) returns (ns: seq<NodeId>)
    ensures Members(ns) == s
    ensures forall i, j :: 0 <= i < j < |ns| ==> ns[i] != ns[j]
  {
    if s == {} {
      ns := [];
    } else {
      var n :| n in s;
      var rest := ListOf(s - {n});
      ns := rest + [n];
      assert forall i :: 0 <= i < |rest| ==> rest[i] in Members(rest);
      assert Members(ns) == Members(rest) + {n};
    }
  }

  /** `t` differs from `s` by one read of `key` that has heard from exactly `heard`. */
  ghost predicate Heard(s: State, t: State, key: Key, heard: set<NodeId>) {
    && t.puts == s.puts && t.store == s.store && |t.gets| == |s.gets| + 1
    && var r := t.gets[|s.gets|];
       && r.key == key && r.result == None && r.replies.Keys == heard
       && forall n :: n in heard ==> r.replies[n] == Lookup(s.store, Cell(n, key))
  }

  lemma {:induction false} Hear(s: State, key: Key, order: seq<NodeId>) returns (ts: seq<State>, us: seq<Step>)
    requires forall i, j :: 0 <= i < j < |order| ==> order[i] != order[j]
    ensures IsPath(ts, us) && ts[0] == s && Heard(s, Last(ts), key, Members(order))
  {
    if order == [] {
      ts, us := [s, Do(s, StartRead(key))], [StartRead(key)];
    } else {
      var n := order[|order| - 1];
      ts, us := Hear(s, key, order[..|order| - 1]);
      var step := ReceiveReply(|s.gets|, n);
      var t := Last(ts);
      assert n !in order[..|order| - 1];
      assert order == order[..|order| - 1] + [n];
      PathExtends(ts, us, step);
      ts, us := ts + [Do(t, step)], us + [step];
      assert Members(order) == Members(order[..|order| - 1]) + {n};
    }
  }

  /** From any state a read of `key` can hear from exactly `heard`, undisturbed, and finish. */
  lemma ReadFrom(s: State, key: Key, heard: set<NodeId>) returns (ts: seq<State>, us: seq<Step>, r: Read)
    ensures IsPath(ts, us) && ts[0] == s && Last(ts).puts == s.puts && Last(ts).store == s.store
    ensures |Last(ts).gets| == |s.gets| + 1 && Last(ts).gets[|s.gets|] == r && r.key == key
    ensures r.result.Some? && Members(r.result.value.responders) == heard == r.replies.Keys
    ensures forall n :: n in heard ==> r.replies[n] == Lookup(s.store, Cell(n, key))
    ensures r.result.value.winner == WinnerOf(r, r.result.value.responders)
  {
    var order := ListOf(heard);
    ts, us := Hear(s, key, order);
    var t := Last(ts);
    var step := FinishRead(|s.gets|, order);
    assert forall n :: n in order ==> n in Members(order);
    PathExtends(ts, us, step);
    ts, us := ts + [Do(t, step)], us + [step];
    r := Last(ts).gets[|s.gets|];
  }

  /** The winner is one of the versions heard, and there is one as soon as anything was heard. */
  lemma WinnerWasHeard(r: Read, responders: seq<NodeId>) returns (n: NodeId)
    requires forall n :: n in responders ==> n in r.replies
    ensures WinnerOf(r, responders).Some? ==> n in responders && r.replies[n] == WinnerOf(r, responders)
    ensures WinnerOf(r, responders).None? ==> forall m :: m in responders ==> r.replies[m] == None
  {
    var answers := Answers(r, responders);
    var found := Found(answers);
    FoundMembers(answers);
    n := "";
    if found != [] {
      WinnerMeaning(found);
      var j :| 0 <= j < |answers| && answers[j].version == Some(Resolve(found).winner);
      n := responders[j];
    } else {
      forall m | m in responders
        ensures r.replies[m] == None
      {
        var j :| 0 <= j < |responders| && responders[j] == m;
        assert answers[j].version == r.replies[m];
      }
    }
  }

  // ---- overlapping quorums ---------------------------------------------------------------

  /** Two sets within `n` owners, of sizes `w` and `r` with w + r > n, meet. */
  lemma QuorumsMeet(owners: set<NodeId>, a: set<NodeId>, b: set<NodeId>, w: nat, r: nat) returns (n: NodeId)
    requires |a * owners| >= w && |b * owners| >= r && w + r > |owners|
    ensures n in a && n in b && n in owners
  {
    var x, y := a * owners, b * owners;
    if x * y == {} {
      assert |x + y| == |x| + |y|;
      assert x + y <= owners;
      SubsetSize(x + y, owners);
      assert false;
    }
    n :| n in x * y;
  }

  lemma SubsetSize(a: set<NodeId>, b: set<NodeId>)
    requires a <= b
    ensures |a| <= |b|
  {
    assert b == a + (b - a);
  }

  /** The configurations a node agrees to start with. */
  predicate ValidQuorum(N: int, W: int, R: int) {
    !(N < 1 || W < 1 || R < 1 || W > N || R > N || W + R <= N)
  }

  predicate Quorum(owners: set<NodeId>, a: set<NodeId>, size: nat) { a <= owners && |a| == size }

  lemma {:induction false} SubsetOfSize(s: set<NodeId>, size: nat) returns (a: set<NodeId>)
    requires size <= |s|
    ensures Quorum(s, a, size)
  {
    if size == |s| {
      a := s;
    } else {
      var n :| n in s;
      a := SubsetOfSize(s - {n}, size);
    }
  }

  /** The start-up check is exact: among the sizes it could admit it admits those for which no write quorum can miss a
      read quorum. */
  lemma QuorumCheckIsExact(owners: set<NodeId>, W: nat, R: nat)
    requires 1 <= W <= |owners| && 1 <= R <= |owners|
    ensures ValidQuorum(|owners|, W, R) <==>
            forall a, b :: Quorum(owners, a, W) && Quorum(owners, b, R) ==> a * b != {}
  {
    if ValidQuorum(|owners|, W, R) {
      forall a, b | Quorum(owners, a, W) && Quorum(owners, b, R)
        ensures a * b != {}
      {
        assert a * owners == a && b * owners == b;
        var n := QuorumsMeet(owners, a, b, W, R);
        assert n in a * b;
      }
    } else {
      var a := SubsetOfSize(owners, W);
      assert |owners - a| == |owners| - W;
      var b := SubsetOfSize(owners - a, R);
      assert Quorum(owners, b, R) && a * b == {};
    }
  }

  // ---- the exact condition ------------------------------------------------------------

  /** The read is finished and counted at least `R` of the owners. */
  ghost predicate HeardQuorum(r: Read, owners: set<NodeId>, R: nat) {
    r.result.Some? && |Members(r.result.value.responders) * owners| >= R
  }

  /** Every quorum read of `key` from number `first` on returned a version at or above `c`. */
  ghost predicate LateReadsReach(t: State, key: Key, c: Clock, owners: set<NodeId>, R: nat, first: nat) {
    forall j :: first <= j < |t.gets| && t.gets[j].key == key && HeardQuorum(t.gets[j], owners, R) ==>
      Reaches(c, t.gets[j].result.value.winner)
  }

  /** However the run goes on from `s`, as long as writes of `key` stay comparable, every quorum read that begins from
      now on returns a version at or above `c`. */
  ghost predicate ReadsWillReach(s: State, key: Key, c: Clock, owners: set<NodeId>, R: nat) {
    forall ts, us :: IsPath(ts, us) && ts[0] == s && Tame(Last(ts).puts, key) ==>
      LateReadsReach(Last(ts), key, c, owners, R, |s.gets|)
  }

  lemma CoverSuffices(s: State, key: Key, c: Clock, owners: set<NodeId>, R: nat, ts: seq<State>, us: seq<Step>)
    requires Sound(s, key) && IsPath(ts, us) && ts[0] == s && Tame(Last(ts).puts, key)
    requires |Cover(s, key, c, owners)| + R > |owners|
    ensures LateReadsReach(Last(ts), key, c, owners, R, |s.gets|)
  {
    var cover, t := Cover(s, key, c, owners), Last(ts);
    PathKeepsHolding(ts, us, key, c, cover);
    forall j | |s.gets| <= j < |t.gets| && t.gets[j].key == key && HeardQuorum(t.gets[j], owners, R)
      ensures Reaches(c, t.gets[j].result.value.winner)
    {
      var responders := t.gets[j].result.value.responders;
      assert cover * owners == cover;
      var n := QuorumsMeet(owners, cover, Members(responders), |cover|, R);
      assert ReadReaches(t.gets[j], c, cover);
    }
  }

  /** A read that hears only from nodes below `c` does not reach it. */
  lemma MissedRead(s: State, key: Key, c: Clock, heard: set<NodeId>) returns (ts: seq<State>, us: seq<Step>)
    requires forall n :: n in heard ==> !Reaches(c, Lookup(s.store, Cell(n, key)))
    ensures IsPath(ts, us) && ts[0] == s && Last(ts).puts == s.puts && |Last(ts).gets| == |s.gets| + 1
    ensures var r := Last(ts).gets[|s.gets|];
            && r.key == key && r.result.Some? && Members(r.result.value.responders) == heard
            && !Reaches(c, r.result.value.winner)
            && ((exists n :: n in heard && Cell(n, key) in s.store) ==> r.result.value.winner.Some?)
  {
    var r;
    ts, us, r := ReadFrom(s, key, heard);
    var responders := r.result.value.responders;
    assert forall n :: n in responders ==> n in Members(responders);
    assert forall n :: n in heard ==> n in Members(responders);
    var n := WinnerWasHeard(r, responders);
  }

  /** Exactly when quorum reads cannot be stale. In any reachable state with comparable writes of `key`: every quorum
      read begun from now on returns a version at or above `c`, under any delay, loss, duplication, reordering,
      hinting and repair, if and only if the owners already at or above `c` and any `R` owners must overlap. */
  lemma QuorumReadExact(states: seq<State>, steps: seq<Step>, key: Key, c: Clock, owners: set<NodeId>, R: nat)
    requires IsRun(states, steps) && Tame(Last(states).puts, key)
    ensures ReadsWillReach(Last(states), key, c, owners, R) <==> |Cover(Last(states), key, c, owners)| + R > |owners|
  {
    var s := Last(states);
    var cover := Cover(s, key, c, owners);
    RunIsSound(states, steps, key);
    if |cover| + R > |owners| {
      forall ts, us | IsPath(ts, us) && ts[0] == s && Tame(Last(ts).puts, key)
        ensures LateReadsReach(Last(ts), key, c, owners, R, |s.gets|)
      {
        CoverSuffices(s, key, c, owners, R, ts, us);
      }
    } else {
      var missed := Outside(owners, cover, R);
      var ts, us := MissedRead(s, key, c, missed);
      assert missed * owners == missed;
      assert HeardQuorum(Last(ts).gets[|s.gets|], owners, R);
      assert !LateReadsReach(Last(ts), key, c, owners, R, |s.gets|);
    }
  }

  /** Some `R` owners outside `cover`, when there are that many. */
  lemma Outside(owners: set<NodeId>, cover: set<NodeId>, R: nat) returns (missed: set<NodeId>)
    requires cover <= owners && |cover| + R <= |owners|
    ensures Quorum(owners, missed, R) && missed !! cover
  {
    assert |owners - cover| == |owners| - |cover|;
    missed := SubsetOfSize(owners - cover, R);
  }

  // ---- acknowledged writes ----------------------------------------------------------------

  /** The replicas that have directly acknowledged write `i` to its coordinator. */
  function Acknowledged(s: State, i: nat): set<NodeId> {
    set m | m in s.acks && m.Stored? && m.put == i :: m.replica
  }

  /** The owners that the acknowledgements of write `i` stand for, hinted ones included. */
  function StandsFor(s: State, i: nat): set<NodeId> {
    Acknowledged(s, i) + set m | m in s.acks && m.HeldFor? && m.put == i :: m.target
  }

  /** Direct acknowledgements are inside the cover. */
  lemma AcknowledgedCovers(s: State, i: nat, owners: set<NodeId>)
    requires i < |s.puts| && Sound(s, s.puts[i].key)
    ensures |Cover(s, s.puts[i].key, s.puts[i].version.clock, owners)| >= |Acknowledged(s, i) * owners|
  {
    var key, c := s.puts[i].key, s.puts[i].version.clock;
    forall n | n in Acknowledged(s, i) * owners
      ensures n in Cover(s, key, c, owners)
    {
      assert Stored(i, n) in s.net;
      assert MessageKept(s, key, Stored(i, n));
    }
    SubsetSize(Acknowledged(s, i) * owners, Cover(s, key, c, owners));
  }

  /** Quorum reads are never stale. In any run with comparable writes of a key, a read of it that begins after at
      least W of the owners had directly acknowledged a write, and counts at least R of them, returns a version at or
      above that write, provided W + R exceeds the number of owners. */
  lemma QuorumReadIsFresh(states: seq<State>, steps: seq<Step>, at: nat, i: nat, j: nat, owners: set<NodeId>, W: nat,
                          R: nat)
    requires IsRun(states, steps) && at <= |steps| && i < |states[at].puts|
    requires |Acknowledged(states[at], i) * owners| >= W && W + R > |owners|
    requires var s, key := Last(states), states[at].puts[i].key;
             && Tame(s.puts, key)
             && |states[at].gets| <= j < |s.gets| && s.gets[j].key == key && HeardQuorum(s.gets[j], owners, R)
    ensures i < |Last(states).puts| && Last(states).puts[i] == states[at].puts[i]
    ensures Covered(states[at].puts[i].version, Last(states).gets[j].result.value.winner)
  {
    var s, key := states[at], states[at].puts[i].key;
    RunSplits(states, steps, at);
    PathGrows(states[at..], steps[at..]);
    TameBefore(s.puts, Last(states).puts, key);
    RunIsSound(states[..at + 1], steps[..at], key);
    AcknowledgedCovers(s, i, owners);
    CoverSuffices(s, key, s.puts[i].version.clock, owners, R, states[at..], steps[at..]);
  }

  lemma TameBefore(puts: seq<Put>, more: seq<Put>, key: Key)
    requires puts <= more && Tame(more, key)
    ensures Tame(puts, key)
  {
    forall i, j | 0 <= i < |puts| && 0 <= j < |puts| && puts[i].key == key && puts[j].key == key
      ensures Comparable(puts[i].version.clock, puts[j].version.clock)
    {
      assert more[i] == puts[i] && more[j] == puts[j];
    }
  }

  // ---- no stand-ins ---------------------------------------------------------------------------

  /** The step gives nobody a copy of `key` to hold for somebody else. */
  ghost predicate MakesNoHint(s: State, step: Step, key: Key)
    requires Enabled(s, step)
  {
    match step
    case SendHint(put, _, _) => s.puts[put].key != key
    case CommitAsStandIn(_, _, k, _, _, _) => k != key
    case _ => true
  }

  ghost predicate NoHintsMade(states: seq<State>, steps: seq<Step>, key: Key)
    requires IsRun(states, steps)
  {
    forall i {:trigger steps[i]} :: 0 <= i < |steps| ==>
        Enabled(states[i], steps[i]) && MakesNoHint(states[i], steps[i], key)
  }

  ghost predicate NoHintsAbout(s: State, key: Key) {
    forall m :: m in s.net && (m.Hint? || m.HeldFor?) ==> m.put < |s.puts| && s.puts[m.put].key != key
  }

  lemma {:induction false} RunHasNoHints(states: seq<State>, steps: seq<Step>, key: Key)
    requires IsRun(states, steps) && NoHintsMade(states, steps, key)
    ensures NoHintsAbout(Last(states), key)
    decreases |steps|
  {
    if steps != [] {
      var front, step := states[..|steps|], steps[|steps| - 1];
      RunPrefix(states, steps);
      assert forall i {:trigger steps[i]} :: 0 <= i < |steps| - 1 ==> steps[..|steps| - 1][i] == steps[i];
      RunHasNoHints(front, steps[..|steps| - 1], key);
      assert MakesNoHint(Last(front), step, key);
      StepMakesNoHint(Last(front), step, key);
    }
  }

  lemma StepMakesNoHint(s: State, step: Step, key: Key)
    requires Enabled(s, step) && MakesNoHint(s, step, key) && NoHintsAbout(s, key)
    ensures NoHintsAbout(Do(s, step), key)
  {
  }

  /** Strict quorums. When no hint is ever made for the key, counting acknowledgements by the owners they stand for,
      as the coordinator does, is enough: a read begun after W of them, and counting R owners, is not stale. */
  lemma StrictQuorumReadIsFresh(states: seq<State>, steps: seq<Step>, at: nat, i: nat, j: nat, owners: set<NodeId>,
                                W: nat, R: nat)
    requires IsRun(states, steps) && at <= |steps| && i < |states[at].puts|
    requires NoHintsMade(states, steps, states[at].puts[i].key)
    requires |StandsFor(states[at], i) * owners| >= W && W + R > |owners|
    requires var s, key := Last(states), states[at].puts[i].key;
             && Tame(s.puts, key)
             && |states[at].gets| <= j < |s.gets| && s.gets[j].key == key && HeardQuorum(s.gets[j], owners, R)
    ensures Covered(states[at].puts[i].version, Last(states).gets[j].result.value.winner)
  {
    var s, key := states[at], states[at].puts[i].key;
    RunSplits(states, steps, at);
    assert forall k {:trigger steps[..at][k]} :: 0 <= k < at ==> steps[..at][k] == steps[k];
    RunHasNoHints(states[..at + 1], steps[..at], key);
    RunProvenance(states[..at + 1], steps[..at]);
    assert StandsFor(s, i) == Acknowledged(s, i);
    QuorumReadIsFresh(states, steps, at, i, j, owners, W, R);
  }

  // ---- one committing owner -----------------------------------------------------------------

  /** Every write of `key` was committed at `c`, as a natural owner. */
  ghost predicate OneCommitter(puts: seq<Put>, key: Key, c: NodeId) {
    forall i :: 0 <= i < |puts| && puts[i].key == key ==> puts[i].coordinator == c && puts[i].standIn == None
  }

  /** The writes of `key` form a strictly increasing chain in commit order. */
  ghost predicate Chain(puts: seq<Put>, key: Key) {
    forall i, j :: 0 <= i < j < |puts| && puts[i].key == key && puts[j].key == key ==>
      Lt(puts[i].version.clock, puts[j].version.clock)
  }

  /** The committing owner's store is at or above every write of the key. */
  ghost predicate CommitterLeads(s: State, key: Key, c: NodeId) {
    forall i :: 0 <= i < |s.puts| && s.puts[i].key == key ==> Covered(s.puts[i].version, Lookup(s.store, Cell(c, key)))
  }

  lemma ChainAppend(puts: seq<Put>, p: Put, key: Key)
    requires Chain(puts, key)
    requires forall i :: 0 <= i < |puts| && puts[i].key == key ==> Lt(puts[i].version.clock, p.version.clock)
    ensures Chain(puts + [p], key)
  {
  }

  /** What the committing owner writes next is above everything written so far. */
  lemma CommitIsAbove(s: State, key: Key, c: NodeId, context: Clock, now: int)
    requires Provenance(s) && Bounded(s.puts) && CommitterLeads(s, key, c)
    requires HonestContext(s, key, context) && |s.puts| < COUNTER_LIMIT - 1
    ensures var v := NewClock(Some(context), ClockOf(Lookup(s.store, Cell(c, key))), c, now);
            forall i :: 0 <= i < |s.puts| && s.puts[i].key == key ==> Lt(s.puts[i].version.clock, v)
  {
    var present := Lookup(s.store, Cell(c, key));
    var v := NewClock(Some(context), ClockOf(present), c, now);
    BuildsAtMostAll(s.puts, c);
    NoWrap(s, c, key, context, present, now);
    forall i | 0 <= i < |s.puts| && s.puts[i].key == key
      ensures Lt(s.puts[i].version.clock, v)
    {
      LeqTransitive(s.puts[i].version.clock, present.value.clock, v);
    }
  }

  lemma CommitExtendsChain(s: State, step: Step, key: Key, c: NodeId)
    requires Provenance(s) && Bounded(s.puts) && Chain(s.puts, key) && CommitterLeads(s, key, c)
    requires step.Commit? && Enabled(s, step) && step.key == key && step.node == c && |s.puts| < COUNTER_LIMIT - 1
    ensures Chain(Do(s, step).puts, key) && CommitterLeads(Do(s, step), key, c)
  {
    var v := CommitVersion(Lookup(s.store, Cell(c, key)), step.value, Some(step.context), c, step.now);
    CommitIsAbove(s, key, c, step.context, step.now);
    LeqReflexive(v.clock);
    ChainAppend(s.puts, Put(key, c, v, None), key);
    assert Do(s, step).puts == s.puts + [Put(key, c, v, None)];
  }

  /** Writes of other keys leave the chain and the lead alone. */
  lemma OtherKeyKeepsChain(s: State, step: Step, key: Key, c: NodeId)
    requires Chain(s.puts, key) && CommitterLeads(s, key, c)
    requires (step.Commit? || step.CommitAsStandIn?) && step.key != key && Enabled(s, step)
    ensures Chain(Do(s, step).puts, key) && CommitterLeads(Do(s, step), key, c)
  {
  }

  /** Replicated writes and repairs never displace the committing owner's version: they are all at or below it. */
  lemma ReceiveWriteKeepsLead(s: State, step: Step, key: Key, c: NodeId)
    requires Provenance(s) && CommitterLeads(s, key, c) && step.ReceiveWrite? && Enabled(s, step)
    ensures CommitterLeads(Do(s, step), key, c)
  {
    var w := step.write;
    assert MessageLogged(s.puts, w);
    if w.dest == c && w.key == key {
      var i: nat :| i < |s.puts| && s.puts[i].key == key && s.puts[i].version == w.version;
      ReplicaRule(s.store[Cell(c, key)], w.version);
    }
  }

  lemma StepKeepsChain(s: State, step: Step, key: Key, c: NodeId)
    requires Provenance(s) && Bounded(s.puts) && Enabled(s, step)
    requires OneCommitter(Do(s, step).puts, key, c) && |Do(s, step).puts| < COUNTER_LIMIT
    requires Chain(s.puts, key) && CommitterLeads(s, key, c)
    ensures Chain(Do(s, step).puts, key) && CommitterLeads(Do(s, step), key, c)
  {
    if step.Commit? || step.CommitAsStandIn? {
      if step.key != key {
        OtherKeyKeepsChain(s, step, key, c);
      } else {
        var p := Do(s, step).puts[|s.puts|];
        assert p.coordinator == c && p.standIn == None;
        CommitExtendsChain(s, step, key, c);
      }
    } else if step.ReceiveWrite? {
      ReceiveWriteKeepsLead(s, step, key, c);
    }
  }

  lemma {:induction false} RunKeepsChain(states: seq<State>, steps: seq<Step>, key: Key, c: NodeId)
    requires IsRun(states, steps) && OneCommitter(Last(states).puts, key, c) && |Last(states).puts| < COUNTER_LIMIT
    ensures Chain(Last(states).puts, key) && CommitterLeads(Last(states), key, c)
    decreases |steps|
  {
    if steps != [] {
      var front, last := states[..|steps|], steps[..|steps| - 1];
      RunPrefix(states, steps);
      RunProvenance(front, last);
      RunBounded(front, last);
      CommitterBefore(Last(front), steps[|steps| - 1], key, c);
      RunKeepsChain(front, last, key, c);
      StepKeepsChain(Last(front), steps[|steps| - 1], key, c);
    }
  }

  lemma CommitterBefore(s: State, step: Step, key: Key, c: NodeId)
    requires Enabled(s, step) && OneCommitter(Do(s, step).puts, key, c)
    ensures OneCommitter(s.puts, key, c) && |s.puts| <= |Do(s, step).puts|
  {
    var t := Do(s, step);
    assert forall i :: 0 <= i < |s.puts| ==> t.puts[i] == s.puts[i];
  }

  lemma ChainIsComparable(puts: seq<Put>, key: Key)
    requires Chain(puts, key)
    ensures ComparableLog(puts, key)
  {
    forall i, j | 0 <= i < |puts| && 0 <= j < |puts| && puts[i].key == key && puts[j].key == key
      ensures Comparable(puts[i].version.clock, puts[j].version.clock)
    {
      if i == j { LeqReflexive(puts[i].version.clock); }
    }
  }

  /** With one committing owner, a quorum read returns exactly the version of some write of the key, no older in commit
      order than any write that had its quorum of direct acknowledgements before the read began. */
  lemma QuorumReadReturnsRecentWrite(states: seq<State>, steps: seq<Step>, at: nat, i: nat, j: nat, c: NodeId,
                                     owners: set<NodeId>, W: nat, R: nat) returns (k: nat)
    requires IsRun(states, steps) && at <= |steps| && i < |states[at].puts|
    requires |Acknowledged(states[at], i) * owners| >= W && W + R > |owners|
    requires var s, key := Last(states), states[at].puts[i].key;
             && OneCommitter(s.puts, key, c) && |s.puts| < COUNTER_LIMIT
             && |states[at].gets| <= j < |s.gets| && s.gets[j].key == key && HeardQuorum(s.gets[j], owners, R)
    ensures var s := Last(states);
            && i <= k < |s.puts| && s.puts[k].key == s.gets[j].key
            && s.gets[j].result.value.winner == Some(s.puts[k].version)
  {
    var s := Last(states);
    var r := s.gets[j];
    RunKeepsChain(states, steps, r.key, c);
    ChainIsComparable(s.puts, r.key);
    QuorumReadIsFresh(states, steps, at, i, j, owners, W, R);
    RunProvenance(states, steps);
    assert ReadLogged(s.puts, r);
    k :| k < |s.puts| && s.puts[k].key == r.key && s.puts[k].version == r.result.value.winner.value;
    assert k < i ==> Lt(s.puts[k].version.clock, s.puts[i].version.clock);
  }

  // ---- sloppy quorums are weaker -----------------------------------------------------------------

  /** Owner c commits and sends its copy for owner t to x. */
  lemma SloppyCommit() returns (states: seq<State>, steps: seq<Step>)
    ensures IsRun(states, steps)
    ensures var s := Last(states);
            && |s.puts| == 1 && s.puts[0].key == "k" && s.store.Keys == {Cell("c", "k")} && s.held == map[]
            && Hint("x", "t", 0) in s.net && s.acks == {Stored(0, "c")}
  {
    states, steps := [Initial], [];
    var s := Initial;
    var step := Step.Commit("c", "k", "v", EMPTY_CLOCK, 1);
    PathExtends(states, steps, step);
    s, states, steps := Do(s, step), states + [Do(s, step)], steps + [step];
    assert s.store.Keys == {Cell("c", "k")};
    step := SendHint(0, "x", "t");
    PathExtends(states, steps, step);
    states, steps := states + [Do(s, step)], steps + [step];
  }

  /** x holds the copy as a hint, and its acknowledgement reaches the coordinator. */
  lemma SloppyWrite() returns (states: seq<State>, steps: seq<Step>)
    ensures IsRun(states, steps)
    ensures Last(states).acks == {Stored(0, "c"), HeldFor(0, "x", "t")}
    ensures |Last(states).puts| == 1 && Last(states).puts[0].key == "k" && Last(states).store.Keys == {Cell("c", "k")}
  {
    states, steps := SloppyCommit();
    var s := Last(states);
    var step := ReceiveHint(Hint("x", "t", 0));
    PathExtends(states, steps, step);
    s, states, steps := Do(s, step), states + [Do(s, step)], steps + [step];
    step := ReceiveAck(HeldFor(0, "x", "t"));
    PathExtends(states, steps, step);
    states, steps := states + [Do(s, step)], steps + [step];
  }

  /** A hinted acknowledgement does not count towards freshness. Owners c, t, u, with W = R = 2: the write has
      acknowledgements that stand for c and t, the latter through a hint at x, which is no owner; a read of two owners
      may still miss it. */
  lemma SloppyAcksAllowStaleRead() returns (states: seq<State>, steps: seq<Step>)
    ensures IsRun(states, steps)
    ensures var s, owners := Last(states), {"c", "t", "u"};
            && |s.puts| == 1 && s.puts[0].key == "k" && Tame(s.puts, "k")
            && StandsFor(s, 0) == {"c", "t"} && HeldFor(0, "x", "t") in s.acks && "x" !in owners
            && ValidQuorum(|owners|, 2, 2) && |StandsFor(s, 0) * owners| == 2
            && !ReadsWillReach(s, "k", s.puts[0].version.clock, owners, 2)
  {
    states, steps := SloppyWrite();
    var s, owners := Last(states), {"c", "t", "u"};
    LeqReflexive(s.puts[0].version.clock);
    StandsForBoth(s);
    assert StandsFor(s, 0) * owners == {"c", "t"};
    assert Cover(s, "k", s.puts[0].version.clock, owners) <= {"c"};
    SubsetSize(Cover(s, "k", s.puts[0].version.clock, owners), {"c"});
    QuorumReadExact(states, steps, "k", s.puts[0].version.clock, owners, 2);
  }

  lemma StandsForBoth(s: State)
    requires s.acks == {Stored(0, "c"), HeldFor(0, "x", "t")}
    ensures StandsFor(s, 0) == {"c", "t"}
  {
    assert Stored(0, "c") in s.acks && HeldFor(0, "x", "t") in s.acks;
  }
}
