/** A coordinated write: the local commit, one fan-out worker per remaining entry of the preference list, and the
    search for substitutes when a target fails (node_kv.cpp). */
module PutPath {
  import opened Basics
  import opened VectorClocks
  import opened Ring
  import opened RingWalk
  import opened Placement
  import opened Replica
  import opened KvNodes

  /** A node counts as reachable while it is not marked. */
  function Up(marks: set<NodeId>): NodeId -> bool { n => n !in marks }

  // ---- the substitute search ------------------------------------------------

  /** A node the search may pick. */
  predicate Eligible(n: NodeId, marks: set<NodeId>, excluded: set<NodeId>, trueOwner: NodeId) {
    n !in marks && n !in excluded && n != trueOwner
  }

  /** The node is eligible, and owns a position with no eligible node at any position nearer the key. */
  ghost predicate IsSubstitute(ring: Ring, keyHash: Token, marks: set<NodeId>, excluded: set<NodeId>, trueOwner: NodeId,
                               n: NodeId)
  {
    && Eligible(n, marks, excluded, trueOwner)
    && exists t :: t in ring && ring[t] == n
         && forall u :: u in ring && Distance(keyHash, u) < Distance(keyHash, t) ==>
             !Eligible(ring[u], marks, excluded, trueOwner)
  }

  /** The search finds the substitute, and none only when no node on the ring is eligible. */
  method FindSubstitute(ring: Ring, keyHash: Token, trueOwner: NodeId, marks: set<NodeId>, excluded: set<NodeId>)
    returns (substitute: Option<NodeId>)
    ensures substitute == None <==> forall n :: n in ring.Values ==> !Eligible(n, marks, excluded, trueOwner)
    ensures substitute.Some? ==> IsSubstitute(ring, keyHash, marks, excluded, trueOwner, substitute.value)
  {
    var up := n => Eligible(n, marks, excluded, trueOwner);
    var result := PreferenceList(ring, keyHash, 1, up);
    ghost var ds := NodesFrom(ring, keyHash);
    ListedNodes(ds, 1, up);
    FilterMembers(ds, up, true);
    if result == [] {
      assert Filter(ds, up, true) == [];
      forall n | n in ring.Values
        ensures !Eligible(n, marks, excluded, trueOwner)
      {
        assert n in ds;
        assert up(n) ==> n in Filter(ds, up, true);
      }
      return None;
    }
    assert Nodes(result)[0] == Filter(ds, up, true)[0];
    substitute := Some(result[0].nodeId);
    var t := FirstKeptIsNearest(ring, keyHash, up);
  }

  // ---- one fan-out worker ----------------------------------------------------

  // What a worker meets at each attempt, decided by the network and by the other threads of the node: how the call
  // ends, and the ring and unreachable marks in force when it then looks for a substitute.
  datatype Attempt = Attempt(outcome: RpcOutcome, ring: Ring, marks: set<NodeId>)

  // How a worker ends: whether it was acknowledged, every node it contacted in order, those that did not answer, and
  // what it sent to each.
  datatype WorkerResult = WorkerResult(acked: bool, contacted: seq<NodeId>, hinted: bool, unanswered: set<NodeId>,
                                       sent: seq<WriteRequest>)

  /** The request of attempt `k`: the write itself, labelled with the owner it is for unless it goes to the owner. */
  function RequestAt(entry: PreferenceEntry, write: WriteRequest, k: nat): WriteRequest {
    write.(hintFor := if k > 0 || entry.hintFor.Some? then Some(TrueOwner(entry)) else None)
  }

  function Requests(entry: PreferenceEntry, write: WriteRequest, n: nat): seq<WriteRequest> {
    seq(n, k requires 0 <= k < n => RequestAt(entry, write, k))
  }

  lemma RequestsNext(entry: PreferenceEntry, write: WriteRequest, n: nat)
    ensures Requests(entry, write, n + 1) == Requests(entry, write, n) + [RequestAt(entry, write, n)]
  {
  }

  function Excluded(listed: set<NodeId>, contacted: seq<NodeId>): set<NodeId> { listed + set n | n in contacted }

  /** The nodes contacted start with the entry's own, never repeat, and go on only to nodes outside the list. */
  ghost predicate Fresh(entry: PreferenceEntry, listed: set<NodeId>, contacted: seq<NodeId>) {
    && contacted != [] && contacted[0] == entry.nodeId
    && AllDifferent(contacted)
    && forall i :: 0 < i < |contacted| ==> contacted[i] !in listed && contacted[i] != TrueOwner(entry)
  }

  /** `n` is the substitute the search finds once `contacted` have failed, on the ring and marks then in force. */
  ghost predicate Next(entry: PreferenceEntry, listed: set<NodeId>, keyHash: Token, env: nat -> Attempt,
                       contacted: seq<NodeId>, n: NodeId)
    requires contacted != []
  {
    var last := env(|contacted| - 1);
    IsSubstitute(last.ring, keyHash, last.marks, Excluded(listed, contacted), TrueOwner(entry), n)
  }

  /** Every contact after the first is the substitute the search finds at that moment. */
  ghost predicate Trail(entry: PreferenceEntry, listed: set<NodeId>, keyHash: Token, env: nat -> Attempt,
                        contacted: seq<NodeId>)
  {
    |contacted| > 1 ==>
      var front, last := contacted[..|contacted| - 1], contacted[|contacted| - 1];
      Trail(entry, listed, keyHash, env, front) && Next(entry, listed, keyHash, env, front, last)
  }

  lemma FreshGrows(entry: PreferenceEntry, listed: set<NodeId>, contacted: seq<NodeId>, n: NodeId)
    requires Fresh(entry, listed, contacted)
    requires n !in contacted && n !in listed && n != TrueOwner(entry)
    ensures Fresh(entry, listed, contacted + [n])
  {
    var longer := contacted + [n];
    forall i, j | 0 <= i < j < |longer|
      ensures longer[i] != longer[j]
    {
      assert contacted[i] in contacted;
    }
  }

  lemma TrailGrows(entry: PreferenceEntry, listed: set<NodeId>, keyHash: Token, env: nat -> Attempt,
                   contacted: seq<NodeId>, n: NodeId)
    requires Trail(entry, listed, keyHash, env, contacted) && contacted != []
    requires Next(entry, listed, keyHash, env, contacted, n)
    ensures Trail(entry, listed, keyHash, env, contacted + [n])
  {
    assert (contacted + [n])[..|contacted|] == contacted;
  }

  lemma {:induction false} TrailPrefix(entry: PreferenceEntry, listed: set<NodeId>, keyHash: Token, env: nat -> Attempt,
                                       contacted: seq<NodeId>, k: nat)
    requires Trail(entry, listed, keyHash, env, contacted) && k <= |contacted|
    ensures Trail(entry, listed, keyHash, env, contacted[..k])
  {
    if k == |contacted| {
      assert contacted[..k] == contacted;
    } else if |contacted| > 1 {
      var front := contacted[..|contacted| - 1];
      TrailPrefix(entry, listed, keyHash, env, front, k);
      assert front[..k] == contacted[..k];
    }
  }

  /** Every node then on the ring was listed, already contacted, the owner itself, or marked unreachable. */
  ghost predicate GivesUp(entry: PreferenceEntry, listed: set<NodeId>, env: nat -> Attempt, contacted: seq<NodeId>)
    requires contacted != []
  {
    var last := env(|contacted| - 1);
    forall n :: n in last.ring.Values ==> n in last.marks || n in listed || n in contacted || n == TrueOwner(entry)
  }

  /** The nodes whose call ended without an answer. */
  function NoAnswer(env: nat -> Attempt, contacted: seq<NodeId>): set<NodeId> {
    set k: nat | k < |contacted| && env(k).outcome == TransportFailure :: contacted[k]
  }

  lemma NoAnswerLast(env: nat -> Attempt, contacted: seq<NodeId>)
    requires contacted != []
    ensures var front, last := contacted[..|contacted| - 1], contacted[|contacted| - 1];
            NoAnswer(env, contacted) ==
              if env(|front|).outcome == TransportFailure then NoAnswer(env, front) + {last} else NoAnswer(env, front)
  {
    var front, last := contacted[..|contacted| - 1], contacted[|contacted| - 1];
    forall m
      ensures m in NoAnswer(env, contacted) <==>
                m in NoAnswer(env, front) || (env(|front|).outcome == TransportFailure && m == last)
    {
      if m in NoAnswer(env, front) {
        var k: nat :| k < |front| && env(k).outcome == TransportFailure && front[k] == m;
        assert contacted[k] == m;
      }
      if env(|front|).outcome == TransportFailure && m == last { assert contacted[|front|] == m; }
    }
  }

  /** How a worker ends: it stops at the first acceptance, and gives up only when nobody is left. */
  ghost predicate WorkerDone(entry: PreferenceEntry, listed: set<NodeId>, keyHash: Token, env: nat -> Attempt,
                             r: WorkerResult)
  {
    && Fresh(entry, listed, r.contacted)
    && Trail(entry, listed, keyHash, env, r.contacted)
    && (r.acked <==> env(|r.contacted| - 1).outcome == Accepted)
    && (forall k: nat :: k < |r.contacted| - 1 ==> env(k).outcome != Accepted)
    && (r.hinted <==> entry.hintFor.Some? || |r.contacted| > 1)
    && (!r.acked ==> GivesUp(entry, listed, env, r.contacted))
    && r.unanswered == NoAnswer(env, r.contacted)
  }

  /** An acknowledgement that is not hinted comes from the true owner, on the first attempt. */
  lemma DirectAck(entry: PreferenceEntry, listed: set<NodeId>, keyHash: Token, env: nat -> Attempt, r: WorkerResult)
    requires WorkerDone(entry, listed, keyHash, env, r) && r.acked
    ensures !r.hinted <==> r.contacted == [TrueOwner(entry)] && entry.hintFor.None?
  {
  }

  /** The worker's variables while it is at work: it is about to contact, or has just contacted, `target`. */
  ghost predicate Underway(entry: PreferenceEntry, listed: set<NodeId>, keyHash: Token, env: nat -> Attempt,
                           target: NodeId, excluded: set<NodeId>, hinted: bool, unanswered: set<NodeId>,
                           contacted: seq<NodeId>)
  {
    && Fresh(entry, listed, contacted) && Trail(entry, listed, keyHash, env, contacted)
    && (forall k: nat :: k < |contacted| - 1 ==> env(k).outcome != Accepted)
    && target == contacted[|contacted| - 1]
    && (forall n :: n in excluded || n == target <==> n in listed || n in contacted)
    && (hinted <==> entry.hintFor.Some? || |contacted| > 1)
    && unanswered == NoAnswer(env, contacted[..|contacted| - 1])
  }

  /** Contacts the entry's node, then substitutes, until one accepts or none is left. The script `env` is arbitrary
      except that the rings it shows are populated from a finite set of nodes, which is what bounds the search. */
  method ReplicateToOwner(entry: PreferenceEntry, write: WriteRequest, keyHash: Token, listed: set<NodeId>,
                          env: nat -> Attempt, ghost cluster: set<NodeId>)
    returns (r: WorkerResult)
    requires entry.nodeId in listed
    requires forall k :: env(k).ring.Values <= cluster
    ensures WorkerDone(entry, listed, keyHash, env, r)
    ensures r.sent == Requests(entry, write, |r.contacted|)
  {
    var trueOwner := TrueOwner(entry);
    var target := entry.nodeId;
    var excluded := listed;
    var hinted := entry.hintFor.Some?;
    var contacted := [target];
    var unanswered := {};
    var sent := [write.(hintFor := if hinted then Some(trueOwner) else None)];
    while env(|contacted| - 1).outcome != Accepted
      invariant |contacted| > 0
      invariant Underway(entry, listed, keyHash, env, target, excluded, hinted, unanswered, contacted)
      invariant sent == Requests(entry, write, |contacted|)
      decreases cluster - Excluded(listed, contacted)
    {
      var substitute;
      substitute, excluded, unanswered :=
        NextTarget(entry, listed, keyHash, env, target, excluded, hinted, unanswered, contacted, sent, cluster);
      if substitute == None {
        return WorkerResult(false, contacted, hinted, unanswered, sent);
      }
      target := substitute.value;
      RequestsNext(entry, write, |contacted|);
      contacted := contacted + [target];
      hinted := true;
      sent := sent + [write.(hintFor := Some(trueOwner))];
    }
    NoAnswerLast(env, contacted);
    r := WorkerResult(true, contacted, hinted, unanswered, sent);
  }

  lemma UnderwayGrows(entry: PreferenceEntry, listed: set<NodeId>, keyHash: Token, env: nat -> Attempt, target: NodeId,
                      excluded: set<NodeId>, hinted: bool, unanswered: set<NodeId>, contacted: seq<NodeId>, n: NodeId)
    requires Underway(entry, listed, keyHash, env, target, excluded, hinted, unanswered, contacted)
    requires env(|contacted| - 1).outcome != Accepted
    requires n !in contacted && n !in listed && n != TrueOwner(entry) && Next(entry, listed, keyHash, env, contacted, n)
    ensures Underway(entry, listed, keyHash, env, n, excluded + {target}, true, NoAnswer(env, contacted),
        contacted + [n])
  {
    assert (contacted + [n])[..|contacted|] == contacted;
    FreshGrows(entry, listed, contacted, n);
    TrailGrows(entry, listed, keyHash, env, contacted, n);
  }

  /** What a worker knows after a failed attempt: its exclusions and the unanswered calls, brought up to date. */
  lemma AfterAttempt(entry: PreferenceEntry, listed: set<NodeId>, keyHash: Token, env: nat -> Attempt, target: NodeId,
                     excluded: set<NodeId>, hinted: bool, unanswered: set<NodeId>, contacted: seq<NodeId>)
    requires Underway(entry, listed, keyHash, env, target, excluded, hinted, unanswered, contacted)
    ensures excluded + {target} == Excluded(listed, contacted)
    ensures NoAnswer(env, contacted) ==
              if env(|contacted| - 1).outcome == TransportFailure then unanswered + {target} else unanswered
  {
    NoAnswerLast(env, contacted);
  }

  lemma ExclusionShrinksRoom(cluster: set<NodeId>, listed: set<NodeId>, contacted: seq<NodeId>, n: NodeId)
    requires n in cluster && n !in Excluded(listed, contacted)
    ensures cluster - Excluded(listed, contacted + [n]) < cluster - Excluded(listed, contacted)
  {
    assert n in Excluded(listed, contacted + [n]);
    assert n in cluster - Excluded(listed, contacted);
  }

  lemma WorkerGivesUp(entry: PreferenceEntry, listed: set<NodeId>, keyHash: Token, env: nat -> Attempt, target: NodeId,
                      excluded: set<NodeId>, hinted: bool, unanswered: set<NodeId>, contacted: seq<NodeId>,
                      sent: seq<WriteRequest>)
    requires Underway(entry, listed, keyHash, env, target, excluded, hinted, unanswered, contacted)
    requires var last := env(|contacted| - 1);
             && last.outcome != Accepted
             && forall n :: n in last.ring.Values ==>
                  !Eligible(n, last.marks, Excluded(listed, contacted), TrueOwner(entry))
    ensures WorkerDone(entry, listed, keyHash, env,
                       WorkerResult(false, contacted, hinted, NoAnswer(env, contacted), sent))
  {
    var last := env(|contacted| - 1);
    forall n | n in last.ring.Values
      ensures n in last.marks || n in listed || n in contacted || n == TrueOwner(entry)
    {
      assert !Eligible(n, last.marks, Excluded(listed, contacted), TrueOwner(entry));
    }
  }

  /** After a failed attempt: the target is noted if it did not answer and excluded, and the next node to contact is
      looked for. */
  method NextTarget(entry: PreferenceEntry, listed: set<NodeId>, keyHash: Token, env: nat -> Attempt, target: NodeId,
                    excluded: set<NodeId>, hinted: bool, unanswered: set<NodeId>, contacted: seq<NodeId>,
                    ghost sent: seq<WriteRequest>, ghost cluster: set<NodeId>)
    returns (substitute: Option<NodeId>, more: set<NodeId>, silent: set<NodeId>)
    requires Underway(entry, listed, keyHash, env, target, excluded, hinted, unanswered, contacted)
    requires env(|contacted| - 1).outcome != Accepted && env(|contacted| - 1).ring.Values <= cluster
    ensures more == excluded + {target}
    ensures substitute == None ==>
              WorkerDone(entry, listed, keyHash, env, WorkerResult(false, contacted, hinted, silent, sent))
    ensures substitute.Some? ==>
              && Underway(entry, listed, keyHash, env, substitute.value, more, true, silent,
                          contacted + [substitute.value])
              && cluster - Excluded(listed, contacted + [substitute.value]) < cluster - Excluded(listed, contacted)
  {
    var attempt := env(|contacted| - 1);
    silent := if attempt.outcome == TransportFailure then unanswered + {target} else unanswered;
    more := excluded + {target};
    AfterAttempt(entry, listed, keyHash, env, target, excluded, hinted, unanswered, contacted);
    substitute := FindSubstitute(attempt.ring, keyHash, TrueOwner(entry), attempt.marks, more);
    if substitute == None {
      WorkerGivesUp(entry, listed, keyHash, env, target, excluded, hinted, unanswered, contacted, sent);
    } else {
      SubstituteIsOnRing(attempt.ring, keyHash, attempt.marks, more, TrueOwner(entry), substitute.value);
      ExclusionShrinksRoom(cluster, listed, contacted, substitute.value);
      UnderwayGrows(entry, listed, keyHash, env, target, excluded, hinted, unanswered, contacted, substitute.value);
    }
  }

  // ---- the coordinator ---------------------------------------------------------

  datatype PutReply = PutReply(success: bool, acks: nat, context: Clock)

  function CountTrue(bs: seq<bool>): nat {
    if bs == [] then 0
    else CountTrue(bs[..|bs| - 1]) + (if bs[|bs| - 1] then 1 else 0)
  }

  lemma CountAppend(bs: seq<bool>, b: bool)
    ensures CountTrue(bs + [b]) == CountTrue(bs) + (if b then 1 else 0)
  {
    assert (bs + [b])[..|bs|] == bs;
  }

  /** The replicas whose entries were acknowledged. */
  function AckedOwners(list: seq<PreferenceEntry>, acked: seq<bool>): set<NodeId>
    requires |acked| <= |list|
  {
    set i | 0 <= i < |acked| && acked[i] :: TrueOwner(list[i])
  }

  lemma AckedOwnersNext(list: seq<PreferenceEntry>, front: seq<bool>, b: bool)
    requires |front| < |list|
    ensures AckedOwners(list, front + [b]) ==
              if b then AckedOwners(list, front) + {TrueOwner(list[|front|])} else AckedOwners(list, front)
  {
    forall n
      ensures n in AckedOwners(list, front + [b]) <==>
          n in AckedOwners(list, front) || (b && n == TrueOwner(list[|front|]))
    {
      if n in AckedOwners(list, front) {
        var i :| 0 <= i < |front| && front[i] && TrueOwner(list[i]) == n;
        assert (front + [b])[i];
      }
      if b { assert (front + [b])[|front|]; }
    }
  }

  lemma NewOwner(list: seq<PreferenceEntry>, front: seq<bool>)
    requires AllDifferent(TrueOwners(list)) && |front| < |list|
    ensures TrueOwner(list[|front|]) !in AckedOwners(list, front)
  {
    forall i | 0 <= i < |front|
      ensures TrueOwner(list[i]) != TrueOwner(list[|front|])
    {
      assert TrueOwners(list)[i] != TrueOwners(list)[|front|];
    }
  }

  /** On a preference list, as many acknowledgements as distinct natural owners they stand for. */
  lemma {:induction false} AcksAreOwners(list: seq<PreferenceEntry>, acked: seq<bool>)
    requires AllDifferent(TrueOwners(list)) && |acked| <= |list|
    ensures |AckedOwners(list, acked)| == CountTrue(acked)
  {
    if acked != [] {
      var front, last := acked[..|acked| - 1], acked[|acked| - 1];
      AcksAreOwners(list, front);
      assert acked == front + [last];
      AckedOwnersNext(list, front, last);
      NewOwner(list, front);
    }
  }

  function ListedIds(list: seq<PreferenceEntry>): set<NodeId> { set e | e in list :: e.nodeId }

  /** On a list drawn up by the ring walk, acknowledgements are distinct replicas among the first `N`. */
  lemma AcksAreDistinctReplicas(ds: seq<NodeId>, N: int, up: NodeId -> bool, acked: seq<bool>)
    requires AllDifferent(ds) && |acked| == |Preferred(ds, N, up)|
    ensures AllDifferent(Nodes(Preferred(ds, N, up)))
    ensures |AckedOwners(Preferred(ds, N, up), acked)| == CountTrue(acked)
    ensures forall n :: n in AckedOwners(Preferred(ds, N, up), acked) ==> n in Naturals(ds, N)
  {
    var list := Preferred(ds, N, up);
    TrueOwnersDistinct(ds, N, up);
    AcksAreOwners(list, acked);
    ListedNodes(ds, N, up);
    FilterKeepsDifferent(ds, up, true);
    forall n | n in AckedOwners(list, acked)
      ensures n in Naturals(ds, N)
    {
      var i :| 0 <= i < |acked| && acked[i] && TrueOwner(list[i]) == n;
      assert TrueOwners(list)[i] == n;
    }
  }

  method FindSelf(list: seq<PreferenceEntry>, self: NodeId) returns (at: nat)
    requires exists i :: 0 <= i < |list| && list[i].nodeId == self
    ensures at < |list| && list[at].nodeId == self
  {
    at := 0;
    while list[at].nodeId != self
      invariant at < |list|
      invariant forall i :: 0 <= i < at ==> list[i].nodeId != self
      decreases |list| - at
    {
      at := at + 1;
    }
  }

  /** The clock a coordinator stamps on a write, given its place in the preference list. */
  function CoordinatedClock(context: Option<Clock>, stored: Option<Versioned>, entry: PreferenceEntry, self: NodeId,
                            now: int): Clock {
    NewClock(context, if entry.hintFor.None? then ClockOf(stored) else None, self, now)
  }

  /** A natural owner changes no hint; a stand-in changes only the slot of the owner it covers. */
  ghost predicate HintsAfter(before: Hints, after: Hints, entry: PreferenceEntry, key: Key, v: Versioned) {
    match entry.hintFor
    case None => after == before
    case Some(owner) =>
      && VersionOf(HeldAt(after, owner, key)) == Some(AcceptIfDominating(VersionOf(HeldAt(before, owner, key)), v))
      && SameElsewhere(before, after, owner, key)
  }

  /** The coordinator's own share: commit if it is a natural owner, otherwise hold a hint built without a local copy. */
  method WriteLocally(node: KvNode, key: Key, value: string, context: Option<Clock>, entry: PreferenceEntry, now: int)
    returns (clock: Clock)
    modifies node`kvStore, node`hintsForTarget
    ensures clock == CoordinatedClock(context, old(node.Stored(key)), entry, node.nodeId, now)
    ensures node.kvStore == if entry.hintFor.None?
        then old(node.kvStore)[key := Versioned(value, clock)] else old(node.kvStore)
    ensures HintsAfter(old(node.hintsForTarget), node.hintsForTarget, entry, key, Versioned(value, clock))
  {
    if entry.hintFor.None? {
      clock := node.CommitCoordinatedWrite(key, value, context, now);
    } else {
      clock := BuildNewClock(context, None, node.nodeId, now);
      node.HoldAsCoordinator(entry.hintFor.value, HeldHint(key, value, clock, now));
    }
  }

  /** How entry `i` ended: the coordinator's own is written, any other one has a finished worker that sent the write. */
  ghost predicate EntryDone(list: seq<PreferenceEntry>, self: nat, write: WriteRequest, keyHash: Token,
                            env: nat -> (nat -> Attempt), i: nat, acked: bool, r: WorkerResult)
    requires i < |list|
  {
    if i == self then acked && r.unanswered == {}
    else
      && acked == r.acked && WorkerDone(list[i], ListedIds(list), keyHash, env(i), r)
      && r.sent == Requests(list[i], write, |r.contacted|)
  }

  /** The first `|acked|` entries are done. */
  ghost predicate FannedOut(list: seq<PreferenceEntry>, self: nat, write: WriteRequest, keyHash: Token,
                            env: nat -> (nat -> Attempt), acked: seq<bool>, workers: seq<WorkerResult>)
  {
    && |acked| == |workers| <= |list|
    && forall i {:trigger workers[i]} :: 0 <= i < |workers| ==>
        EntryDone(list, self, write, keyHash, env, i, acked[i], workers[i])
  }

  lemma FanOutGrows(list: seq<PreferenceEntry>, self: nat, write: WriteRequest, keyHash: Token,
                    env: nat -> (nat -> Attempt), acked: seq<bool>, workers: seq<WorkerResult>, r: WorkerResult)
    requires FannedOut(list, self, write, keyHash, env, acked, workers) && |acked| < |list|
    requires EntryDone(list, self, write, keyHash, env, |acked|, r.acked, r)
    ensures FannedOut(list, self, write, keyHash, env, acked + [r.acked], workers + [r])
  {
    var longer, done := workers + [r], acked + [r.acked];
    forall i {:trigger longer[i]} | 0 <= i < |longer|
      ensures EntryDone(list, self, write, keyHash, env, i, done[i], longer[i])
    {
      if i < |workers| {
        assert longer[i] == workers[i] && done[i] == acked[i];
      } else {
        assert longer[i] == r && done[i] == r.acked;
      }
    }
  }

  /** Every node that left some worker without an answer. */
  function Silent(workers: seq<WorkerResult>): set<NodeId> {
    set i, n | 0 <= i < |workers| && n in workers[i].unanswered :: n
  }

  lemma SilentNext(workers: seq<WorkerResult>, r: WorkerResult)
    ensures Silent(workers + [r]) == Silent(workers) + r.unanswered
  {
    var longer := workers + [r];
    forall n
      ensures n in Silent(longer) <==> n in Silent(workers) || n in r.unanswered
    {
      if n in Silent(workers) {
        var i :| 0 <= i < |workers| && n in workers[i].unanswered;
        assert longer[i] == workers[i];
      }
      if n in r.unanswered { assert longer[|workers|] == r; }
    }
  }

  /** One worker per entry other than this node's own, whose acknowledgement is already counted. */
  method FanOut(list: seq<PreferenceEntry>, self: nat, write: WriteRequest, keyHash: Token,
                env: nat -> (nat -> Attempt), ghost cluster: set<NodeId>)
    returns (acks: nat, unanswered: set<NodeId>, ghost acked: seq<bool>, ghost workers: seq<WorkerResult>)
    requires self < |list|
    requires forall w: nat, k: nat :: env(w)(k).ring.Values <= cluster
    ensures FannedOut(list, self, write, keyHash, env, acked, workers) && |acked| == |list| && acks == CountTrue(acked)
    ensures unanswered == Silent(workers)
  {
    acks, unanswered, acked, workers := 1, {}, [], [];
    var listed := ListedIds(list);
    var i := 0;
    while i < |list|
      invariant i <= |list| && |acked| == i
      invariant acks == CountTrue(acked) + (if i <= self then 1 else 0)
      invariant FannedOut(list, self, write, keyHash, env, acked, workers) && unanswered == Silent(workers)
    {
      var r := WorkerResult(true, [], false, {}, []);
      if i != self {
        r := ReplicateToOwner(list[i], write, keyHash, listed, env(i), cluster);
        if r.acked { acks := acks + 1; }
      }
      FanOutGrows(list, self, write, keyHash, env, acked, workers, r);
      CountAppend(acked, r.acked);
      SilentNext(workers, r);
      unanswered := unanswered + r.unanswered;
      acked, workers := acked + [r.acked], workers + [r];
      i := i + 1;
    }
  }

  /** The nodes to be marked are exactly those some worker called without getting an answer. */
  lemma MarkedExactly(list: seq<PreferenceEntry>, self: nat, write: WriteRequest, keyHash: Token,
                      env: nat -> (nat -> Attempt), acked: seq<bool>, workers: seq<WorkerResult>, n: NodeId)
    requires FannedOut(list, self, write, keyHash, env, acked, workers) && |acked| == |list|
    ensures n in Silent(workers) <==>
              exists i: nat :: i < |workers| && i != self && LeftUnanswered(workers[i], env(i), n)
  {
    forall i: nat | i < |workers|
      ensures n in workers[i].unanswered <==> i != self && LeftUnanswered(workers[i], env(i), n)
    {
      assert EntryDone(list, self, write, keyHash, env, i, acked[i], workers[i]);
      if i != self && n in workers[i].unanswered {
        var k: nat :| k < |workers[i].contacted| && env(i)(k).outcome == TransportFailure
                      && workers[i].contacted[k] == n;
      }
    }
  }

  /** Some call of the worker to `n` was not answered. */
  ghost predicate LeftUnanswered(r: WorkerResult, env: nat -> Attempt, n: NodeId) {
    exists k: nat :: k < |r.contacted| && env(k).outcome == TransportFailure && r.contacted[k] == n
  }

  /** Every request of a worker carries the write as it is; it is labelled with the true owner unless it goes to the
      true owner itself. */
  lemma LabelledUnlessOwner(entry: PreferenceEntry, write: WriteRequest, listed: set<NodeId>, keyHash: Token,
                            env: nat -> Attempt, r: WorkerResult, k: nat)
    requires WorkerDone(entry, listed, keyHash, env, r) && r.sent == Requests(entry, write, |r.contacted|)
    requires k < |r.contacted| && entry.hintFor != Some(entry.nodeId)
    ensures var request := r.sent[k];
            && request.key == write.key && request.value == write.value && request.clock == write.clock
            && request.hintFor == (if r.contacted[k] == TrueOwner(entry) then None else Some(TrueOwner(entry)))
  {
  }

  const REFUSAL := PutReply(false, 0, EMPTY_CLOCK)

  /** What coordinating a write at the listed node `list[self]` amounts to. It is refused without effect when the list
      is shorter than `W`. Otherwise the node's own share is written, every other entry has had its worker, the
      unanswered targets are marked, and the reply counts the acknowledged entries and carries the new clock. */
  ghost predicate Coordinated(node: NodeId, before: NodeData, after: NodeData, key: Key, value: string,
                              context: Option<Clock>, list: seq<PreferenceEntry>, keyHash: Token, W: int, now: int,
                              env: nat -> (nat -> Attempt), reply: PutReply, self: nat, acked: seq<bool>,
                              workers: seq<WorkerResult>)
  {
    && self < |list| && list[self].nodeId == node
    && (|list| < W ==> reply == REFUSAL && after == before)
    && (|list| >= W ==>
          && FannedOut(list, self, WriteRequest(key, value, reply.context, None), keyHash, env, acked, workers)
              && |acked| == |list|
          && reply.acks == CountTrue(acked) && (reply.success <==> reply.acks >= W)
          && reply.context == CoordinatedClock(context, before.Stored(key), list[self], node, now)
          && after.kvStore == (if list[self].hintFor.None? then before.kvStore[key := Versioned(value, reply.context)]
                               else before.kvStore)
          && HintsAfter(before.hintsForTarget, after.hintsForTarget, list[self], key, Versioned(value, reply.context))
          && after.unreachable == before.unreachable + Silent(workers))
  }

  method CoordinatePut(node: KvNode, key: Key, value: string, context: Option<Clock>, list: seq<PreferenceEntry>,
                       keyHash: Token, W: int, now: int, env: nat -> (nat -> Attempt), ghost cluster: set<NodeId>)
    returns (reply: PutReply, ghost self: nat, ghost acked: seq<bool>, ghost workers: seq<WorkerResult>)
    requires AllDifferent(Nodes(list))
    requires exists i :: 0 <= i < |list| && list[i].nodeId == node.nodeId
    requires forall w: nat, k: nat :: env(w)(k).ring.Values <= cluster
    modifies node`kvStore, node`hintsForTarget, node`unreachable
    ensures Coordinated(node.nodeId, old(node.Data()), node.Data(), key, value, context, list, keyHash, W, now, env,
                        reply, self, acked, workers)
  {
    acked, workers := [], [];
    var at := FindSelf(list, node.nodeId);
    self := at;
    if |list| < W {
      reply := PutReply(false, 0, EMPTY_CLOCK);
      return;
    }
    var clock := WriteLocally(node, key, value, context, list[at], now);
    var acks, unanswered;
    acks, unanswered, acked, workers := FanOut(list, at, WriteRequest(key, value, clock, None), keyHash, env, cluster);
    node.unreachable := node.unreachable + unanswered;
    reply := PutReply(acks >= W, acks, clock);
  }

  /** An owner's clock is built on its copy too; a stand-in's is built on the client's context alone. */
  lemma CoordinatedClockMeaning(context: Option<Clock>, stored: Option<Versioned>, entry: PreferenceEntry, self: NodeId,
                                now: int, n: NodeId)
    requires RoomToCount(context, ClockOf(stored), self)
    ensures var c := CoordinatedClock(context, stored, entry, self, now);
            var own := if entry.hintFor.None? then Count(OrEmpty(ClockOf(stored)), n) else 0;
            && Count(c, n) == Max(Count(OrEmpty(context), n), own) + (if n == self then 1 else 0)
            && c.lastUpdated == now && c.writerId == self
  {
    var local := if entry.hintFor.None? then ClockOf(stored) else None;
    NewClockCounts(context, local, self, now, n);
    NewClockStamp(context, local, self, now);
  }

  // ---- the handler -------------------------------------------------------------------

  /** A reply to a write sent with the clock `sent`: a refusal without counters, or a clock some coordinator built from
      `sent` and whatever copy it held, without overflowing its own counter. */
  ghost predicate HonestReply(sent: Clock, reply: Clock) {
    reply.counters != map[] ==>
      exists local, coordinator, now ::
        RoomToCount(Some(sent), local, coordinator) && reply == NewClock(Some(sent), local, coordinator, now)
  }

  /** A key's list under the marks a node has: the ring walk skips the nodes it thinks unreachable. */
  method PreferenceListForKey(ring: Ring, keyHash: Token, N: int, marks: set<NodeId>)
    returns (list: seq<PreferenceEntry>)
    ensures list == Preferred(NodesFrom(ring, keyHash), N, Up(marks))
    ensures AllDifferent(Nodes(list))
  {
    var up := Up(marks);
    list := PreferenceList(ring, keyHash, N, up);
    ghost var ds := NodesFrom(ring, keyHash);
    ListedNodes(ds, N, up);
    FilterKeepsDifferent(ds, up, true);
  }

  lemma OwnReplyIsHonest(node: NodeId, before: NodeData, after: NodeData, key: Key, value: string, context: Clock,
                         list: seq<PreferenceEntry>, keyHash: Token, W: int, now: int, env: nat -> (nat -> Attempt),
                         reply: PutReply, self: nat, acked: seq<bool>, workers: seq<WorkerResult>)
    requires Coordinated(node, before, after, key, value, Some(context), list, keyHash, W, now, env, reply, self, acked,
                         workers)
    requires RoomToCount(Some(context), ClockOf(before.Stored(key)), node)
    ensures HonestReply(context, reply.context)
  {
    if |list| >= W {
      var local := if list[self].hintFor.None? then ClockOf(before.Stored(key)) else None;
      assert RoomToCount(Some(context), local, node);
    }
  }

  /** The acknowledged entries stand for at least `W` different replicas, all among the first `N` of `ds`. */
  ghost predicate Replicated(list: seq<PreferenceEntry>, acked: seq<bool>, ds: seq<NodeId>, N: int, W: int) {
    && |acked| == |list| && |AckedOwners(list, acked)| >= W
    && forall n :: n in AckedOwners(list, acked) ==> n in Naturals(ds, N)
  }

  lemma SuccessIsReplicated(node: NodeId, before: NodeData, after: NodeData, key: Key, value: string,
                            context: Option<Clock>, ds: seq<NodeId>, N: int, list: seq<PreferenceEntry>, keyHash: Token,
                            W: int, now: int, env: nat -> (nat -> Attempt), reply: PutReply, self: nat,
                            acked: seq<bool>, workers: seq<WorkerResult>)
    requires Coordinated(node, before, after, key, value, context, list, keyHash, W, now, env, reply, self, acked,
                         workers)
    requires reply.success && AllDifferent(ds) && list == Preferred(ds, N, Up(before.unreachable))
    ensures Replicated(list, acked, ds, N, W)
  {
    AcksAreDistinctReplicas(ds, N, Up(before.unreachable), acked);
  }

  predicate IsListed(list: seq<PreferenceEntry>, n: NodeId) {
    exists i :: 0 <= i < |list| && list[i].nodeId == n
  }

  lemma ListedIsInNodes(list: seq<PreferenceEntry>, n: NodeId)
    ensures IsListed(list, n) <==> n in Nodes(list)
  {
    if i :| 0 <= i < |list| && list[i].nodeId == n { assert Nodes(list)[i] == n; }
  }

  /** The handler's branch for a listed node, with what the reply means. */
  method PutAsListed(node: KvNode, key: Key, value: string, context: Clock, list: seq<PreferenceEntry>, keyHash: Token,
                     W: int, now: int, env: nat -> (nat -> Attempt), ghost cluster: set<NodeId>, ghost ds: seq<NodeId>,
                     ghost N: int)
    returns (reply: PutReply, ghost self: nat, ghost acked: seq<bool>, ghost workers: seq<WorkerResult>)
    requires IsListed(list, node.nodeId) && AllDifferent(Nodes(list)) && AllDifferent(ds)
    requires list == Preferred(ds, N, Up(node.unreachable))
    requires forall w: nat, k: nat :: env(w)(k).ring.Values <= cluster
    modifies node`kvStore, node`hintsForTarget, node`unreachable
    ensures Coordinated(node.nodeId, old(node.Data()), node.Data(), key, value, Some(context), list, keyHash, W, now,
                        env, reply, self, acked, workers)
    ensures reply.success ==> Replicated(list, acked, ds, N, W)
    ensures RoomToCount(Some(context), ClockOf(old(node.Stored(key))), node.nodeId) ==>
        HonestReply(context, reply.context)
  {
    ghost var before := node.Data();
    reply, self, acked, workers := CoordinatePut(node, key, value, Some(context), list, keyHash, W, now, env, cluster);
    if RoomToCount(Some(context), ClockOf(before.Stored(key)), node.nodeId) {
      OwnReplyIsHonest(node.nodeId, before, node.Data(), key, value, context, list, keyHash, W, now, env, reply, self,
                       acked, workers);
    }
    if reply.success {
      SuccessIsReplicated(node.nodeId, before, node.Data(), key, value, Some(context), ds, N, list, keyHash, W, now,
          env,
                          reply, self, acked, workers);
    }
  }

  /** The write handler: refused by a removed node; coordinated by a listed one; forwarded once otherwise, which ends in
      the answer `relayed` of some listed node or in a refusal. A success stands for `W` different replicas among the
      first `N`, and honest servers give honest replies. */
  method HandlePut(node: KvNode, key: Key, value: string, context: Clock, forwarded: bool, ring: Ring, keyHash: Token,
                   N: int, W: int, now: int, env: nat -> (nat -> Attempt), relayed: Option<PutReply>,
                   ghost cluster: set<NodeId>)
    returns (reply: PutReply, ghost list: seq<PreferenceEntry>, ghost self: nat, ghost acked: seq<bool>,
             ghost workers: seq<WorkerResult>)
    requires forall w: nat, k: nat :: env(w)(k).ring.Values <= cluster
    modifies node`kvStore, node`hintsForTarget, node`unreachable
    ensures list == Preferred(NodesFrom(ring, keyHash), N, Up(old(node.unreachable)))
    ensures node.selfRemoved ==> reply == REFUSAL && node.Data() == old(node.Data())
    ensures !node.selfRemoved && node.nodeId !in Nodes(list) ==>
              && reply == (if forwarded || relayed.None? then REFUSAL else relayed.value)
              && node.Data() == old(node.Data())
    ensures !node.selfRemoved && node.nodeId in Nodes(list) ==>
              && Coordinated(node.nodeId, old(node.Data()), node.Data(), key, value, Some(context), list, keyHash,
                  W, now,
                             env, reply, self, acked, workers)
              && (reply.success ==> Replicated(list, acked, NodesFrom(ring, keyHash), N, W))
    ensures RoomToCount(Some(context), ClockOf(old(node.Stored(key))), node.nodeId)
            && (relayed.Some? ==> HonestReply(context, relayed.value.context)) ==>
              HonestReply(context, reply.context)
  {
    self, acked, workers := 0, [], [];
    var marks := node.unreachable;
    var entries := PreferenceListForKey(ring, keyHash, N, marks);
    list := entries;
    ListedIsInNodes(list, node.nodeId);
    if node.selfRemoved {
      reply := PutReply(false, 0, EMPTY_CLOCK);
    } else if IsListed(entries, node.nodeId) {
      reply, self, acked, workers := PutAsListed(node, key, value, context, entries, keyHash, W, now, env, cluster,
                                                 NodesFrom(ring, keyHash), N);
    } else if forwarded || relayed.None? {
      reply := PutReply(false, 0, EMPTY_CLOCK);
    } else {
      reply := relayed.value;
    }
  }

  // ---- when the ring has no spare nodes -------------------------------------------

  /** With at most `N` nodes on the ring and the owner itself never its own substitute, the search can succeed only if
      some node was marked unreachable when the list was drawn up and is no longer marked now. */
  lemma SmallRingSubstitute(ds: seq<NodeId>, N: int, marks0: set<NodeId>, marks: set<NodeId>, contacted: set<NodeId>,
                            trueOwner: NodeId)
    requires |ds| <= N
    ensures var list := Preferred(ds, N, Up(marks0));
            var excluded := ListedIds(list) + contacted;
            (exists n :: n in ds && Eligible(n, marks, excluded, trueOwner)) <==>
            (exists n :: n in ds && n in marks0 && n !in marks && n !in contacted && n != trueOwner)
  {
    var up := Up(marks0);
    ListedNodes(ds, N, up);
    FilterMembers(ds, up, true);
    var list := Preferred(ds, N, up);
    var excluded := ListedIds(list) + contacted;
    FilterShorter(ds, up);
    assert Nodes(list) == Filter(ds, up, true);
    forall n | n in ds
      ensures Eligible(n, marks, excluded, trueOwner) <==>
          n in marks0 && n !in marks && n !in contacted && n != trueOwner
    {
      ListedIdsAreNodes(list, n);
      assert n in excluded <==> n !in marks0 || n in contacted;
    }
  }

  lemma SubstituteIsOnRing(ring: Ring, keyHash: Token, marks: set<NodeId>, excluded: set<NodeId>, trueOwner: NodeId,
                           n: NodeId)
    requires IsSubstitute(ring, keyHash, marks, excluded, trueOwner, n)
    ensures n in ring.Values && n !in marks
  {
  }

  /** The second node contacted was on the ring and unmarked. */
  lemma SecondContact(entry: PreferenceEntry, listed: set<NodeId>, keyHash: Token, env: nat -> Attempt,
                      contacted: seq<NodeId>)
    requires Trail(entry, listed, keyHash, env, contacted) && |contacted| > 1
    ensures contacted[1] in env(0).ring.Values && contacted[1] !in env(0).marks
  {
    TrailPrefix(entry, listed, keyHash, env, contacted, 2);
    var first := contacted[..2][..1];
    assert Next(entry, listed, keyHash, env, first, contacted[1]);
    SubstituteIsOnRing(env(0).ring, keyHash, env(0).marks, Excluded(listed, first), TrueOwner(entry), contacted[1]);
  }

  /** With at most `N` nodes on the ring and no node recovering while the write is under way, the list has no
      stand-ins and no worker ends on one: every acknowledgement is direct. */
  lemma SmallRingAcksAreDirect(ds: seq<NodeId>, N: int, marks0: set<NodeId>, entry: PreferenceEntry,
                               keyHash: Token, env: nat -> Attempt, r: WorkerResult)
    requires |ds| <= N
    requires var list := Preferred(ds, N, Up(marks0));
             entry in list && WorkerDone(entry, ListedIds(list), keyHash, env, r)
    requires forall k: nat :: marks0 <= env(k).marks && forall n :: n in env(k).ring.Values ==> n in ds
    ensures entry.hintFor.None? && r.contacted == [entry.nodeId] && !r.hinted
  {
    var up := Up(marks0);
    var list := Preferred(ds, N, up);
    NoneBeyond(ds, N, up);
    if |r.contacted| > 1 {
      SecondContact(entry, ListedIds(list), keyHash, env, r.contacted);
      ListedNodes(ds, N, up);
      FilterMembers(ds, up, true);
      FilterShorter(ds, up);
      ListedIdsAreNodes(list, r.contacted[1]);
      assert false;
    }
  }

  /** A stand-in that is no owner, as the search really picks it: owners c, t, u are listed; the call to t fails; the
      next node clockwise that is not listed, x, takes the hint. */
  lemma OutsiderHoldsHint(write: WriteRequest) returns (ring: Ring, env: nat -> Attempt)
    ensures ring == map[1 := "c", 2 := "t", 3 := "u", 4 := "x"]
    ensures env(0) == Attempt(TransportFailure, ring, {"t"}) && env(1) == Attempt(Accepted, ring, {"t"})
    ensures var entry := PreferenceEntry("t", None);
            WorkerDone(entry, {"c", "t", "u"}, 0, env,
                       WorkerResult(true, ["t", "x"], true, {"t"}, Requests(entry, write, 2)))
            && RequestAt(entry, write, 0).hintFor == None && RequestAt(entry, write, 1).hintFor == Some("t")
  {
    var order: Ring := map[1 := "c", 2 := "t", 3 := "u", 4 := "x"];
    ring := order;
    env := k => if k == 0 then Attempt(TransportFailure, order, {"t"}) else Attempt(Accepted, order, {"t"});
    var entry, listed, first: seq<NodeId> := PreferenceEntry("t", None), {"c", "t", "u"}, ["t"];
    assert order[4] == "x";
    assert forall u :: u in order && Distance(0, u) < Distance(0, 4) ==> order[u] in listed;
    assert Next(entry, listed, 0, env, first, "x");
    assert ["t", "x"] == first + ["x"];
    TrailGrows(entry, listed, 0, env, first, "x");
    assert NoAnswer(env, ["t", "x"]) == {"t"} by { assert ["t", "x"][0] == "t"; }
  }

  lemma ListedIdsAreNodes(list: seq<PreferenceEntry>, n: NodeId)
    ensures n in ListedIds(list) <==> n in Nodes(list)
  {
    if n in ListedIds(list) {
      var e :| e in list && e.nodeId == n;
      var i :| 0 <= i < |list| && list[i] == e;
      assert Nodes(list)[i] == n;
    }
    if n in Nodes(list) {
      var i :| 0 <= i < |list| && Nodes(list)[i] == n;
      assert list[i] in list;
    }
  }

  lemma {:induction false} FilterShorter(ds: seq<NodeId>, up: NodeId -> bool)
    ensures |Filter(ds, up, true)| <= |ds|
  {
    FilterSplit(ds, up);
  }
}
