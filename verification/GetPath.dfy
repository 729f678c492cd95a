/** A coordinated read from end to end: the preference list, the local read, one request per remaining entry, the reply,
    the node's own repair and the peers it repairs (node_kv.cpp). */
module GetPath {
  import opened Basics
  import opened VectorClocks
  import opened Ring
  import opened RingWalk
  import opened Placement
  import opened Resolution
  import opened Replica
  import opened KvNodes
  import opened PutPath
  import opened ReadPath

  // How one replica's read ends: it answers, possibly that it does not hold the key, or it does not answer.
  datatype ReadOutcome = Answered(version: Option<Versioned>) | Silence

  /** The response of the listed node number `i`, if there is one: this node reads its own store. */
  function ResponseOf(list: seq<PreferenceEntry>, self: NodeId, stored: Option<Versioned>, env: nat -> ReadOutcome,
                      i: nat)
    : Option<Option<Versioned>>
    requires i < |list|
  {
    if list[i].nodeId == self then Some(stored)
    else match env(i)
         case Answered(version) => Some(version)
         case Silence => None
  }

  ghost predicate From(r: ReplicaResult, list: seq<PreferenceEntry>, self: NodeId, stored: Option<Versioned>,
                       env: nat -> ReadOutcome, i: nat)
    requires i < |list|
  {
    r.peerId == list[i].nodeId && ResponseOf(list, self, stored, env, i) == Some(r.version)
  }

  ghost predicate FromFirst(r: ReplicaResult, list: seq<PreferenceEntry>, self: NodeId, stored: Option<Versioned>,
                            env: nat -> ReadOutcome, n: nat)
    requires n <= |list|
  {
    exists i: nat :: i < n && From(r, list, self, stored, env, i)
  }

  /** `results` holds the responses of the first `n` listed nodes, in any order, each once. */
  ghost predicate Gathered(results: seq<ReplicaResult>, list: seq<PreferenceEntry>, self: NodeId,
                           stored: Option<Versioned>, env: nat -> ReadOutcome, n: nat)
    requires n <= |list|
  {
    && (forall r :: r in results <==> FromFirst(r, list, self, stored, env, n))
    && (forall p, q :: 0 <= p < q < |results| ==> results[p].peerId != results[q].peerId)
  }

  /** The listed nodes that did not answer. */
  function Unheard(list: seq<PreferenceEntry>, self: NodeId, env: nat -> ReadOutcome, n: nat): set<NodeId>
    requires n <= |list|
  {
    set i: nat | i < n && list[i].nodeId != self && env(i) == Silence :: list[i].nodeId
  }

  lemma FromNext(r: ReplicaResult, list: seq<PreferenceEntry>, self: NodeId, stored: Option<Versioned>,
                 env: nat -> ReadOutcome, n: nat)
    requires n < |list|
    ensures FromFirst(r, list, self, stored, env, n + 1) <==>
              FromFirst(r, list, self, stored, env, n) || From(r, list, self, stored, env, n)
  {
    if i: nat :| i < n && From(r, list, self, stored, env, i) { assert FromFirst(r, list, self, stored, env, n + 1); }
    if i: nat :| i < n + 1 && From(r, list, self, stored, env, i) {
      assert i < n ==> FromFirst(r, list, self, stored, env, n);
    }
  }

  lemma NewPeer(r: ReplicaResult, list: seq<PreferenceEntry>, self: NodeId, stored: Option<Versioned>,
                env: nat -> ReadOutcome, n: nat)
    requires n < |list| && AllDifferent(Nodes(list)) && FromFirst(r, list, self, stored, env, n)
    ensures r.peerId != list[n].nodeId
  {
    var i: nat :| i < n && From(r, list, self, stored, env, i);
    assert Nodes(list)[i] != Nodes(list)[n];
  }

  function Extended(results: seq<ReplicaResult>, peer: NodeId,
                    response: Option<Option<Versioned>>): seq<ReplicaResult> {
    match response case None => results case Some(version) => results + [ReplicaResult(peer, version)]
  }

  lemma GatheredGrows(results: seq<ReplicaResult>, list: seq<PreferenceEntry>, self: NodeId, stored: Option<Versioned>,
                      env: nat -> ReadOutcome, n: nat)
    requires n < |list| && AllDifferent(Nodes(list)) && Gathered(results, list, self, stored, env, n)
    ensures Gathered(Extended(results, list[n].nodeId, ResponseOf(list, self, stored, env, n)), list, self, stored, env,
                     n + 1)
  {
    var more := Extended(results, list[n].nodeId, ResponseOf(list, self, stored, env, n));
    forall r
      ensures r in more <==> FromFirst(r, list, self, stored, env, n + 1)
    {
      FromNext(r, list, self, stored, env, n);
    }
    forall p | 0 <= p < |results|
      ensures results[p].peerId != list[n].nodeId
    {
      assert results[p] in results;
      NewPeer(results[p], list, self, stored, env, n);
    }
  }

  lemma UnheardGrows(list: seq<PreferenceEntry>, self: NodeId, env: nat -> ReadOutcome, n: nat)
    requires n < |list|
    ensures Unheard(list, self, env, n + 1) ==
              if list[n].nodeId != self && env(n) == Silence then Unheard(list, self, env, n) + {list[n].nodeId}
              else Unheard(list, self, env, n)
  {
  }

  /** Asks every listed node, this one through its own store. */
  method Gather(list: seq<PreferenceEntry>, self: NodeId, stored: Option<Versioned>, env: nat -> ReadOutcome)
    returns (results: seq<ReplicaResult>, unanswered: set<NodeId>)
    requires AllDifferent(Nodes(list))
    ensures Gathered(results, list, self, stored, env, |list|)
    ensures unanswered == Unheard(list, self, env, |list|)
  {
    results, unanswered := [], {};
    for i := 0 to |list|
      invariant Gathered(results, list, self, stored, env, i)
      invariant unanswered == Unheard(list, self, env, i)
    {
      GatheredGrows(results, list, self, stored, env, i);
      UnheardGrows(list, self, env, i);
      if list[i].nodeId == self {
        results := results + [ReplicaResult(self, stored)];
      } else {
        match env(i)
        case Answered(version) => results := results + [ReplicaResult(list[i].nodeId, version)];
        case Silence => unanswered := unanswered + {list[i].nodeId};
      }
    }
  }

  /** The nodes to be marked are exactly the other listed ones that did not answer. */
  lemma UnheardExactly(list: seq<PreferenceEntry>, self: NodeId, env: nat -> ReadOutcome, n: NodeId)
    ensures n in Unheard(list, self, env, |list|) <==>
              n != self && exists i: nat :: i < |list| && list[i].nodeId == n && env(i).Silence?
  {
  }

  /** What the reply and the repairs of a read are, given its responses: `R` responses are needed; the versions found
      are resolved; this node repairs itself if it is stale, and every other stale responder is sent the winner. */
  ghost predicate Resolved(results: seq<ReplicaResult>, R: int, self: NodeId, key: Key, before: NodeData,
                           after: NodeData,
                           reply: GetReply, peers: seq<NodeId>)
  {
    && reply.responses == |results|
    && (reply.found <==> |results| >= R && Found(results) != [])
    && (!reply.found ==> after.kvStore == before.kvStore && peers == [])
    && (reply.found ==>
          var w := Resolve(Found(results)).winner;
          && reply.value == w.value && reply.context == w.clock
          && after.kvStore == (if self in StalePeers(results, w)
                               then before.kvStore[key := AcceptUnlessCovered(before.Stored(key), w)]
                               else before.kvStore)
          && peers == Without(StalePeers(results, w), self)
          && forall n :: n in peers <==> n in StalePeers(results, w) && n != self)
  }

  /** The read handler. */
  method HandleGet(node: KvNode, key: Key, ring: Ring, keyHash: Token, N: int, R: int, env: nat -> ReadOutcome)
    returns (reply: GetReply, peers: seq<NodeId>, ghost list: seq<PreferenceEntry>, ghost results: seq<ReplicaResult>)
    modifies node`kvStore, node`unreachable
    ensures list == Preferred(NodesFrom(ring, keyHash), N, Up(old(node.unreachable)))
    ensures node.hintsForTarget == old(node.hintsForTarget)
    ensures node.selfRemoved || |list| < R ==>
              reply == GetReply(false, "", 0, EMPTY_CLOCK) && peers == [] && node.Data() == old(node.Data())
    ensures !node.selfRemoved && |list| >= R ==>
              && Gathered(results, list, node.nodeId, old(node.Stored(key)), env, |list|)
              && node.unreachable == old(node.unreachable) + Unheard(list, node.nodeId, env, |list|)
              && Resolved(results, R, node.nodeId, key, old(node.Data()), node.Data(), reply, peers)
  {
    reply, peers, results := GetReply(false, "", 0, EMPTY_CLOCK), [], [];
    var entries := PreferenceListForKey(ring, keyHash, N, node.unreachable);
    list := entries;
    if node.selfRemoved || |entries| < R { return; }
    var answers, unanswered := Gather(entries, node.nodeId, node.Stored(key), env);
    results := answers;
    node.unreachable := node.unreachable + unanswered;
    var repairs, winner;
    reply, repairs, winner := FinishGet(answers, R);
    if winner.Some? {
      peers := Without(repairs, node.nodeId);
      WithoutMembers(repairs, node.nodeId);
      if node.nodeId in repairs {
        var outcome := node.StoreReplicatedWrite(key, winner.value);
      }
    }
  }
}
