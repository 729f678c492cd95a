/** The nodes as objects refine the transition system: each critical section of a node, run in a state that shows what
    the node holds, changes the node exactly as the corresponding step changes the state, and touches nobody else. */
module Refinement {
  import opened Basics
  import opened VectorClocks
  import opened Ring
  import opened Resolution
  import opened Replica
  import opened KvNodes
  import opened PutPath
  import opened ReadPath
  import opened Protocol

  /** The state records for this node exactly what the node holds. */
  ghost predicate Shows(s: State, node: KvNode)
    reads node
  {
    && (forall k: Key :: Lookup(s.store, Cell(node.nodeId, k)) == node.Stored(k))
    && (forall t: NodeId, k: Key ::
          HeldIn(s.held, Slot(node.nodeId, t, k)) == VersionOf(HeldAt(node.hintsForTarget, t, k)))
  }

  /** Nothing stored or held at any other node differs. */
  ghost predicate OnlyAt(s: State, t: State, n: NodeId) {
    && (forall c: Cell :: c.node != n ==> Lookup(t.store, c) == Lookup(s.store, c))
    && (forall sl: Slot :: sl.holder != n ==> HeldIn(t.held, sl) == HeldIn(s.held, sl))
  }

  /** Coordinating a write as an owner. */
  method RunCommit(node: KvNode, ghost s: State, key: Key, value: string, context: Clock, entry: PreferenceEntry,
                   now: int)
    returns (clock: Clock)
    requires Shows(s, node) && entry == PreferenceEntry(node.nodeId, None) && HonestContext(s, key, context)
    modifies node`kvStore, node`hintsForTarget
    ensures var t := Do(s, Step.Commit(node.nodeId, key, value, context, now));
            && Shows(t, node) && OnlyAt(s, t, node.nodeId)
            && t.puts == s.puts + [Put(key, node.nodeId, Versioned(value, clock), None)]
            && Stored(|s.puts|, node.nodeId) in t.acks
  {
    clock := WriteLocally(node, key, value, Some(context), entry, now);
  }

  /** Coordinating a write as a stand-in. */
  method RunCommitAsStandIn(node: KvNode, ghost s: State, key: Key, value: string, context: Clock, owner: NodeId,
                            entry: PreferenceEntry, now: int)
    returns (clock: Clock)
    requires Shows(s, node) && entry == PreferenceEntry(node.nodeId, Some(owner)) && HonestContext(s, key, context)
    modifies node`kvStore, node`hintsForTarget
    ensures var t := Do(s, CommitAsStandIn(node.nodeId, owner, key, value, context, now));
            && Shows(t, node) && OnlyAt(s, t, node.nodeId)
            && t.puts == s.puts + [Put(key, node.nodeId, Versioned(value, clock), Some(owner))]
            && HeldFor(|s.puts|, node.nodeId, owner) in t.acks
  {
    assert VersionOf(HeldAt(old(node.hintsForTarget), owner, key)) == HeldIn(s.held, Slot(node.nodeId, owner, key));
    clock := WriteLocally(node, key, value, Some(context), entry, now);
  }

  /** Receiving a replicated write: the handler of a node that is not removed. */
  method RunReceiveWrite(node: KvNode, ghost s: State, ghost m: Message, key: Key, version: Versioned, now: int)
    returns (outcome: WriteOutcome)
    requires Shows(s, node) && !node.selfRemoved
    requires m in s.net && m.Write? && m.dest == node.nodeId && m.key == key && m.version == version
    modifies node`kvStore, node`hintsForTarget, node`unreachable
    ensures var t := Do(s, ReceiveWrite(m)); Shows(t, node) && OnlyAt(s, t, node.nodeId) && AnswerTo(m) <= t.net
    ensures outcome == StoreOutcome(Lookup(s.store, Cell(node.nodeId, key)), version)
  {
    assert old(node.Stored(key)) == Lookup(s.store, Cell(node.nodeId, key));
    var success;
    success, outcome := node.ReplicateWrite(WriteRequest(key, version.value, version.clock, None), now);
  }

  /** Receiving a write to hold for somebody else. */
  method RunReceiveHint(node: KvNode, ghost s: State, ghost m: Message, target: NodeId, key: Key, version: Versioned,
                        now: int)
    requires Shows(s, node) && !node.selfRemoved
    requires m in s.net && m.Hint? && m.holder == node.nodeId && m.target == target
    requires m.put < |s.puts| && s.puts[m.put].key == key && s.puts[m.put].version == version
    modifies node`kvStore, node`hintsForTarget, node`unreachable
    ensures var t := Do(s, ReceiveHint(m));
            && Shows(t, node) && OnlyAt(s, t, node.nodeId)
            && HeldFor(m.put, node.nodeId, target) in t.net
  {
    assert VersionOf(HeldAt(old(node.hintsForTarget), target, key)) == HeldIn(s.held, Slot(node.nodeId, target, key));
    var success, outcome :=
      node.ReplicateWrite(WriteRequest(key, version.value, version.clock, Some(target)), now);
  }

  /** The answer to a delivered hint. */
  method RunFinishDelivery(node: KvNode, ghost s: State, ghost m: Message, target: NodeId, key: Key, sent: HeldHint)
    requires Shows(s, node)
    requires m in s.net && m.Delivered? && m.slot == Slot(node.nodeId, target, key) && m.version == sent.Version()
    modifies node`hintsForTarget, node`unreachable
    ensures var t := Do(s, Step.FinishDelivery(m)); Shows(t, node) && OnlyAt(s, t, node.nodeId)
  {
    assert VersionOf(HeldAt(old(node.hintsForTarget), target, key)) == HeldIn(s.held, m.slot);
    node.FinishDelivery(target, key, sent, Accepted);
  }

  /** A replica's reply to a read is what it holds. */
  lemma ReplyShows(s: State, node: KvNode, read: nat)
    requires Shows(s, node) && Enabled(s, ReceiveReply(read, node.nodeId))
    ensures var r := Do(s, ReceiveReply(read, node.nodeId)).gets[read];
            && node.nodeId in r.replies && r.replies[node.nodeId] == node.Stored(s.gets[read].key)
            && forall n :: n != node.nodeId ==>
                 (n in r.replies <==> n in s.gets[read].replies)
                 && (n in r.replies ==> r.replies[n] == s.gets[read].replies[n])
  {
  }

  /** Finishing a read: the handler's winner is the step's, and the peers it repairs are exactly those to which the step
      sends the winner. */
  method RunFinishRead(ghost s: State, ghost read: nat, responders: seq<NodeId>, results: seq<ReplicaResult>, R: int)
    returns (reply: GetReply, repairs: seq<NodeId>)
    requires Enabled(s, FinishRead(read, responders)) && results == Answers(s.gets[read], responders)
    requires |responders| >= R
    ensures var t, r := Do(s, FinishRead(read, responders)), s.gets[read];
            var winner := t.gets[read].result.value.winner;
            && t.gets[read].result == Some(Result(responders, winner))
            && (reply.found <==> winner.Some?)
            && (reply.found ==> reply.value == winner.value.value && reply.context == winner.value.clock)
            && forall m :: m in t.net <==>
                 m in s.net || (winner.Some? && m.Write? && m.dest in repairs
                     && m == Write(m.dest, r.key, winner.value, FromRepair))
  {
    var winner;
    reply, repairs, winner := FinishGet(results, R);
  }

  /** A finished read sends the winner to exactly the responders that lack the key or are not at its clock. */
  lemma RepairsReachStale(s: State, read: nat, responders: seq<NodeId>, n: NodeId)
    requires Enabled(s, FinishRead(read, responders)) && WinnerOf(s.gets[read], responders).Some?
    ensures var r := s.gets[read];
            var w := WinnerOf(r, responders).value;
            Write(n, r.key, w, FromRepair) in RepairsOf(r, responders) <==>
              n in responders && (r.replies[n].None? || !Equiv(r.replies[n].value.clock, w.clock))
    ensures RepairsOf(s.gets[read], responders) <= Do(s, FinishRead(read, responders)).net
  {
    var r := s.gets[read];
    var answers, w := Answers(r, responders), WinnerOf(r, responders).value;
    StalePeersExact(answers, w, n);
    if n in StalePeers(answers, w) {
      var i :| 0 <= i < |answers| && answers[i].peerId == n
               && (answers[i].version.None? || !Equiv(answers[i].version.value.clock, w.clock));
      assert responders[i] == n;
    }
    if n in responders {
      var i :| 0 <= i < |responders| && responders[i] == n;
      assert answers[i] == ReplicaResult(n, r.replies[n]);
    }
  }
}
