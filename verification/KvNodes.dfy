/** A storage node as an object: its store, its held hints and its local view of who is unreachable
    (node_kv.cpp, node_reachability.cpp). Every method is one critical section of the original. */
module KvNodes {
  import opened Basics
  import opened VectorClocks
  import opened Replica

  datatype HeldHint = HeldHint(key: Key, value: string, clock: Clock, createdAt: int) {
    function Version(): Versioned { Versioned(value, clock) }
  }

  datatype WriteRequest = WriteRequest(key: Key, value: string, clock: Clock, hintFor: Option<NodeId>)

  // How one remote call ends: answered with success, answered with a refusal, or not answered.
  datatype RpcOutcome = Accepted | Refused | TransportFailure

  type Hints = map<NodeId, map<Key, HeldHint>>

  function HeldAt(hints: Hints, target: NodeId, key: Key): Option<HeldHint> {
    if target in hints && key in hints[target] then Some(hints[target][key]) else None
  }

  function VersionOf(h: Option<HeldHint>): Option<Versioned> {
    match h case None => None case Some(hint) => Some(hint.Version())
  }

  /** Only the slot (`target`, `key`) may differ. */
  ghost predicate SameElsewhere(before: Hints, after: Hints, target: NodeId, key: Key) {
    forall t: NodeId, k: Key :: (t != target || k != key) ==> HeldAt(after, t, k) == HeldAt(before, t, k)
  }

  /** Some call among those for `keys` was not answered. */
  ghost predicate Unanswered(keys: set<Key>, outcomes: map<Key, RpcOutcome>) {
    exists k :: k in keys && k in outcomes && outcomes[k] == TransportFailure
  }

  lemma UnansweredNext(keys: set<Key>, key: Key, outcomes: map<Key, RpcOutcome>)
    ensures Unanswered(keys + {key}, outcomes) <==>
              Unanswered(keys, outcomes) || (key in outcomes && outcomes[key] == TransportFailure)
  {
    if Unanswered(keys, outcomes) {
      var k :| k in keys && k in outcomes && outcomes[k] == TransportFailure;
      assert k in keys + {key};
    }
    if key in outcomes && outcomes[key] == TransportFailure { assert key in keys + {key}; }
  }

  // Everything a node keeps for clients and peers.
  datatype NodeData = NodeData(kvStore: map<Key, Versioned>, hintsForTarget: Hints, unreachable: set<NodeId>) {
    function Stored(key: Key): Option<Versioned> { if key in kvStore then Some(kvStore[key]) else None }
  }

  class KvNode {
    const nodeId: NodeId
    var kvStore: map<Key, Versioned>
    var hintsForTarget: Hints
    var unreachable: set<NodeId>
    var selfRemoved: bool

    constructor (nodeId: NodeId)
      ensures this.nodeId == nodeId && kvStore == map[] && hintsForTarget == map[] && unreachable == {} && !selfRemoved
    {
      this.nodeId := nodeId;
      kvStore, hintsForTarget, unreachable, selfRemoved := map[], map[], {}, false;
    }

    function Data(): NodeData
      reads this
    {
      NodeData(kvStore, hintsForTarget, unreachable)
    }

    function Stored(key: Key): Option<Versioned>
      reads this
    {
      if key in kvStore then Some(kvStore[key]) else None
    }

    method MarkUnreachable(peer: NodeId)
      modifies this`unreachable
      ensures unreachable == old(unreachable) + {peer}
    {
      unreachable := unreachable + {peer};
    }

    method MarkReachable(peer: NodeId)
      modifies this`unreachable
      ensures unreachable == old(unreachable) - {peer}
    {
      unreachable := unreachable - {peer};
    }

    /** Replica side of a write whose clock the coordinator already settled. */
    method StoreReplicatedWrite(key: Key, incoming: Versioned) returns (outcome: WriteOutcome)
      modifies this`kvStore
      ensures kvStore == old(kvStore)[key := AcceptUnlessCovered(old(Stored(key)), incoming)]
      ensures outcome == StoreOutcome(old(Stored(key)), incoming)
    {
      if key !in kvStore {
        kvStore := kvStore[key := incoming];
        return STORED;
      }
      var res := CompareVectorClocks(kvStore[key].clock, incoming.clock);
      if res == EQUAL || res == DOMINATES {
        outcome := ALREADY_CURRENT;
        assert kvStore == kvStore[key := kvStore[key]];
      } else {
        kvStore := kvStore[key := incoming];
        outcome := STORED;
      }
    }

    /** Coordinator side: read, merge, increment and store in one critical section. */
    method CommitCoordinatedWrite(key: Key, value: string, context: Option<Clock>, now: int) returns (updated: Clock)
      modifies this`kvStore
      ensures kvStore == old(kvStore)[key := CommitVersion(old(Stored(key)), value, context, nodeId, now)]
      ensures kvStore[key].value == value && updated == kvStore[key].clock
    {
      var localCopy: Option<Clock> := if key in kvStore then Some(kvStore[key].clock) else None;
      updated := BuildNewClock(context, localCopy, nodeId, now);
      kvStore := kvStore[key := Versioned(value, updated)];
    }

    method PutHint(target: NodeId, hint: HeldHint)
      modifies this`hintsForTarget
      ensures HeldAt(hintsForTarget, target, hint.key) == Some(hint)
      ensures SameElsewhere(old(hintsForTarget), hintsForTarget, target, hint.key)
    {
      var forTarget := if target in hintsForTarget then hintsForTarget[target] else map[];
      hintsForTarget := hintsForTarget[target := forTarget[hint.key := hint]];
    }

    /** Replica side of a hinted write: a concurrent hint is overwritten. */
    method HoldAsReplica(target: NodeId, hint: HeldHint)
      modifies this`hintsForTarget
      ensures VersionOf(HeldAt(hintsForTarget, target, hint.key))
              == Some(AcceptUnlessCovered(VersionOf(HeldAt(old(hintsForTarget), target, hint.key)), hint.Version()))
      ensures HeldAt(hintsForTarget, target, hint.key) in {Some(hint), HeldAt(old(hintsForTarget), target, hint.key)}
      ensures SameElsewhere(old(hintsForTarget), hintsForTarget, target, hint.key)
    {
      if target in hintsForTarget && hint.key in hintsForTarget[target] {
        var res := CompareVectorClocks(hintsForTarget[target][hint.key].clock, hint.clock);
        if res == DOMINATED || res == CONCURRENT {
          PutHint(target, hint);
        }
      } else {
        PutHint(target, hint);
      }
    }

    /** Coordinator side, when the coordinator itself stands in for `target`: a concurrent hint is kept. */
    method HoldAsCoordinator(target: NodeId, hint: HeldHint)
      modifies this`hintsForTarget
      ensures VersionOf(HeldAt(hintsForTarget, target, hint.key))
              == Some(AcceptIfDominating(VersionOf(HeldAt(old(hintsForTarget), target, hint.key)), hint.Version()))
      ensures HeldAt(hintsForTarget, target, hint.key) in {Some(hint), HeldAt(old(hintsForTarget), target, hint.key)}
      ensures SameElsewhere(old(hintsForTarget), hintsForTarget, target, hint.key)
    {
      if target in hintsForTarget && hint.key in hintsForTarget[target] {
        var res := CompareVectorClocks(hintsForTarget[target][hint.key].clock, hint.clock);
        if res == DOMINATED {
          PutHint(target, hint);
        }
      } else {
        PutHint(target, hint);
      }
    }

    /** The write handler: refused by a removed node, held as a hint when labelled, stored otherwise. */
    method ReplicateWrite(req: WriteRequest, now: int) returns (success: bool, outcome: WriteOutcome)
      modifies this`kvStore, this`hintsForTarget, this`unreachable
      ensures success == !selfRemoved
      ensures selfRemoved ==>
                && kvStore == old(kvStore) && hintsForTarget == old(hintsForTarget) && unreachable == old(unreachable)
                && outcome == ALREADY_CURRENT
      ensures !selfRemoved && req.hintFor.Some? ==>
                && kvStore == old(kvStore) && outcome == STORED
                && unreachable == old(unreachable) + {req.hintFor.value}
                && VersionOf(HeldAt(hintsForTarget, req.hintFor.value, req.key)) ==
                     Some(AcceptUnlessCovered(VersionOf(HeldAt(old(hintsForTarget), req.hintFor.value, req.key)),
                                              Versioned(req.value, req.clock)))
                && SameElsewhere(old(hintsForTarget), hintsForTarget, req.hintFor.value, req.key)
      ensures !selfRemoved && req.hintFor.None? ==>
                && hintsForTarget == old(hintsForTarget) && unreachable == old(unreachable)
                && kvStore == old(kvStore)[req.key :=
                    AcceptUnlessCovered(old(Stored(req.key)), Versioned(req.value, req.clock))]
                && outcome == StoreOutcome(old(Stored(req.key)), Versioned(req.value, req.clock))
    {
      if selfRemoved {
        return false, ALREADY_CURRENT;
      }
      if req.hintFor.Some? {
        MarkUnreachable(req.hintFor.value);
        HoldAsReplica(req.hintFor.value, HeldHint(req.key, req.value, req.clock, now));
        return true, STORED;
      }
      outcome := StoreReplicatedWrite(req.key, Versioned(req.value, req.clock));
      success := true;
    }

    // ---- hint delivery ---------------------------------------------------

    /** The reply to one delivered hint: drop the held hint only if it is still the version that was sent. */
    method FinishDelivery(target: NodeId, key: Key, sent: HeldHint, outcome: RpcOutcome)
      modifies this`hintsForTarget, this`unreachable
      ensures SameElsewhere(old(hintsForTarget), hintsForTarget, target, key)
      ensures var held := HeldAt(old(hintsForTarget), target, key);
              HeldAt(hintsForTarget, target, key) ==
                if outcome == Accepted && held.Some? && Equiv(held.value.clock, sent.clock) then None else held
      ensures unreachable == if outcome == TransportFailure then old(unreachable) + {target} else old(unreachable)
    {
      if outcome == Accepted {
        if target in hintsForTarget && key in hintsForTarget[target] {
          var res := CompareVectorClocks(hintsForTarget[target][key].clock, sent.clock);
          if res == EQUAL {
            hintsForTarget := hintsForTarget[target := hintsForTarget[target] - {key}];
          }
        }
      } else if outcome == TransportFailure {
        MarkUnreachable(target);
      }
    }

    /** One delivery round with nobody interfering: exactly the accepted hints for `target` are gone, nothing held for
        anyone else changes, and the target is marked unreachable if and only if it was already or some call failed. */
    method DeliverHints(target: NodeId, outcomes: map<Key, RpcOutcome>)
      modifies this`hintsForTarget, this`unreachable
      ensures forall t: NodeId, k: Key :: HeldAt(hintsForTarget, t, k) ==
                if t == target && k in outcomes && outcomes[k] == Accepted
                    then None else HeldAt(old(hintsForTarget), t, k)
      ensures var keys := if target in old(hintsForTarget) then old(hintsForTarget)[target].Keys else {};
              unreachable == if Unanswered(keys, outcomes) then old(unreachable) + {target} else old(unreachable)
    {
      if target !in hintsForTarget { return; }
      var snapshot := hintsForTarget[target];
      var todo := snapshot.Keys;
      while todo != {}
        invariant todo <= snapshot.Keys
        invariant forall t: NodeId, k: Key :: HeldAt(hintsForTarget, t, k) ==
                    if t == target && k in snapshot.Keys - todo && k in outcomes && outcomes[k] == Accepted
                    then None else HeldAt(old(hintsForTarget), t, k)
        invariant unreachable == if Unanswered(snapshot.Keys - todo, outcomes)
            then old(unreachable) + {target} else old(unreachable)
        decreases todo
      {
        var key :| key in todo;
        var outcome := if key in outcomes then outcomes[key] else Refused;
        LeqReflexive(snapshot[key].clock);
        assert HeldAt(hintsForTarget, target, key) == Some(snapshot[key]);
        FinishDelivery(target, key, snapshot[key], outcome);
        UnansweredNext(snapshot.Keys - todo, key, outcomes);
        assert (snapshot.Keys - todo) + {key} == snapshot.Keys - (todo - {key});
        todo := todo - {key};
      }
    }
  }
}
