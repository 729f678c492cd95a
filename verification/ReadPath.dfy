/** A coordinated read: counting responses, choosing the winner, and repairing the replicas that lag (node_kv.cpp). */
module ReadPath {
  import opened Basics
  import opened VectorClocks
  import opened Resolution
  import opened Replica

  // One replica's answer; `None` means it answered that it does not hold the key.
  datatype ReplicaResult = ReplicaResult(peerId: NodeId, version: Option<Versioned>)

  datatype GetReply = GetReply(found: bool, value: string, responses: nat, context: Clock)

  function Found(results: seq<ReplicaResult>): seq<Versioned> {
    if results == [] then []
    else
      var front := Found(results[..|results| - 1]);
      match results[|results| - 1].version
      case None => front
      case Some(v) => front + [v]
  }

  lemma {:induction false} FoundMembers(results: seq<ReplicaResult>)
    ensures forall v :: v in Found(results) <==> exists i :: 0 <= i < |results| && results[i].version == Some(v)
  {
    if results != [] {
      var front, last := results[..|results| - 1], results[|results| - 1];
      FoundMembers(front);
      forall v
        ensures v in Found(results) <==> exists i :: 0 <= i < |results| && results[i].version == Some(v)
      {
        if i :| 0 <= i < |results| && results[i].version == Some(v) && i < |front| {
          assert front[i].version == Some(v);
        }
        if i :| 0 <= i < |front| && front[i].version == Some(v) {
          assert results[i].version == Some(v);
        }
        assert last.version == Some(v) ==> results[|results| - 1].version == Some(v);
      }
    }
  }

  lemma {:induction false} NothingFound(results: seq<ReplicaResult>)
    requires forall i :: 0 <= i < |results| ==> results[i].version == None
    ensures Found(results) == []
  {
    if results != [] { NothingFound(results[..|results| - 1]); }
  }

  ghost predicate IsStale(r: ReplicaResult, winner: Versioned) {
    r.version.None? || !Equiv(r.version.value.clock, winner.clock)
  }

  /** The peers to repair, in response order. */
  ghost function StalePeers(results: seq<ReplicaResult>, winner: Versioned): seq<NodeId> {
    if results == [] then []
    else
      var front, last := StalePeers(results[..|results| - 1], winner), results[|results| - 1];
      if IsStale(last, winner) then front + [last.peerId] else front
  }

  lemma {:induction false} NoStalePeers(results: seq<ReplicaResult>, winner: Versioned)
    requires forall i :: 0 <= i < |results| ==> !IsStale(results[i], winner)
    ensures StalePeers(results, winner) == []
  {
    if results != [] {
      NoStalePeers(results[..|results| - 1], winner);
    }
  }

  method CollectFound(results: seq<ReplicaResult>) returns (found: seq<Versioned>)
    ensures found == Found(results)
  {
    found := [];
    for i := 0 to |results|
      invariant found == Found(results[..i])
    {
      assert results[..i + 1][..i] == results[..i];
      if results[i].version.Some? {
        found := found + [results[i].version.value];
      }
    }
    assert results[..|results|] == results;
  }

  method CollectStale(results: seq<ReplicaResult>, winner: Versioned) returns (stale: seq<NodeId>)
    ensures stale == StalePeers(results, winner)
  {
    stale := [];
    for i := 0 to |results|
      invariant stale == StalePeers(results[..i], winner)
    {
      assert results[..i + 1][..i] == results[..i];
      if results[i].version.Some? {
        var res := CompareVectorClocks(results[i].version.value.clock, winner.clock);
        if res != EQUAL { stale := stale + [results[i].peerId]; }
      } else {
        stale := stale + [results[i].peerId];
      }
    }
    assert results[..|results|] == results;
  }

  /** The read handler once the responses are in. The peers returned (this node possibly among them) are each sent the
      winner as an ordinary replicated write. */
  method FinishGet(results: seq<ReplicaResult>, R: int)
    returns (reply: GetReply, repairs: seq<NodeId>, winner: Option<Versioned>)
    ensures reply.responses == |results|
    ensures reply.found == winner.Some? == (|results| >= R && Found(results) != [])
    ensures winner.Some? ==>
              && winner.value == Resolve(Found(results)).winner
              && reply.value == winner.value.value && reply.context == winner.value.clock
              && repairs == StalePeers(results, winner.value)
    ensures winner.None? ==> repairs == []
  {
    reply, repairs, winner := GetReply(false, "", |results|, EMPTY_CLOCK), [], None;
    if |results| < R { return; }
    var found := CollectFound(results);
    if found == [] { return; }
    var resolved := ResolveGetResult(found);
    winner := Some(resolved.winner);
    repairs := CollectStale(results, resolved.winner);
    reply := GetReply(true, resolved.winner.value, |results|, resolved.winner.clock);
  }

  // ---- read repair --------------------------------------------------------

  /** Exactly the peers that lack the key or do not stand at the winner's clock are repaired. */
  lemma {:induction false} StalePeersExact(results: seq<ReplicaResult>, winner: Versioned, n: NodeId)
    ensures n in StalePeers(results, winner) <==>
              exists i :: 0 <= i < |results| && results[i].peerId == n
                && (results[i].version.None? || !Equiv(results[i].version.value.clock, winner.clock))
  {
    var at := StalePositions(results, winner);
    if n in StalePeers(results, winner) {
      var p :| 0 <= p < |at| && StalePeers(results, winner)[p] == n;
      assert results[at[p]].peerId == n;
    }
    if i :| 0 <= i < |results| && results[i].peerId == n
            && (results[i].version.None? || !Equiv(results[i].version.value.clock, winner.clock)) {
      var p :| 0 <= p < |at| && at[p] == i;
      assert StalePeers(results, winner)[p] == n;
    }
  }

  /** They are listed once per response, in response order. */
  lemma {:induction false} StalePositions(results: seq<ReplicaResult>, winner: Versioned) returns (at: seq<nat>)
    ensures |at| == |StalePeers(results, winner)|
    ensures forall p :: 0 <= p < |at| ==>
              && at[p] < |results| && results[at[p]].peerId == StalePeers(results, winner)[p]
              && (results[at[p]].version.None? || !Equiv(results[at[p]].version.value.clock, winner.clock))
    ensures forall p, q :: 0 <= p < q < |at| ==> at[p] < at[q]
    ensures forall i: nat :: i < |results| ==>
              results[i].version.None? || !Equiv(results[i].version.value.clock, winner.clock) ==> i in at
  {
    at := [];
    if results != [] {
      var front, last := results[..|results| - 1], results[|results| - 1];
      at := StalePositions(front, winner);
      if last.version.None? || !Equiv(last.version.value.clock, winner.clock) { at := at + [|results| - 1]; }
    }
  }

  /** The versions found are those of the responses that hold the key, once each, in response order. */
  lemma {:induction false} FoundPositions(results: seq<ReplicaResult>) returns (at: seq<nat>)
    ensures |at| == |Found(results)|
    ensures forall p :: 0 <= p < |at| ==> at[p] < |results| && results[at[p]].version == Some(Found(results)[p])
    ensures forall p, q :: 0 <= p < q < |at| ==> at[p] < at[q]
    ensures forall i: nat :: i < |results| && results[i].version.Some? ==> i in at
  {
    at := [];
    if results != [] {
      at := FoundPositions(results[..|results| - 1]);
      if results[|results| - 1].version.Some? { at := at + [|results| - 1]; }
    }
  }

  /** What the responders hold once exactly the peers in `repairs` have received the winner. */
  ghost function AfterRepairs(results: seq<ReplicaResult>, repairs: seq<NodeId>, winner: Versioned)
    : (after: seq<ReplicaResult>)
    ensures |after| == |results|
  {
    seq(|results|, i requires 0 <= i < |results| =>
      if results[i].peerId in repairs
      then ReplicaResult(results[i].peerId, Some(AcceptUnlessCovered(results[i].version, winner)))
      else results[i])
  }

  /** No response can refuse the winner: a stale one is missing, behind, or concurrent, never ahead. */
  lemma {:induction false} RepairIsStored(results: seq<ReplicaResult>, i: nat)
    requires Found(results) != [] && i < |results|
    ensures var w := Resolve(Found(results)).winner;
            IsStale(results[i], w) ==>
              && StoreOutcome(results[i].version, w) == STORED
              && AcceptUnlessCovered(results[i].version, w) == w
  {
    var found := Found(results);
    WinnerMeaning(found);
    FoundMembers(results);
    var w := Resolve(found).winner;
    if results[i].version.Some? {
      var v := results[i].version.value;
      assert v in found;
      var p :| 0 <= p < |found| && found[p] == v;
      assert !Lt(w.clock, found[p].clock);
    }
  }

  /** One round of repair is a fixpoint: every repair on the list is stored; once exactly the listed peers have
      received the winner all responders stand at its clock; and reading them again finds no conflict, the same clock
      and nothing to repair. */
  lemma {:induction false} ReadRepairFixpoint(results: seq<ReplicaResult>)
    requires Found(results) != []
    ensures var w := Resolve(Found(results)).winner;
            var repairs := StalePeers(results, w);
            var after := AfterRepairs(results, repairs, w);
            && (forall i :: 0 <= i < |results| && IsStale(results[i], w) ==>
                  results[i].peerId in repairs && StoreOutcome(results[i].version, w) == STORED)
            && (forall i :: 0 <= i < |after| ==>
                  after[i].version.Some? && Equiv(after[i].version.value.clock, w.clock))
            && Found(after) != []
            && Equiv(Resolve(Found(after)).winner.clock, w.clock)
            && Resolve(Found(after)).concurrentCount == 1
            && StalePeers(after, Resolve(Found(after)).winner) == []
  {
    var w := Resolve(Found(results)).winner;
    var repairs := StalePeers(results, w);
    var after := AfterRepairs(results, repairs, w);
    LeqReflexive(w.clock);
    forall i | 0 <= i < |results|
      ensures IsStale(results[i], w) ==>
                results[i].peerId in repairs && StoreOutcome(results[i].version, w) == STORED
      ensures after[i].version.Some? && Equiv(after[i].version.value.clock, w.clock)
    {
      RepairIsStored(results, i);
      StalePeersExact(results, w, results[i].peerId);
    }
    FoundMembers(after);
    assert results != [];
    assert after[0].version.value in Found(after);
    AgreeingRead(after, w.clock);
  }

  /** Of two concurrent coordinated writes a read returns the one with the later timestamp, or, at the same time, the
      greater writer, whichever answer came first. */
  lemma LaterWriterWins(p: Option<Versioned>, x: string, c: Option<Clock>, a: NodeId, t: int,
                        q: Option<Versioned>, y: string, d: Option<Clock>, b: NodeId, u: int)
    requires Concurrent(CommitVersion(p, x, c, a, t).clock, CommitVersion(q, y, d, b, u).clock)
    requires t < u || (t == u && StringLess(a, b))
    ensures var v, w := CommitVersion(p, x, c, a, t), CommitVersion(q, y, d, b, u);
            Resolve([v, w]).winner == w && Resolve([w, v]).winner == w && w.value == y
  {
    var v, w := CommitVersion(p, x, c, a, t), CommitVersion(q, y, d, b, u);
    NewClockStamp(c, ClockOf(p), a, t);
    NewClockStamp(d, ClockOf(q), b, u);
    NewestSurvivorWins([v, w], 1);
    NewestSurvivorWins([w, v], 0);
  }

  /** Reading responders that all stand at one clock. */
  lemma {:induction false} AgreeingRead(results: seq<ReplicaResult>, clock: Clock)
    requires results != []
    requires forall i :: 0 <= i < |results| ==> results[i].version.Some? && Equiv(results[i].version.value.clock, clock)
    ensures Found(results) != []
    ensures Equiv(Resolve(Found(results)).winner.clock, clock)
    ensures Resolve(Found(results)).concurrentCount == 1
    ensures StalePeers(results, Resolve(Found(results)).winner) == []
  {
    FoundMembers(results);
    var found := Found(results);
    assert results[0].version.value in found;
    forall p | 0 <= p < |found|
      ensures Equiv(found[p].clock, clock)
    {
      assert found[p] in found;
    }
    forall p: nat | p < |found|
      ensures Leq(found[p].clock, found[0].clock)
    {
      LeqTransitive(found[p].clock, clock, found[0].clock);
    }
    GreatestWins(found, 0);
    var w := Resolve(found).winner;
    LeqTransitive(w.clock, found[0].clock, clock);
    LeqTransitive(clock, found[0].clock, w.clock);
    forall i | 0 <= i < |results|
      ensures !IsStale(results[i], w)
    {
      LeqTransitive(results[i].version.value.clock, clock, w.clock);
      LeqTransitive(w.clock, clock, results[i].version.value.clock);
    }
    NoStalePeers(results, w);
  }
}
