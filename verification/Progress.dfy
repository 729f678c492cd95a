/** What can always happen next: from any state a write can reach a replica and be acknowledged, a hint can be held, a
    held hint can be delivered and erased, and a repair can arrive; and what is then stored. */
module Progress {
  import opened Basics
  import opened VectorClocks
  import opened Replica
  import opened Protocol
  import opened Durability
  import opened QuorumReads

  lemma ThreeSteps(s: State, a: Step, b: Step, c: Step) returns (ts: seq<State>, us: seq<Step>)
    requires Enabled(s, a) && Enabled(Do(s, a), b) && Enabled(Do(Do(s, a), b), c)
    ensures IsPath(ts, us) && ts[0] == s && us == [a, b, c] && Last(ts) == Do(Do(Do(s, a), b), c)
  {
    ts, us := [s, Do(s, a)], [a];
    PathExtends(ts, us, b);
    ts, us := ts + [Do(Do(s, a), b)], us + [b];
    PathExtends(ts, us, c);
    ts, us := ts + [Do(Do(Do(s, a), b), c)], us + [c];
  }

  /** A coordinated write can reach any replica and be acknowledged; the replica then covers it, and nothing else is
      stored or held differently. */
  lemma WriteCompletes(s: State, i: nat, n: NodeId) returns (ts: seq<State>, us: seq<Step>)
    requires i < |s.puts|
    ensures IsPath(ts, us) && ts[0] == s
    ensures var t, p, cell := Last(ts), s.puts[i], Cell(n, s.puts[i].key);
            && t.store == s.store[cell := AcceptUnlessCovered(Lookup(s.store, cell), p.version)]
            && Covered(p.version, Lookup(t.store, cell))
            && t.held == s.held && t.puts == s.puts && t.gets == s.gets
            && t.acks == s.acks + {Stored(i, n)}
  {
    var p, cell := s.puts[i], Cell(n, s.puts[i].key);
    ts, us := ThreeSteps(s, SendWrite(i, n), ReceiveWrite(Write(n, p.key, p.version, FromPut(i))),
        ReceiveAck(Stored(i, n)));
    ReplicaCovers(Lookup(s.store, cell), p.version);
  }

  /** A node can be given a write to hold for another one, and acknowledge it. */
  lemma HintCompletes(s: State, i: nat, holder: NodeId, target: NodeId) returns (ts: seq<State>, us: seq<Step>)
    requires i < |s.puts|
    ensures IsPath(ts, us) && ts[0] == s
    ensures var t, p, slot := Last(ts), s.puts[i], Slot(holder, target, s.puts[i].key);
            && t.held == s.held[slot := AcceptUnlessCovered(HeldIn(s.held, slot), p.version)]
            && Covered(p.version, HeldIn(t.held, slot))
            && t.store == s.store && t.puts == s.puts && t.gets == s.gets
            && t.acks == s.acks + {HeldFor(i, holder, target)}
  {
    var p, slot := s.puts[i], Slot(holder, target, s.puts[i].key);
    ts, us := ThreeSteps(s, SendHint(i, holder, target), ReceiveHint(Hint(holder, target, i)),
                         ReceiveAck(HeldFor(i, holder, target)));
    ReplicaCovers(HeldIn(s.held, slot), p.version);
  }

  /** A held hint can be delivered: the target then covers it, and the hint, and only it, is gone. */
  lemma DeliveryCompletes(s: State, slot: Slot) returns (ts: seq<State>, us: seq<Step>)
    requires slot in s.held
    ensures IsPath(ts, us) && ts[0] == s
    ensures var t, cell := Last(ts), Cell(slot.target, slot.key);
            && t.held == s.held - {slot}
            && t.store == s.store[cell := AcceptUnlessCovered(Lookup(s.store, cell), s.held[slot])]
            && Covered(s.held[slot], Lookup(t.store, cell))
            && t.puts == s.puts && t.gets == s.gets && t.acks == s.acks
  {
    var v, cell := s.held[slot], Cell(slot.target, slot.key);
    LeqReflexive(v.clock);
    ts, us := ThreeSteps(s, SendHeld(slot), ReceiveWrite(Write(slot.target, slot.key, v, FromDelivery(slot))),
                         Step.FinishDelivery(Delivered(slot, v)));
    ReplicaCovers(Lookup(s.store, cell), v);
  }

  /** A finished read's repair can reach a stale responder, which then covers the winner. */
  lemma RepairCompletes(s: State, read: nat, responders: seq<NodeId>, n: NodeId) returns (ts: seq<State>, us: seq<Step>)
    requires Enabled(s, FinishRead(read, responders)) && WinnerOf(s.gets[read], responders).Some?
    requires Write(n, s.gets[read].key, WinnerOf(s.gets[read], responders).value, FromRepair)
             in RepairsOf(s.gets[read], responders)
    ensures IsPath(ts, us) && ts[0] == s
    ensures var t, r := Last(ts), s.gets[read];
            var w, cell := WinnerOf(r, responders).value, Cell(n, r.key);
            && t.gets == s.gets[read := r.(result := Some(Result(responders, Some(w))))]
            && t.store == s.store[cell := AcceptUnlessCovered(Lookup(s.store, cell), w)]
            && Covered(w, Lookup(t.store, cell)) && (r.key, w.clock) in t.contexts
  {
    var r := s.gets[read];
    var w := WinnerOf(r, responders).value;
    var a, b := FinishRead(read, responders), ReceiveWrite(Write(n, r.key, w, FromRepair));
    var s1 := Do(s, a);
    ts, us := [s, s1, Do(s1, b)], [a, b];
    ReplicaCovers(Lookup(s.store, Cell(n, r.key)), w);
  }

  /** Every write can have the acknowledgement of every owner, whatever happened before. */
  lemma {:induction false} OwnersCanAcknowledge(s: State, i: nat, owners: set<NodeId>)
    returns (ts: seq<State>, us: seq<Step>)
    requires i < |s.puts|
    ensures IsPath(ts, us) && ts[0] == s && Last(ts).puts == s.puts
    ensures owners <= Acknowledged(Last(ts), i)
    decreases owners
  {
    if owners == {} {
      ts, us := [s], [];
    } else {
      var n :| n in owners;
      var ts1, us1 := OwnersCanAcknowledge(s, i, owners - {n});
      var ts2, us2 := WriteCompletes(Last(ts1), i, n);
      PathAppend(ts1, us1, ts2, us2);
      ts, us := ts1 + ts2[1..], us1 + us2;
      assert Stored(i, n) in Last(ts).acks;
      forall m | m in owners
        ensures m in Acknowledged(Last(ts), i)
      {
        if m != n { StillAcknowledged(Last(ts1), Last(ts), i, m); }
      }
    }
  }

  lemma StillAcknowledged(s: State, t: State, i: nat, n: NodeId)
    requires n in Acknowledged(s, i) && s.acks <= t.acks
    ensures n in Acknowledged(t, i)
  {
  }
}
