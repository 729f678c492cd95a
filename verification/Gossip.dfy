/** Gossip over whole runs: the ring of every node follows its table in every reachable state, and nodes that have
    absorbed the same tables, by whatever route, hold the same table, ring and preference lists
    (node_membership.cpp). */
module Gossip {
  import opened Basics
  import opened Ring
  import opened Membership

  // `absorbed` records which tables have flowed into this one; the program itself does not keep it.
  datatype Peer = Peer(view: View, absorbed: set<Table>)

  // A gossip request or response on its way; it may arrive late, more than once, or never.
  datatype Letter = Letter(table: Table, absorbed: set<Table>)

  datatype Cluster = Cluster(peers: map<NodeId, Peer>, letters: set<Letter>)

  datatype Step =
    | Boot(node: NodeId, now: int)
    | Send(node: NodeId)
    | Receive(node: NodeId, letter: Letter, order: seq<NodeId>)
    | Remove(node: NodeId, target: NodeId, now: int)

  ghost predicate Enabled(c: Cluster, step: Step, ids: set<NodeId>) {
    match step
    case Boot(node, _) => node in ids
    case Send(node) => node in c.peers
    case Receive(node, letter, order) => node in c.peers && letter in c.letters && Visits(order, letter.table)
    case Remove(node, _, _) => node in c.peers
  }

  /** Booting covers restarts too: the node comes back knowing only itself. */
  ghost function Do(c: Cluster, step: Step, tok: NodeId -> seq<Token>, ids: set<NodeId>): Cluster
    requires Enabled(c, step, ids)
  {
    match step
    case Boot(node, now) =>
      var v := InitialView(node, tok(node), now);
      c.(peers := c.peers[node := Peer(v, {v.table})])
    case Send(node) =>
      c.(letters := c.letters + {Letter(c.peers[node].view.table, c.peers[node].absorbed)})
    case Receive(node, letter, order) =>
      var p := c.peers[node];
      c.(peers := c.peers[node := Peer(MergeInOrder(p.view, letter.table, order), p.absorbed + letter.absorbed)])
    case Remove(node, target, now) =>
      var v := RemoveEntry(c.peers[node].view, node, target, now);
      c.(peers := c.peers[node := Peer(v, {v.table})])
  }

  ghost predicate IsRun(cs: seq<Cluster>, steps: seq<Step>, tok: NodeId -> seq<Token>, ids: set<NodeId>) {
    && |cs| == |steps| + 1
    && forall i {:trigger steps[i]} :: 0 <= i < |steps| ==>
        Enabled(cs[i], steps[i], ids) && cs[i + 1] == Do(cs[i], steps[i], tok, ids)
  }

  lemma RunPrefix(cs: seq<Cluster>, steps: seq<Step>, tok: NodeId -> seq<Token>, ids: set<NodeId>)
    requires IsRun(cs, steps, tok, ids) && steps != []
    ensures var k := |steps| - 1;
            && IsRun(cs[..k + 1], steps[..k], tok, ids)
            && Enabled(cs[k], steps[k], ids) && cs[k + 1] == Do(cs[k], steps[k], tok, ids)
  {
    assert Enabled(cs[|steps| - 1], steps[|steps| - 1], ids);
  }

  // ---- coherence --------------------------------------------------------------------

  /** Every node's ring is exactly the one its table calls for, and only tidy tables circulate. */
  ghost predicate AllCoherent(c: Cluster, tok: NodeId -> seq<Token>, ids: set<NodeId>) {
    && (forall n :: n in c.peers ==> Coherent(c.peers[n].view) && Tidy(c.peers[n].view.table, tok, ids))
    && (forall l :: l in c.letters ==> Tidy(l.table, tok, ids))
  }

  lemma StepKeepsCoherent(c: Cluster, step: Step, tok: NodeId -> seq<Token>, ids: set<NodeId>)
    requires AllCoherent(c, tok, ids) && Disjoint(tok, ids) && Enabled(c, step, ids)
    ensures AllCoherent(Do(c, step, tok, ids), tok, ids)
  {
    match step
    case Boot(node, now) => InitialCoherent(node, now, tok, ids);
    case Send(node) =>
    case Receive(node, letter, order) => MergeCoherent(c.peers[node].view, letter.table, order, tok, ids);
    case Remove(node, target, now) => RemoveCoherent(c.peers[node].view, node, target, now, tok, ids);
  }

  /** Ring and table agree at every node in every reachable state, through boots, restarts, discoveries, removals
      learned second-hand, returns and refreshes. */
  lemma {:induction false} RingFollowsTable(cs: seq<Cluster>, steps: seq<Step>, tok: NodeId -> seq<Token>,
                                            ids: set<NodeId>)
    requires IsRun(cs, steps, tok, ids) && Disjoint(tok, ids) && AllCoherent(cs[0], tok, ids)
    ensures AllCoherent(cs[|steps|], tok, ids)
    decreases |steps|
  {
    if steps != [] {
      var k := |steps| - 1;
      RunPrefix(cs, steps, tok, ids);
      RingFollowsTable(cs[..k + 1], steps[..k], tok, ids);
      StepKeepsCoherent(cs[k], steps[k], tok, ids);
    }
  }

  /** A cluster nobody has booted yet is a lawful start. */
  lemma EmptyClusterCoherent(tok: NodeId -> seq<Token>, ids: set<NodeId>)
    ensures AllCoherent(Cluster(map[], {}), tok, ids)
  {
  }

  // ---- convergence --------------------------------------------------------------------

  /** `t` is the join of the tables in `sources`: it knows the nodes any of them knows, and for each the
      newest entry. */
  ghost predicate IsJoin(t: Table, sources: set<Table>) {
    && (forall n :: n in t <==> exists s :: s in sources && n in s)
    && (forall n :: n in t ==> exists s :: s in sources && n in s && t[n] == s[n])
    && (forall n, s: Table :: n in t && s in sources && n in s ==> !Newer(s[n].Stamp(), t[n].Stamp()))
  }

  ghost predicate AllAgree(sources: set<Table>) {
    forall a, b :: a in sources && b in sources ==> Agree(a, b)
  }

  lemma JoinOfOne(t: Table)
    ensures IsJoin(t, {t})
  {
    forall n | n in t ensures !Newer(t[n].Stamp(), t[n].Stamp()) { NewerTotal(t[n].Stamp(), t[n].Stamp()); }
    assert forall n :: n in t ==> t in {t} && n in t;
  }

  /** Joins of the same tables are the same table. */
  lemma JoinUnique(t: Table, u: Table, sources: set<Table>)
    requires IsJoin(t, sources) && IsJoin(u, sources) && AllAgree(sources)
    ensures t == u
  {
    forall n | n in t
      ensures n in u && t[n] == u[n]
    {
      var s :| s in sources && n in s && t[n] == s[n];
      assert n in u;
      var r :| r in sources && n in r && u[n] == r[n];
      assert Agree(s, r);
      NewerTotal(t[n].Stamp(), u[n].Stamp());
    }
    forall n | n in u ensures n in t {}
  }

  lemma JoinKeys(t: Table, a: set<Table>, u: Table, b: set<Table>, n: NodeId)
    requires IsJoin(t, a) && IsJoin(u, b)
    ensures n in MergeTables(t, u) <==> exists s :: s in a + b && n in s
  {
    if n in t {
      var s :| s in a && n in s;
      assert s in a + b;
    }
    if n in u {
      var s :| s in b && n in s;
      assert s in a + b;
    }
  }

  lemma JoinEntry(t: Table, a: set<Table>, u: Table, b: set<Table>, n: NodeId)
    requires IsJoin(t, a) && IsJoin(u, b) && n in MergeTables(t, u)
    ensures exists s :: s in a + b && n in s && MergeTables(t, u)[n] == s[n]
  {
    var m := MergeTables(t, u);
    if n in t && m[n] == t[n] {
      var s :| s in a && n in s && t[n] == s[n];
      assert s in a + b;
    } else {
      var s :| s in b && n in s && u[n] == s[n];
      assert s in a + b;
    }
  }

  lemma JoinNewest(t: Table, a: set<Table>, u: Table, b: set<Table>, n: NodeId, s: Table)
    requires IsJoin(t, a) && IsJoin(u, b) && n in MergeTables(t, u)
    requires s in a + b && n in s
    ensures !Newer(s[n].Stamp(), MergeTables(t, u)[n].Stamp())
  {
    var m := MergeTables(t, u);
    if s in a { assert n in t; } else { assert n in u; }
    if n in t && n in u {
      var st, su, ss := t[n].Stamp(), u[n].Stamp(), s[n].Stamp();
      NewerTotal(st, su);
      NewerTotal(ss, m[n].Stamp());
      if Newer(ss, m[n].Stamp()) {
        if s in a && m[n] == u[n] && Newer(su, st) { NewerTransitive(ss, su, st); }
        if s in b && m[n] == t[n] && Newer(st, su) { NewerTransitive(ss, st, su); }
      }
    }
  }

  lemma MergeJoins(t: Table, a: set<Table>, u: Table, b: set<Table>)
    requires IsJoin(t, a) && IsJoin(u, b)
    ensures IsJoin(MergeTables(t, u), a + b)
  {
    var m := MergeTables(t, u);
    forall n ensures n in m <==> exists s :: s in a + b && n in s { JoinKeys(t, a, u, b, n); }
    forall n | n in m ensures exists s :: s in a + b && n in s && m[n] == s[n] { JoinEntry(t, a, u, b, n); }
    forall n, s: Table | n in m && s in a + b && n in s
      ensures !Newer(s[n].Stamp(), m[n].Stamp())
    {
      JoinNewest(t, a, u, b, n, s);
    }
  }

  /** Only gossip happens: nobody boots, restarts or is removed. */
  predicate Quiet(steps: seq<Step>) {
    forall i :: 0 <= i < |steps| ==> steps[i].Send? || steps[i].Receive?
  }

  /** The start of the observation: every table, held or in flight, stands for itself. */
  ghost predicate FreshStart(c: Cluster) {
    && (forall n :: n in c.peers ==> c.peers[n].absorbed == {c.peers[n].view.table})
    && (forall l :: l in c.letters ==> l.absorbed == {l.table})
  }

  ghost function Sources(c: Cluster): set<Table> {
    (set n | n in c.peers :: c.peers[n].view.table) + (set l | l in c.letters :: l.table)
  }

  ghost predicate AllJoins(c: Cluster, sources: set<Table>) {
    && (forall n :: n in c.peers ==>
        IsJoin(c.peers[n].view.table, c.peers[n].absorbed) && c.peers[n].absorbed <= sources)
    && (forall l :: l in c.letters ==> IsJoin(l.table, l.absorbed) && l.absorbed <= sources)
  }

  lemma StepKeepsJoins(c: Cluster, step: Step, sources: set<Table>, tok: NodeId -> seq<Token>, ids: set<NodeId>)
    requires AllJoins(c, sources) && Enabled(c, step, ids) && (step.Send? || step.Receive?)
    ensures AllJoins(Do(c, step, tok, ids), sources)
  {
    if step.Receive? {
      var p := c.peers[step.node];
      MergeIgnoresOrder(p.view, step.letter.table, step.order);
      MergeJoins(p.view.table, p.absorbed, step.letter.table, step.letter.absorbed);
    }
  }

  lemma {:induction false} RunKeepsJoins(cs: seq<Cluster>, steps: seq<Step>, tok: NodeId -> seq<Token>,
                                         ids: set<NodeId>)
    requires IsRun(cs, steps, tok, ids) && Quiet(steps) && FreshStart(cs[0])
    ensures AllJoins(cs[|steps|], Sources(cs[0]))
    decreases |steps|
  {
    if steps == [] {
      forall n | n in cs[0].peers ensures IsJoin(cs[0].peers[n].view.table, cs[0].peers[n].absorbed) {
        JoinOfOne(cs[0].peers[n].view.table);
      }
      forall l | l in cs[0].letters ensures IsJoin(l.table, l.absorbed) { JoinOfOne(l.table); }
    } else {
      var k := |steps| - 1;
      RunPrefix(cs, steps, tok, ids);
      assert Quiet(steps[..k]);
      RunKeepsJoins(cs[..k + 1], steps[..k], tok, ids);
      StepKeepsJoins(cs[k], steps[k], Sources(cs[0]), tok, ids);
    }
  }

  /** Gossip converges: after any quiet exchange, delayed, duplicated, reordered or lost in part, two nodes into which
      the same tables have flowed hold the same table and the same ring, hence the same walk from every key. */
  lemma GossipConverges(cs: seq<Cluster>, steps: seq<Step>, tok: NodeId -> seq<Token>, ids: set<NodeId>, n: NodeId,
                        m: NodeId)
    requires IsRun(cs, steps, tok, ids) && Quiet(steps) && FreshStart(cs[0])
    requires AllCoherent(cs[0], tok, ids) && Disjoint(tok, ids) && AllAgree(Sources(cs[0]))
    requires n in cs[|steps|].peers && m in cs[|steps|].peers
    requires cs[|steps|].peers[n].absorbed == cs[|steps|].peers[m].absorbed
    ensures var c := cs[|steps|];
            && c.peers[n].view == c.peers[m].view
            && forall h :: NodesFrom(c.peers[n].view.ring, h) == NodesFrom(c.peers[m].view.ring, h)
  {
    var c := cs[|steps|];
    RunKeepsJoins(cs, steps, tok, ids);
    RingFollowsTable(cs, steps, tok, ids);
    assert AllAgree(c.peers[n].absorbed);
    JoinUnique(c.peers[n].view.table, c.peers[m].view.table, c.peers[n].absorbed);
    CoherentRingsEqual(c.peers[n].view, c.peers[m].view);
  }

  /** What a node has absorbed only grows while it gossips, and it absorbs everything the letters it receives had. */
  lemma AbsorbsLetters(c: Cluster, step: Step, tok: NodeId -> seq<Token>, ids: set<NodeId>, n: NodeId)
    requires Enabled(c, step, ids) && (step.Send? || step.Receive?) && n in c.peers
    ensures var d := Do(c, step, tok, ids);
            && n in d.peers && c.peers[n].absorbed <= d.peers[n].absorbed
            && (step.Receive? && step.node == n ==> d.peers[n].absorbed == c.peers[n].absorbed + step.letter.absorbed)
  {
  }

  /** One undisturbed push-pull exchange, step by step: `n` sends, `m` merges and answers, `n` merges. Both end with the
      merge of the two tables, having absorbed the same. */
  lemma ExchangeEqualizes(c: Cluster, n: NodeId, m: NodeId, order: seq<NodeId>, back: seq<NodeId>,
                          tok: NodeId -> seq<Token>, ids: set<NodeId>)
    returns (cs: seq<Cluster>, steps: seq<Step>)
    requires n in c.peers && m in c.peers && n != m
    requires Agree(c.peers[n].view.table, c.peers[m].view.table)
    requires Visits(order, c.peers[n].view.table)
    requires Visits(back, MergeTables(c.peers[m].view.table, c.peers[n].view.table))
    ensures IsRun(cs, steps, tok, ids) && |steps| == 4 && cs[0] == c
    ensures steps[0] == Send(n) && steps[1].Receive? && steps[2] == Send(m) && steps[3].Receive?
    ensures var d, merged := cs[4], MergeTables(c.peers[m].view.table, c.peers[n].view.table);
            && n in d.peers && m in d.peers
            && d.peers[n].view.table == d.peers[m].view.table == merged
            && d.peers[n].absorbed == d.peers[m].absorbed == c.peers[n].absorbed + c.peers[m].absorbed
  {
    var push := Letter(c.peers[n].view.table, c.peers[n].absorbed);
    var c1 := Do(c, Send(n), tok, ids);
    var c2 := Do(c1, Receive(m, push, order), tok, ids);
    MergeIgnoresOrder(c.peers[m].view, push.table, order);
    var pull := Letter(c2.peers[m].view.table, c2.peers[m].absorbed);
    var c3 := Do(c2, Send(m), tok, ids);
    var c4 := Do(c3, Receive(n, pull, back), tok, ids);
    MergeIgnoresOrder(c.peers[n].view, pull.table, back);
    PushPullEqualizes(c.peers[n].view.table, c.peers[m].view.table);
    cs, steps := [c, c1, c2, c3, c4], [Send(n), Receive(m, push, order), Send(m), Receive(n, pull, back)];
  }

  // ---- why tables agree ---------------------------------------------------------------

  /** The entries a step writes itself, rather than copies from another table. */
  ghost function WrittenAt(c: Cluster, step: Step, tok: NodeId -> seq<Token>, ids: set<NodeId>): set<(NodeId, Entry)>
    requires Enabled(c, step, ids)
  {
    match step
    case Boot(node, now) => {(node, Entry(node, node, UP, tok(node), now))}
    case Send(_) => {}
    case Receive(_, _, _) => {}
    case Remove(node, target, now) =>
      var after := RemoveEntry(c.peers[node].view, node, target, now).table;
      if target in after then {(target, after[target])} else {}
  }

  ghost predicate WrittenInRun(cs: seq<Cluster>, steps: seq<Step>, tok: NodeId -> seq<Token>, ids: set<NodeId>,
                               n: NodeId, e: Entry)
    requires IsRun(cs, steps, tok, ids)
  {
    exists i :: 0 <= i < |steps| && (n, e) in WrittenAt(cs[i], steps[i], tok, ids)
  }

  /** No two different entries of one node are ever written with the same timestamp and writer. */
  ghost predicate StampsNeverReused(cs: seq<Cluster>, steps: seq<Step>, tok: NodeId -> seq<Token>, ids: set<NodeId>)
    requires IsRun(cs, steps, tok, ids)
  {
    forall n, e: Entry, f: Entry ::
      (WrittenInRun(cs, steps, tok, ids, n, e) && WrittenInRun(cs, steps, tok, ids, n, f) && e.Stamp() == f.Stamp()) ==>
      e == f
  }

  ghost predicate OnlyWritten(t: Table, cs: seq<Cluster>, steps: seq<Step>, tok: NodeId -> seq<Token>, ids: set<NodeId>)
    requires IsRun(cs, steps, tok, ids)
  {
    forall n :: n in t ==> WrittenInRun(cs, steps, tok, ids, n, t[n])
  }

  lemma WrittenLater(cs: seq<Cluster>, steps: seq<Step>, tok: NodeId -> seq<Token>, ids: set<NodeId>, t: Table)
    requires IsRun(cs, steps, tok, ids) && steps != []
    requires IsRun(cs[..|steps|], steps[..|steps| - 1], tok, ids)
    requires OnlyWritten(t, cs[..|steps|], steps[..|steps| - 1], tok, ids)
    ensures OnlyWritten(t, cs, steps, tok, ids)
  {
    var k := |steps| - 1;
    forall n | n in t
      ensures WrittenInRun(cs, steps, tok, ids, n, t[n])
    {
      var i :| 0 <= i < k && (n, t[n]) in WrittenAt(cs[..k + 1][i], steps[..k][i], tok, ids);
      assert cs[..k + 1][i] == cs[i] && steps[..k][i] == steps[i];
    }
  }

  lemma WrittenNow(cs: seq<Cluster>, steps: seq<Step>, tok: NodeId -> seq<Token>, ids: set<NodeId>, n: NodeId, e: Entry)
    requires IsRun(cs, steps, tok, ids) && steps != []
    requires Enabled(cs[|steps| - 1], steps[|steps| - 1], ids)
    requires (n, e) in WrittenAt(cs[|steps| - 1], steps[|steps| - 1], tok, ids)
    ensures WrittenInRun(cs, steps, tok, ids, n, e)
  {
  }

  ghost predicate AllWritten(c: Cluster, cs: seq<Cluster>, steps: seq<Step>, tok: NodeId -> seq<Token>,
                             ids: set<NodeId>)
    requires IsRun(cs, steps, tok, ids)
  {
    && (forall n :: n in c.peers ==> OnlyWritten(c.peers[n].view.table, cs, steps, tok, ids))
    && (forall l :: l in c.letters ==> OnlyWritten(l.table, cs, steps, tok, ids))
  }

  lemma StepKeepsWritten(cs: seq<Cluster>, steps: seq<Step>, tok: NodeId -> seq<Token>, ids: set<NodeId>)
    requires IsRun(cs, steps, tok, ids) && steps != []
    requires AllWritten(cs[|steps| - 1], cs, steps, tok, ids)
    requires Enabled(cs[|steps| - 1], steps[|steps| - 1], ids)
    requires cs[|steps|] == Do(cs[|steps| - 1], steps[|steps| - 1], tok, ids)
    ensures AllWritten(cs[|steps|], cs, steps, tok, ids)
  {
    var c, step := cs[|steps| - 1], steps[|steps| - 1];
    match step
    case Boot(node, now) =>
      WrittenNow(cs, steps, tok, ids, node, Entry(node, node, UP, tok(node), now));
    case Send(_) =>
    case Receive(node, letter, order) =>
      MergeIgnoresOrder(c.peers[node].view, letter.table, order);
    case Remove(node, target, now) =>
      var after := RemoveEntry(c.peers[node].view, node, target, now).table;
      if target in after { WrittenNow(cs, steps, tok, ids, target, after[target]); }
  }

  lemma {:induction false} RunWritten(cs: seq<Cluster>, steps: seq<Step>, tok: NodeId -> seq<Token>, ids: set<NodeId>)
    requires IsRun(cs, steps, tok, ids) && cs[0] == Cluster(map[], {})
    ensures AllWritten(cs[|steps|], cs, steps, tok, ids)
    decreases |steps|
  {
    if steps != [] {
      var k := |steps| - 1;
      RunPrefix(cs, steps, tok, ids);
      RunWritten(cs[..k + 1], steps[..k], tok, ids);
      forall n | n in cs[k].peers ensures OnlyWritten(cs[k].peers[n].view.table, cs, steps, tok, ids) {
        WrittenLater(cs, steps, tok, ids, cs[k].peers[n].view.table);
      }
      forall l | l in cs[k].letters ensures OnlyWritten(l.table, cs, steps, tok, ids) {
        WrittenLater(cs, steps, tok, ids, l.table);
      }
      StepKeepsWritten(cs, steps, tok, ids);
    }
  }

  /** After any history from an empty cluster in which stamps are never reused, all tables, held or in flight, agree. */
  lemma HistoryAgrees(cs: seq<Cluster>, steps: seq<Step>, tok: NodeId -> seq<Token>, ids: set<NodeId>)
    requires IsRun(cs, steps, tok, ids) && cs[0] == Cluster(map[], {}) && StampsNeverReused(cs, steps, tok, ids)
    ensures AllAgree(Sources(cs[|steps|]))
  {
    RunWritten(cs, steps, tok, ids);
    var c := cs[|steps|];
    forall a: Table, b: Table, n | a in Sources(c) && b in Sources(c) && n in a && n in b
        && a[n].Stamp() == b[n].Stamp()
      ensures a[n] == b[n]
    {
      assert WrittenInRun(cs, steps, tok, ids, n, a[n]);
      assert WrittenInRun(cs, steps, tok, ids, n, b[n]);
    }
  }

  /** The same cluster with the bookkeeping of absorbed tables started afresh. */
  ghost function Observe(c: Cluster): Cluster {
    Cluster(map n | n in c.peers :: Peer(c.peers[n].view, {c.peers[n].view.table}),
        set l | l in c.letters :: Letter(l.table, {l.table}))
  }

  lemma ObserveSame(c: Cluster, tok: NodeId -> seq<Token>, ids: set<NodeId>)
    ensures FreshStart(Observe(c)) && Sources(Observe(c)) == Sources(c)
    ensures AllCoherent(c, tok, ids) ==> AllCoherent(Observe(c), tok, ids)
  {
    var d := Observe(c);
    forall t
      ensures t in Sources(d) <==> t in Sources(c)
    {
      if l :| l in c.letters && l.table == t { assert Letter(l.table, {l.table}) in d.letters; }
      if n :| n in c.peers && c.peers[n].view.table == t { assert d.peers[n].view.table == t; }
    }
  }

  /** The whole story: any history of boots, restarts, removals and gossip that never reuses a stamp, followed by gossip
      alone, leaves any two nodes that have absorbed the same tables with the same table and the same ring. */
  lemma HistoryThenGossipConverges(past: seq<Cluster>, did: seq<Step>, cs: seq<Cluster>, steps: seq<Step>,
                                   tok: NodeId -> seq<Token>, ids: set<NodeId>, n: NodeId, m: NodeId)
    requires IsRun(past, did, tok, ids) && past[0] == Cluster(map[], {}) && StampsNeverReused(past, did, tok, ids)
    requires IsRun(cs, steps, tok, ids) && Quiet(steps) && cs[0] == Observe(past[|did|])
    requires Disjoint(tok, ids)
    requires n in cs[|steps|].peers && m in cs[|steps|].peers
    requires cs[|steps|].peers[n].absorbed == cs[|steps|].peers[m].absorbed
    ensures cs[|steps|].peers[n].view == cs[|steps|].peers[m].view
  {
    HistoryAgrees(past, did, tok, ids);
    EmptyClusterCoherent(tok, ids);
    RingFollowsTable(past, did, tok, ids);
    ObserveSame(past[|did|], tok, ids);
    GossipConverges(cs, steps, tok, ids, n, m);
  }
}
