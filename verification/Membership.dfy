/** Cluster membership: the last-writer-wins table of nodes and the ring kept incrementally beside it
    (ring.hpp, node_membership.cpp, node_main.cpp). */
module Membership {
  import opened Basics
  import opened Ring

  datatype NodeStatus = UP | REMOVED

  datatype Entry = Entry(writerId: NodeId, address: string, status: NodeStatus, tokens: seq<Token>, lastUpdated: int) {
    function Stamp(): Stamp { Basics.Stamp(lastUpdated, writerId) }
  }

  type Table = map<NodeId, Entry>

  // What a node keeps: its table, and the ring derived from it.
  datatype View = View(table: Table, ring: Ring)

  // ---- merging tables ---------------------------------------------------------

  /** An exact tie keeps the local entry. */
  function Prevailing(local: Entry, incoming: Entry): Entry {
    if Newer(incoming.Stamp(), local.Stamp()) then incoming else local
  }

  function MergeTables(local: Table, incoming: Table): Table {
    map n | n in local.Keys + incoming.Keys ::
      if n !in local then incoming[n]
      else if n !in incoming then local[n]
      else Prevailing(local[n], incoming[n])
  }

  /** Merging one incoming entry: the ring changes only for a new node, a return, or a removal learned second-hand. */
  function MergeEntry(v: View, n: NodeId, incoming: Entry): View {
    if n !in v.table then
      View(v.table[n := incoming], AddTokens(v.ring, incoming.tokens, n))
    else
      var local := v.table[n];
      if !Newer(incoming.Stamp(), local.Stamp()) then v
      else if local.status == REMOVED && incoming.status == UP then
        View(v.table[n := incoming], AddTokens(v.ring, incoming.tokens, n))
      else if local.status == UP && incoming.status == REMOVED then
        View(v.table[n := incoming], DropTokens(v.ring, local.tokens))
      else
        View(v.table[n := incoming], v.ring)
  }

  /** Merging the incoming entries in the given order. */
  function MergeInOrder(v: View, incoming: Table, order: seq<NodeId>): View
    requires forall n :: n in order ==> n in incoming
  {
    if order == [] then v
    else
      var last := order[|order| - 1];
      MergeEntry(MergeInOrder(v, incoming, order[..|order| - 1]), last, incoming[last])
  }

  /** `order` visits every entry of `incoming` once. */
  ghost predicate Visits(order: seq<NodeId>, incoming: Table) {
    && (forall n :: n in order <==> n in incoming)
    && forall i, j :: 0 <= i < j < |order| ==> order[i] != order[j]
  }

  /** `after` is `before` with the entries of `incoming` for the names in `order` merged in. */
  ghost predicate MergedOn(before: Table, incoming: Table, order: seq<NodeId>, after: Table)
    requires forall n :: n in order ==> n in incoming
  {
    && (forall n :: n in after <==> n in before || n in order)
    && (forall n :: n in after ==>
          after[n] == if n !in order then before[n] else if n !in before then incoming[n]
                      else Prevailing(before[n], incoming[n]))
  }

  /** What the table holds after any prefix of a visit. */
  lemma {:induction false} MergePrefix(v: View, incoming: Table, order: seq<NodeId>)
    requires forall n :: n in order ==> n in incoming
    requires forall i, j :: 0 <= i < j < |order| ==> order[i] != order[j]
    ensures MergedOn(v.table, incoming, order, MergeInOrder(v, incoming, order).table)
  {
    if order != [] {
      var front, last := order[..|order| - 1], order[|order| - 1];
      MergePrefix(v, incoming, front);
      MergedOnNext(v.table, incoming, front, last, MergeInOrder(v, incoming, front));
      assert order == front + [last];
    }
  }

  lemma MergedOnNext(before: Table, incoming: Table, front: seq<NodeId>, last: NodeId, w: View)
    requires last in incoming && last !in front && forall n :: n in front ==> n in incoming
    requires MergedOn(before, incoming, front, w.table)
    ensures MergedOn(before, incoming, front + [last], MergeEntry(w, last, incoming[last]).table)
  {
  }

  /** Whatever order the entries are visited in, the table is the same pointwise merge. */
  lemma MergeIgnoresOrder(v: View, incoming: Table, order: seq<NodeId>)
    requires Visits(order, incoming)
    ensures MergeInOrder(v, incoming, order).table == MergeTables(v.table, incoming)
  {
    MergePrefix(v, incoming, order);
  }

  // ---- the join laws -----------------------------------------------------------

  /** Where both tables know a node, equal stamps mean equal entries. */
  ghost predicate Agree(a: Table, b: Table) {
    forall n :: n in a && n in b && a[n].Stamp() == b[n].Stamp() ==> a[n] == b[n]
  }

  /** The later entry prevails; at the same time the greater writer; on an exact tie the local one. */
  lemma PrevailingIsNewest(local: Entry, incoming: Entry)
    ensures incoming.lastUpdated > local.lastUpdated ==> Prevailing(local, incoming) == incoming
    ensures incoming.lastUpdated < local.lastUpdated ==> Prevailing(local, incoming) == local
    ensures incoming.lastUpdated == local.lastUpdated ==>
              Prevailing(local, incoming) == if StringLess(local.writerId, incoming.writerId) then incoming else local
  {
  }

  lemma PrevailingLaws(x: Entry, y: Entry, z: Entry)
    ensures Prevailing(x, x) == x
    ensures x.Stamp() != y.Stamp() || x == y ==> Prevailing(x, y) == Prevailing(y, x)
    ensures Prevailing(Prevailing(x, y), z) == Prevailing(x, Prevailing(y, z))
  {
    var sx, sy, sz := x.Stamp(), y.Stamp(), z.Stamp();
    NewerTotal(sx, sy);
    NewerTotal(sy, sz);
    NewerTotal(sx, sz);
    if Newer(sz, sy) && Newer(sy, sx) { NewerTransitive(sz, sy, sx); }
    if Newer(sx, sy) && Newer(sy, sz) { NewerTransitive(sx, sy, sz); }
    if Newer(sx, sz) && Newer(sz, sy) { NewerTransitive(sx, sz, sy); }
    if Newer(sy, sx) && Newer(sx, sz) { NewerTransitive(sy, sx, sz); }
    if Newer(sz, sx) && Newer(sx, sy) { NewerTransitive(sz, sx, sy); }
    if Newer(sy, sz) && Newer(sz, sx) { NewerTransitive(sy, sz, sx); }
  }

  /** Merging is idempotent and associative outright, and commutative exactly when the two tables agree. */
  lemma MergeLaws(a: Table, b: Table, c: Table)
    ensures MergeTables(a, a) == a
    ensures MergeTables(MergeTables(a, b), c) == MergeTables(a, MergeTables(b, c))
    ensures MergeTables(a, b) == MergeTables(b, a) <==> Agree(a, b)
  {
    forall n | n in a ensures MergeTables(a, a)[n] == a[n] { PrevailingLaws(a[n], a[n], a[n]); }
    MergeAssociates(a, b, c);
    MergeCommutes(a, b);
  }

  lemma MergeCommutes(a: Table, b: Table)
    ensures MergeTables(a, b) == MergeTables(b, a) <==> Agree(a, b)
  {
    if Agree(a, b) {
      forall n | n in a && n in b ensures Prevailing(a[n], b[n]) == Prevailing(b[n], a[n]) {
        PrevailingLaws(a[n], b[n], a[n]);
      }
    } else {
      var n :| n in a && n in b && a[n].Stamp() == b[n].Stamp() && a[n] != b[n];
      NewerTotal(a[n].Stamp(), b[n].Stamp());
      assert MergeTables(a, b)[n] == a[n] && MergeTables(b, a)[n] == b[n];
    }
  }

  lemma MergeAssociates(a: Table, b: Table, c: Table)
    ensures MergeTables(MergeTables(a, b), c) == MergeTables(a, MergeTables(b, c))
  {
    var left, right := MergeTables(MergeTables(a, b), c), MergeTables(a, MergeTables(b, c));
    assert left.Keys == right.Keys;
    forall n | n in left
      ensures left[n] == right[n]
    {
      if n in a && n in b && n in c { PrevailingLaws(a[n], b[n], c[n]); }
    }
  }

  /** One isolated push-pull exchange leaves both sides with the same table: the responder merges the request, the
      initiator merges the response. */
  lemma PushPullEqualizes(initiator: Table, responder: Table)
    requires Agree(initiator, responder)
    ensures var merged := MergeTables(responder, initiator);
            MergeTables(initiator, merged) == merged
  {
    MergeLaws(initiator, responder, initiator);
    MergeLaws(initiator, initiator, responder);
  }

  // ---- the ring follows the table -------------------------------------------------

  predicate Owns(table: Table, n: NodeId, t: Token) {
    n in table && table[n].status == UP && t in table[n].tokens
  }

  /** The ring maps exactly the tokens of the UP entries to their owners. */
  ghost predicate Coherent(v: View) {
    && (forall t :: t in v.ring ==> Owns(v.table, v.ring[t], t))
    && (forall n, t :: Owns(v.table, n, t) ==> t in v.ring && v.ring[t] == n)
  }

  /** Coherence pins the ring down. */
  lemma CoherentRingsEqual(v: View, w: View)
    requires Coherent(v) && Coherent(w) && v.table == w.table
    ensures v.ring == w.ring
  {
    forall t
      ensures t in v.ring <==> t in w.ring
      ensures t in v.ring ==> v.ring[t] == w.ring[t]
    {
      if t in v.ring { assert Owns(w.table, v.ring[t], t); }
      if t in w.ring { assert Owns(v.table, w.ring[t], t); }
    }
  }

  /** The entries a cluster produces: an UP entry carries its node's own tokens, a REMOVED one carries none. */
  ghost predicate Tidy(table: Table, tok: NodeId -> seq<Token>, ids: set<NodeId>) {
    forall n :: n in table ==> TidyEntry(n, table[n], tok, ids)
  }

  ghost predicate TidyEntry(n: NodeId, e: Entry, tok: NodeId -> seq<Token>, ids: set<NodeId>) {
    n in ids && e.tokens == if e.status == UP then tok(n) else []
  }

  /** No two nodes of the cluster hash to a common position. */
  ghost predicate Disjoint(tok: NodeId -> seq<Token>, ids: set<NodeId>) {
    forall n, m, t :: n in ids && m in ids && t in tok(n) && t in tok(m) ==> n == m
  }

  lemma AddedToken(v: View, n: NodeId, e: Entry, tok: NodeId -> seq<Token>, ids: set<NodeId>)
    requires Coherent(v) && Tidy(v.table, tok, ids) && Disjoint(tok, ids) && TidyEntry(n, e, tok, ids)
    requires n in v.table ==> v.table[n].status == REMOVED
    ensures Coherent(View(v.table[n := e], AddTokens(v.ring, e.tokens, n)))
  {
    var w := View(v.table[n := e], AddTokens(v.ring, e.tokens, n));
    forall t | t in w.ring
      ensures Owns(w.table, w.ring[t], t)
    {
      if t in e.tokens {
      } else {
        assert Owns(v.table, v.ring[t], t);
      }
    }
    forall m, t | Owns(w.table, m, t)
      ensures t in w.ring && w.ring[t] == m
    {
      if m != n { assert Owns(v.table, m, t); }
    }
  }

  lemma DroppedToken(v: View, n: NodeId, e: Entry, tok: NodeId -> seq<Token>, ids: set<NodeId>)
    requires Coherent(v) && Tidy(v.table, tok, ids) && Disjoint(tok, ids) && TidyEntry(n, e, tok, ids)
    requires n in v.table && v.table[n].status == UP && e.status == REMOVED
    ensures Coherent(View(v.table[n := e], DropTokens(v.ring, v.table[n].tokens)))
  {
    var w := View(v.table[n := e], DropTokens(v.ring, v.table[n].tokens));
    forall t | t in w.ring
      ensures Owns(w.table, w.ring[t], t)
    {
      assert Owns(v.table, v.ring[t], t);
    }
    forall m, t | Owns(w.table, m, t)
      ensures t in w.ring && w.ring[t] == m
    {
      assert Owns(v.table, m, t) && m != n;
      assert TidyEntry(m, v.table[m], tok, ids) && TidyEntry(n, v.table[n], tok, ids);
    }
  }

  /** A refresh that keeps the status never touches the ring, so it keeps the two together exactly when the refreshed UP
      entry carries the same set of tokens. */
  lemma RefreshCoherent(v: View, n: NodeId, e: Entry)
    requires Coherent(v) && n in v.table && v.table[n].status == e.status
    ensures Coherent(View(v.table[n := e], v.ring)) <==>
              e.status == UP ==> forall t :: t in e.tokens <==> t in v.table[n].tokens
  {
    var w := View(v.table[n := e], v.ring);
    if Coherent(w) && e.status == UP {
      forall t
        ensures t in e.tokens <==> t in v.table[n].tokens
      {
        assert Owns(w.table, n, t) <==> t in e.tokens;
        assert Owns(v.table, n, t) <==> t in v.table[n].tokens;
      }
    }
    if e.status == UP ==> forall t :: t in e.tokens <==> t in v.table[n].tokens {
      forall m, t
        ensures Owns(w.table, m, t) <==> Owns(v.table, m, t)
      {
      }
    }
  }

  lemma MergeEntryCoherent(v: View, n: NodeId, e: Entry, tok: NodeId -> seq<Token>, ids: set<NodeId>)
    requires Coherent(v) && Tidy(v.table, tok, ids) && Disjoint(tok, ids) && TidyEntry(n, e, tok, ids)
    ensures Coherent(MergeEntry(v, n, e)) && Tidy(MergeEntry(v, n, e).table, tok, ids)
  {
    if n !in v.table {
      AddedToken(v, n, e, tok, ids);
    } else if Newer(e.Stamp(), v.table[n].Stamp()) {
      if v.table[n].status == REMOVED && e.status == UP {
        AddedToken(v, n, e, tok, ids);
      } else if v.table[n].status == UP && e.status == REMOVED {
        DroppedToken(v, n, e, tok, ids);
      } else {
        assert TidyEntry(n, v.table[n], tok, ids);
        RefreshCoherent(v, n, e);
      }
    }
  }

  lemma {:induction false} MergeCoherent(v: View, incoming: Table, order: seq<NodeId>, tok: NodeId -> seq<Token>,
                                         ids: set<NodeId>)
    requires forall n :: n in order ==> n in incoming
    requires Coherent(v) && Tidy(v.table, tok, ids) && Tidy(incoming, tok, ids) && Disjoint(tok, ids)
    ensures Coherent(MergeInOrder(v, incoming, order)) && Tidy(MergeInOrder(v, incoming, order).table, tok, ids)
  {
    if order != [] {
      var front, last := order[..|order| - 1], order[|order| - 1];
      assert last in order && forall n :: n in front ==> n in order;
      MergeCoherent(v, incoming, front, tok, ids);
      MergeEntryCoherent(MergeInOrder(v, incoming, front), last, incoming[last], tok, ids);
    }
  }

  // ---- starting and removing ---------------------------------------------------------

  function InitialView(self: NodeId, tokens: seq<Token>, now: int): View {
    View(map[self := Entry(self, self, UP, tokens, now)], AddTokens(map[], tokens, self))
  }

  /** An administrator's removal: no-op on an unknown or already removed node. */
  function RemoveEntry(v: View, self: NodeId, target: NodeId, now: int): View {
    if target !in v.table || v.table[target].status == REMOVED then v
    else
      var e := v.table[target];
      View(v.table[target := e.(status := REMOVED, writerId := self, tokens := [], lastUpdated := now)],
           DropTokens(v.ring, e.tokens))
  }

  lemma InitialCoherent(self: NodeId, now: int, tok: NodeId -> seq<Token>, ids: set<NodeId>)
    requires self in ids
    ensures Coherent(InitialView(self, tok(self), now)) && Tidy(InitialView(self, tok(self), now).table, tok, ids)
  {
    var v := InitialView(self, tok(self), now);
    assert forall n, t :: Owns(v.table, n, t) <==> n == self && t in tok(self);
  }

  lemma RemoveCoherent(v: View, self: NodeId, target: NodeId, now: int, tok: NodeId -> seq<Token>, ids: set<NodeId>)
    requires Coherent(v) && Tidy(v.table, tok, ids) && Disjoint(tok, ids)
    ensures Coherent(RemoveEntry(v, self, target, now)) && Tidy(RemoveEntry(v, self, target, now).table, tok, ids)
  {
    if target in v.table && v.table[target].status == UP {
      assert TidyEntry(target, v.table[target], tok, ids);
      var e := v.table[target].(status := REMOVED, writerId := self, tokens := [], lastUpdated := now);
      DroppedToken(v, target, e, tok, ids);
    }
  }

  /** A removal reaches a node still holding the old entry exactly when its stamp is newer: later by the wall clock, or
      equally late and by a greater name. */
  lemma RemovalPrevails(v: View, self: NodeId, target: NodeId, now: int, other: View)
    requires target in v.table && v.table[target].status == UP
    requires target in other.table && other.table[target] == v.table[target]
    ensures var after, e := RemoveEntry(v, self, target, now).table, v.table[target];
            after == v.table[target := Entry(self, e.address, REMOVED, [], now)]
    ensures var removed := RemoveEntry(v, self, target, now).table[target];
            MergeEntry(other, target, removed).table[target].status == REMOVED <==>
              now > v.table[target].lastUpdated
              || (now == v.table[target].lastUpdated && StringLess(v.table[target].writerId, self))
  {
  }

  /** A node that boots, or boots again, announces itself under its own name and the time of the boot; this brings it
      back at a node that has it as removed exactly when its stamp is newer than the removal's. */
  lemma BootPrevails(self: NodeId, tokens: seq<Token>, now: int, other: View)
    requires self in other.table && other.table[self].status == REMOVED
    ensures InitialView(self, tokens, now).table == map[self := Entry(self, self, UP, tokens, now)]
    ensures var booted := InitialView(self, tokens, now).table[self];
            MergeEntry(other, self, booted).table[self].status == UP <==>
              now > other.table[self].lastUpdated
              || (now == other.table[self].lastUpdated && StringLess(other.table[self].writerId, self))
  {
  }

  // ---- the object ----------------------------------------------------------------------

  class MembershipNode {
    const nodeId: NodeId
    var table: Table
    var ring: Ring

    function Current(): View
      reads this
    {
      View(table, ring)
    }

    constructor (nodeId: NodeId, tokens: seq<Token>, now: int)
      ensures this.nodeId == nodeId && Current() == InitialView(nodeId, tokens, now)
    {
      this.nodeId := nodeId;
      table, ring := map[], map[];
      new;
      PlaceTokens(tokens, nodeId);
      table := table[nodeId := Entry(nodeId, nodeId, UP, tokens, now)];
    }

    method PlaceTokens(tokens: seq<Token>, owner: NodeId)
      modifies this`ring
      ensures ring == AddTokens(old(ring), tokens, owner)
    {
      for i := 0 to |tokens|
        invariant forall t :: t in ring <==> t in old(ring) || t in tokens[..i]
        invariant forall t :: t in ring ==> ring[t] == if t in tokens[..i] then owner else old(ring)[t]
      {
        assert tokens[..i + 1] == tokens[..i] + [tokens[i]];
        ring := ring[tokens[i] := owner];
      }
      assert tokens[..|tokens|] == tokens;
    }

    method EraseTokens(tokens: seq<Token>)
      modifies this`ring
      ensures ring == DropTokens(old(ring), tokens)
    {
      for i := 0 to |tokens|
        invariant ring == DropTokens(old(ring), tokens[..i])
      {
        ring := ring - {tokens[i]};
      }
      assert tokens[..|tokens|] == tokens;
    }

    method MergeOne(n: NodeId, incoming: Entry)
      modifies this
      ensures Current() == MergeEntry(old(Current()), n, incoming)
    {
      if n !in table {
        PlaceTokens(incoming.tokens, n);
        table := table[n := incoming];
        return;
      }
      var local := table[n];
      if incoming.lastUpdated > local.lastUpdated
         || (incoming.lastUpdated == local.lastUpdated && StringLess(local.writerId, incoming.writerId)) {
        if local.status == REMOVED && incoming.status == UP {
          PlaceTokens(incoming.tokens, n);
        } else if local.status == UP && incoming.status == REMOVED {
          EraseTokens(local.tokens);
        }
        table := table[n := incoming];
      }
    }

    /** Gossip received: visits the incoming entries in whatever order the map yields them. */
    method MergeInto(incoming: Table) returns (ghost order: seq<NodeId>)
      modifies this
      ensures Visits(order, incoming)
      ensures Current() == MergeInOrder(old(Current()), incoming, order)
      ensures table == MergeTables(old(table), incoming)
    {
      order := [];
      var todo := incoming.Keys;
      while todo != {}
        invariant forall n :: n in order <==> n in incoming && n !in todo
        invariant forall n :: n in todo ==> n in incoming
        invariant forall i, j :: 0 <= i < j < |order| ==> order[i] != order[j]
        invariant Current() == MergeInOrder(old(Current()), incoming, order)
        decreases todo
      {
        var n :| n in todo;
        MergeOne(n, incoming[n]);
        assert (order + [n])[..|order|] == order;
        order := order + [n];
        todo := todo - {n};
      }
      MergeIgnoresOrder(old(Current()), incoming, order);
    }

    /** The responder's half of a push-pull exchange: merge, then answer with the merged table. */
    method GossipExchange(request: Table) returns (response: Table)
      modifies this
      ensures response == table == MergeTables(old(table), request)
      ensures exists order :: Visits(order, request) && Current() == MergeInOrder(old(Current()), request, order)
    {
      ghost var order := MergeInto(request);
      response := table;
    }

    method RemoveNode(target: NodeId, now: int) returns (accepted: bool)
      modifies this
      ensures accepted <==> target in old(table)
      ensures Current() == RemoveEntry(old(Current()), nodeId, target, now)
    {
      if target !in table {
        return false;
      }
      var e := table[target];
      if e.status == UP {
        EraseTokens(e.tokens);
        table := table[target := e.(status := REMOVED, writerId := nodeId, tokens := [], lastUpdated := now)];
      }
      accepted := true;
    }
  }
}
