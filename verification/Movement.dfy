/** Bounded movement as membership causes it: discovering a node, and removing one, each move a key's owners by at most
    one node (ring.hpp, node_membership.cpp). */
module Movement {
  import opened Basics
  import opened Ring
  import opened Placement
  import opened Membership

  lemma DiscoveredIsNewcomer(v: View, n: NodeId, e: Entry, tok: NodeId -> seq<Token>, ids: set<NodeId>)
    requires Coherent(v) && Tidy(v.table, tok, ids) && Disjoint(tok, ids) && TidyEntry(n, e, tok, ids)
    requires n !in v.table || v.table[n].status == REMOVED
    ensures Newcomer(v.ring, n, e.tokens)
  {
    forall t | t in v.ring
      ensures v.ring[t] != n && t !in e.tokens
    {
      assert Owns(v.table, v.ring[t], t);
      assert TidyEntry(v.ring[t], v.table[v.ring[t]], tok, ids);
    }
  }

  /** Learning of a new node, or of a return, moves little. */
  lemma DiscoveryMovesLittle(v: View, n: NodeId, e: Entry, tok: NodeId -> seq<Token>, ids: set<NodeId>, h: Token,
                             N: int)
    requires Coherent(v) && Tidy(v.table, tok, ids) && Disjoint(tok, ids) && TidyEntry(n, e, tok, ids)
    requires n !in v.table || (v.table[n].status == REMOVED && e.status == UP && Newer(e.Stamp(), v.table[n].Stamp()))
    ensures MovesLittle(Naturals(NodesFrom(v.ring, h), N), Naturals(NodesFrom(MergeEntry(v, n, e).ring, h), N), n)
  {
    DiscoveredIsNewcomer(v, n, e, tok, ids);
    JoinMovesLittle(v.ring, n, e.tokens, h, N);
  }

  /** Dropping an UP node's tokens leaves a ring on which it would be a newcomer, and undoes its joining. */
  lemma DroppedIsNewcomer(v: View, n: NodeId, tok: NodeId -> seq<Token>, ids: set<NodeId>)
    requires Coherent(v) && Tidy(v.table, tok, ids) && n in v.table && v.table[n].status == UP
    ensures var rest := DropTokens(v.ring, v.table[n].tokens);
            Newcomer(rest, n, v.table[n].tokens) && AddTokens(rest, v.table[n].tokens, n) == v.ring
  {
    var tokens := v.table[n].tokens;
    var rest := DropTokens(v.ring, tokens);
    forall t | t in rest
      ensures rest[t] != n
    {
      assert Owns(v.table, v.ring[t], t);
    }
    forall t | t in tokens
      ensures t in v.ring && v.ring[t] == n
    {
      assert Owns(v.table, n, t);
    }
    assert AddTokens(rest, tokens, n) == v.ring;
  }

  /** An administrator's removal moves little: seen backwards, it is a join. */
  lemma RemovalMovesLittle(v: View, self: NodeId, target: NodeId, now: int, tok: NodeId -> seq<Token>, ids: set<NodeId>,
                           h: Token, N: int)
    requires Coherent(v) && Tidy(v.table, tok, ids) && target in v.table && v.table[target].status == UP
    ensures MovesLittle(Naturals(NodesFrom(RemoveEntry(v, self, target, now).ring, h), N),
        Naturals(NodesFrom(v.ring, h), N), target)
  {
    DroppedIsNewcomer(v, target, tok, ids);
    JoinMovesLittle(DropTokens(v.ring, v.table[target].tokens), target, v.table[target].tokens, h, N);
  }

  /** So does a removal learned second-hand. */
  lemma LearnedRemovalMovesLittle(v: View, n: NodeId, e: Entry, tok: NodeId -> seq<Token>, ids: set<NodeId>, h: Token,
                                  N: int)
    requires Coherent(v) && Tidy(v.table, tok, ids) && n in v.table && v.table[n].status == UP
    requires e.status == REMOVED && Newer(e.Stamp(), v.table[n].Stamp())
    ensures MovesLittle(Naturals(NodesFrom(MergeEntry(v, n, e).ring, h), N), Naturals(NodesFrom(v.ring, h), N), n)
  {
    DroppedIsNewcomer(v, n, tok, ids);
    JoinMovesLittle(DropTokens(v.ring, v.table[n].tokens), n, v.table[n].tokens, h, N);
  }

  /** A node that is removed and comes back with its own tokens finds every key's owners as they were. */
  lemma ReturnRestores(v: View, n: NodeId, self: NodeId, now: int, back: Entry, tok: NodeId -> seq<Token>,
                       ids: set<NodeId>)
    requires Coherent(v) && Tidy(v.table, tok, ids) && n in v.table && v.table[n].status == UP
    requires TidyEntry(n, back, tok, ids) && back.status == UP
    requires Newer(back.Stamp(), Basics.Stamp(now, self))
    ensures MergeEntry(RemoveEntry(v, self, n, now), n, back).ring == v.ring
  {
    DroppedIsNewcomer(v, n, tok, ids);
    assert TidyEntry(n, v.table[n], tok, ids);
  }
}
