/** The consistent-hash ring and the clockwise walk that picks a key's replicas (ring.hpp). */
module Ring {
  import opened Basics

  type Token = t: nat | t < 0x1_0000_0000_0000_0000

  // Which node owns which position.
  type Ring = map<Token, NodeId>

  datatype PreferenceEntry = PreferenceEntry(nodeId: NodeId, hintFor: Option<NodeId>)

  // ---- joining and leaving -----------------------------------------------

  /** The ring after node `n` claims the positions `tokens`. */
  function AddTokens(ring: Ring, tokens: seq<Token>, n: NodeId): Ring {
    ring + map t | t in tokens :: n
  }

  function DropTokens(ring: Ring, tokens: seq<Token>): Ring {
    ring - set t | t in tokens
  }

  // ---- ordered iteration ------------------------------------------------

  predicate Ascending(ts: seq<Token>) {
    forall i, j :: 0 <= i < j < |ts| ==> ts[i] < ts[j]
  }

  lemma {:induction false} LeastExists(s: set<Token>) returns (t: Token)
    requires s != {}
    ensures t in s && forall u :: u in s ==> t <= u
  {
    var c :| c in s;
    if s - {c} == {} {
      assert s == {c};
      t := c;
    } else {
      var rest := LeastExists(s - {c});
      t := if rest < c then rest else c;
      forall u | u in s
        ensures t <= u
      {
        assert u == c || u in s - {c};
      }
    }
  }

  function Least(s: set<Token>): (t: Token)
    requires s != {}
    ensures t in s && forall u :: u in s ==> t <= u
  {
    assert exists t :: t in s && forall u :: u in s ==> t <= u by { var _ := LeastExists(s); }
    var t :| t in s && forall u :: u in s ==> t <= u;
    t
  }

  /** The order in which an ordered map visits its keys. */
  function Sorted(s: set<Token>): (ts: seq<Token>)
    ensures Ascending(ts)
    ensures forall t :: t in ts <==> t in s
  {
    if s == {} then []
    else
      var t := Least(s);
      var rest := Sorted(s - {t});
      PrependLeast(t, rest);
      [t] + rest
  }

  lemma PrependLeast(t: Token, rest: seq<Token>)
    requires Ascending(rest) && forall u :: u in rest ==> t < u
    ensures Ascending([t] + rest)
  {
    forall i, j | 0 <= i < j < |rest| + 1
      ensures ([t] + rest)[i] < ([t] + rest)[j]
    {
      assert rest[j - 1] in rest;
    }
  }

  lemma AscendingTail(ts: seq<Token>)
    requires Ascending(ts) && ts != []
    ensures Ascending(ts[1..])
    ensures forall u :: u in ts[1..] <==> u in ts && u != ts[0]
    ensures forall u :: u in ts ==> ts[0] <= u
  {
    assert ts == [ts[0]] + ts[1..];
  }

  lemma {:induction false} SortedUnique(ts: seq<Token>, us: seq<Token>)
    requires Ascending(ts) && Ascending(us) && forall t :: t in ts <==> t in us
    ensures ts == us
  {
    assert ts != [] ==> ts[0] in us;
    assert us != [] ==> us[0] in ts;
    if ts != [] {
      AscendingTail(ts);
      AscendingTail(us);
      SortedUnique(ts[1..], us[1..]);
    }
  }

  /** The tokens met when walking clockwise from just past `h`, once round. */
  function Clockwise(s: set<Token>, h: Token): (ts: seq<Token>)
    ensures forall t :: t in ts <==> t in s
  {
    Sorted(set t | t in s && t > h) + Sorted(set t | t in s && t <= h)
  }

  function Owners(ring: Ring, ts: seq<Token>): seq<NodeId>
    requires forall t :: t in ts ==> t in ring
  {
    seq(|ts|, i requires 0 <= i < |ts| => ring[ts[i]])
  }

  // ---- the walk, declaratively -------------------------------------------

  /** First occurrences, in order. */
  function Distinct(ns: seq<NodeId>): (ds: seq<NodeId>)
    ensures forall n :: n in ds <==> n in ns
    ensures forall i, j :: 0 <= i < j < |ds| ==> ds[i] != ds[j]
  {
    if ns == [] then []
    else
      var ds := Distinct(ns[..|ns| - 1]);
      var last := ns[|ns| - 1];
      assert ns == ns[..|ns| - 1] + [last];
      if last in ds then ds else ds + [last]
  }

  /** All nodes on the ring in the order a walk from `h` first meets them. */
  function NodesFrom(ring: Ring, h: Token): (ds: seq<NodeId>)
    ensures forall n :: n in ds <==> n in ring.Values
    ensures forall i, j :: 0 <= i < j < |ds| ==> ds[i] != ds[j]
  {
    var ts := Clockwise(ring.Keys, h);
    var ns := Owners(ring, ts);
    OwnersCover(ring, ts);
    Distinct(ns)
  }

  lemma OwnersCover(ring: Ring, ts: seq<Token>)
    requires forall t :: t in ts <==> t in ring
    ensures forall n :: n in Owners(ring, ts) <==> n in ring.Values
  {
    forall n | n in ring.Values
      ensures n in Owners(ring, ts)
    {
      var t :| t in ring && ring[t] == n;
      var i :| 0 <= i < |ts| && ts[i] == t;
      assert Owners(ring, ts)[i] == n;
    }
  }

  /** The nodes on which `up` answers `want`, in order. */
  function Filter(ns: seq<NodeId>, up: NodeId -> bool, want: bool): seq<NodeId> {
    if ns == [] then []
    else
      var last := ns[|ns| - 1];
      var front := Filter(ns[..|ns| - 1], up, want);
      if up(last) == want then front + [last] else front
  }

  function Min(a: int, b: int): int { if a < b then a else b }

  /** How many of `total` nodes are natural owners when `N` replicas are asked for. */
  function NaturalCount(N: int, total: nat): nat { if N <= 0 then 0 else Min(N, total) }

  function Naturals(ds: seq<NodeId>, N: int): seq<NodeId> { ds[..NaturalCount(N, |ds|)] }

  function Beyond(ds: seq<NodeId>, N: int): seq<NodeId> { ds[NaturalCount(N, |ds|)..] }

  function Present(ds: seq<NodeId>, N: int, up: NodeId -> bool): seq<NodeId> { Filter(Naturals(ds, N), up, true) }

  function Skipped(ds: seq<NodeId>, N: int, up: NodeId -> bool): seq<NodeId> {
    Filter(Naturals(ds, N), up, false)
  }

  function Substitutes(ds: seq<NodeId>, N: int, up: NodeId -> bool): seq<NodeId> { Filter(Beyond(ds, N), up, true) }

  function Plain(ns: seq<NodeId>): seq<PreferenceEntry> {
    seq(|ns|, i requires 0 <= i < |ns| => PreferenceEntry(ns[i], None))
  }

  function Paired(subs: seq<NodeId>, skipped: seq<NodeId>): seq<PreferenceEntry> {
    seq(Min(|subs|, |skipped|), i requires 0 <= i < Min(|subs|, |skipped|) => PreferenceEntry(subs[i],
        Some(skipped[i])))
  }

  /** Reachable natural owners first; then reachable later nodes, each standing in for the next skipped owner. */
  function Preferred(ds: seq<NodeId>, N: int, up: NodeId -> bool): seq<PreferenceEntry> {
    Plain(Present(ds, N, up)) + Paired(Substitutes(ds, N, up), Skipped(ds, N, up))
  }

  // ---- the walk, as the loop does it -------------------------------------

  lemma {:induction false} FilterMembers(ns: seq<NodeId>, up: NodeId -> bool, want: bool)
    ensures forall n :: n in Filter(ns, up, want) <==> n in ns && up(n) == want
  {
    if ns != [] {
      FilterMembers(ns[..|ns| - 1], up, want);
      assert ns == ns[..|ns| - 1] + [ns[|ns| - 1]];
    }
  }

  lemma FilterAppend(ns: seq<NodeId>, c: NodeId, up: NodeId -> bool, want: bool)
    ensures Filter(ns + [c], up, want) ==
              if up(c) == want then Filter(ns, up, want) + [c] else Filter(ns, up, want)
  {
    assert (ns + [c])[..|ns|] == ns;
  }

  lemma {:induction false} FilterConcat(ns: seq<NodeId>, ms: seq<NodeId>, up: NodeId -> bool, want: bool)
    ensures Filter(ns + ms, up, want) == Filter(ns, up, want) + Filter(ms, up, want)
  {
    if ms == [] {
      assert ns + ms == ns;
    } else {
      var front, last := ms[..|ms| - 1], ms[|ms| - 1];
      FilterConcat(ns, front, up, want);
      assert ms == front + [last] && ns + ms == (ns + front) + [last];
      FilterAppend(ns + front, last, up, want);
      FilterAppend(front, last, up, want);
      AppendAssociates(Filter(ns, up, want), Filter(front, up, want), last);
    }
  }

  lemma AppendAssociates(a: seq<NodeId>, b: seq<NodeId>, c: NodeId)
    ensures (a + b) + [c] == a + (b + [c])
  {
  }

  lemma {:induction false} FilterSplit(ns: seq<NodeId>, up: NodeId -> bool)
    ensures |Filter(ns, up, true)| + |Filter(ns, up, false)| == |ns|
  {
    if ns != [] { FilterSplit(ns[..|ns| - 1], up); }
  }

  lemma DistinctAppend(ns: seq<NodeId>, c: NodeId)
    ensures Distinct(ns + [c]) == if c in Distinct(ns) then Distinct(ns) else Distinct(ns) + [c]
  {
    assert (ns + [c])[..|ns|] == ns;
  }

  lemma {:induction false} DistinctPrefix(ns: seq<NodeId>, k: nat)
    requires k <= |ns|
    ensures Distinct(ns[..k]) <= Distinct(ns)
  {
    if k < |ns| {
      var front := ns[..|ns| - 1];
      DistinctPrefix(front, k);
      assert front[..k] == ns[..k];
    } else {
      assert ns[..k] == ns;
    }
  }

  lemma PairedAppend(subs: seq<NodeId>, c: NodeId, skipped: seq<NodeId>)
    ensures |subs| < |skipped| ==>
        Paired(subs + [c], skipped) == Paired(subs, skipped) + [PreferenceEntry(c, Some(skipped[|subs|]))]
    ensures |subs| >= |skipped| ==> Paired(subs + [c], skipped) == Paired(subs, skipped)
  {
  }

  /** A node met among the first `N` becomes a plain entry, or joins the queue of owners to be stood in for. */
  lemma PreferredNatural(ds: seq<NodeId>, c: NodeId, N: int, up: NodeId -> bool)
    requires |ds| < N
    ensures Preferred(ds + [c], N, up) ==
              if up(c) then Preferred(ds, N, up) + [PreferenceEntry(c, None)] else Preferred(ds, N, up)
    ensures Substitutes(ds, N, up) == Substitutes(ds + [c], N, up) == []
    ensures Skipped(ds + [c], N, up) == if up(c) then Skipped(ds, N, up) else Skipped(ds, N, up) + [c]
  {
    var es := ds + [c];
    assert Naturals(ds, N) == ds && Naturals(es, N) == es && Beyond(ds, N) == [] && Beyond(es, N) == [];
    FilterAppend(ds, c, up, true);
    FilterAppend(ds, c, up, false);
  }

  /** A later node stands in for the owner at the front of the queue, if it is up and the queue is not empty. */
  lemma PreferredLater(ds: seq<NodeId>, c: NodeId, N: int, up: NodeId -> bool)
    requires |ds| >= N
    ensures Naturals(ds + [c], N) == Naturals(ds, N)
    ensures Present(ds + [c], N, up) == Present(ds, N, up)
    ensures Skipped(ds + [c], N, up) == Skipped(ds, N, up)
    ensures Substitutes(ds + [c], N, up) == if up(c) then Substitutes(ds, N, up) + [c] else Substitutes(ds, N, up)
  {
    assert Naturals(ds + [c], N) == Naturals(ds, N);
    assert Beyond(ds + [c], N) == Beyond(ds, N) + [c];
    FilterAppend(Beyond(ds, N), c, up, true);
  }

  lemma PreferredStandIn(ds: seq<NodeId>, c: NodeId, N: int, up: NodeId -> bool)
    requires |ds| >= N && up(c)
    ensures var subs, skipped := Substitutes(ds, N, up), Skipped(ds, N, up);
            Preferred(ds + [c], N, up) ==
              if |subs| < |skipped| then Preferred(ds, N, up) + [PreferenceEntry(c, Some(skipped[|subs|]))]
              else Preferred(ds, N, up)
  {
    PreferredLater(ds, c, N, up);
    PairedAppend(Substitutes(ds, N, up), c, Skipped(ds, N, up));
  }
}
