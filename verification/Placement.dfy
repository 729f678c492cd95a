/** What a preference list promises: which replicas, which stand-ins, and how little moves when the ring changes. */
module Placement {
  import opened Basics
  import opened Ring

  predicate AllDifferent(ns: seq<NodeId>) {
    forall i, j :: 0 <= i < j < |ns| ==> ns[i] != ns[j]
  }

  function Nodes(list: seq<PreferenceEntry>): seq<NodeId> {
    seq(|list|, i requires 0 <= i < |list| => list[i].nodeId)
  }

  /** The replica an entry stands for: itself, or the owner it covers. */
  function TrueOwner(e: PreferenceEntry): NodeId {
    match e.hintFor case None => e.nodeId case Some(owner) => owner
  }

  function TrueOwners(list: seq<PreferenceEntry>): seq<NodeId> {
    seq(|list|, i requires 0 <= i < |list| => TrueOwner(list[i]))
  }

  // ---- the order of the walk -------------------------------------------------

  /** How far past `h` the position `t` lies, going clockwise; a position at `h` itself is a full turn away. */
  function Distance(h: Token, t: Token): nat {
    if t > h then t - h else t + 0x1_0000_0000_0000_0000 - h
  }

  lemma LateThenEarly(late: seq<Token>, early: seq<Token>, h: Token, i: nat, j: nat)
    requires Ascending(late) && Ascending(early)
    requires forall k :: 0 <= k < |late| ==> late[k] > h
    requires forall k :: 0 <= k < |early| ==> early[k] <= h
    requires i < j < |late + early|
    ensures Distance(h, (late + early)[i]) < Distance(h, (late + early)[j])
  {
    if j < |late| {
      assert late[i] < late[j];
    } else if i >= |late| {
      assert early[i - |late|] < early[j - |late|];
    }
  }

  /** The clockwise order is the order of distance from the key. */
  lemma ClockwiseByDistance(s: set<Token>, h: Token, i: nat, j: nat)
    requires i < j < |Clockwise(s, h)|
    ensures Distance(h, Clockwise(s, h)[i]) < Distance(h, Clockwise(s, h)[j])
  {
    var late, early := Sorted(set t | t in s && t > h), Sorted(set t | t in s && t <= h);
    forall k | 0 <= k < |late| ensures late[k] > h { assert late[k] in late; }
    forall k | 0 <= k < |early| ensures early[k] <= h { assert early[k] in early; }
    LateThenEarly(late, early, h, i, j);
  }

  lemma {:induction false} DistinctByFirst(ns: seq<NodeId>, i: nat, j: nat) returns (k: nat)
    requires i < j < |Distinct(ns)|
    ensures k < |ns| && ns[k] == Distinct(ns)[i]
    ensures forall m :: 0 <= m < |ns| && ns[m] == Distinct(ns)[j] ==> k < m
  {
    var front, last := ns[..|ns| - 1], ns[|ns| - 1];
    if j < |Distinct(front)| {
      k := DistinctByFirst(front, i, j);
    } else {
      assert Distinct(front)[i] in front;
      k :| 0 <= k < |front| && front[k] == Distinct(front)[i];
    }
    forall m | 0 <= m < |ns| && ns[m] == Distinct(ns)[j]
      ensures k < m
    {
      if m < |front| { assert front[m] in front; }
    }
  }

  /** The walk meets nodes in the order of their nearest positions past the key. */
  lemma WalkByDistance(ring: Ring, h: Token, i: nat, j: nat) returns (t: Token)
    requires i < j < |NodesFrom(ring, h)|
    ensures t in ring && ring[t] == NodesFrom(ring, h)[i]
    ensures forall u :: u in ring && ring[u] == NodesFrom(ring, h)[j] ==> Distance(h, t) < Distance(h, u)
  {
    var ts := Clockwise(ring.Keys, h);
    var ns := Owners(ring, ts);
    var k := DistinctByFirst(ns, i, j);
    t := ts[k];
    forall u | u in ring && ring[u] == NodesFrom(ring, h)[j]
      ensures Distance(h, t) < Distance(h, u)
    {
      var m :| 0 <= m < |ts| && ts[m] == u;
      assert ns[m] == Distinct(ns)[j];
      ClockwiseByDistance(ring.Keys, h, k, m);
    }
  }

  /** The walk begins with the owner of the least position past the key, or of the least of all when there is none. */
  lemma WalkBegins(ring: Ring, h: Token, t: Token)
    requires t in ring
    requires if exists u :: u in ring && u > h then t > h && forall u :: u in ring && u > h ==> t <= u
             else forall u :: u in ring ==> t <= u
    ensures NodesFrom(ring, h) != [] && NodesFrom(ring, h)[0] == ring[t]
  {
    var ts := Clockwise(ring.Keys, h);
    var ns := Owners(ring, ts);
    var m :| 0 <= m < |ts| && ts[m] == t;
    assert ts[0] in ring;
    if m > 0 { ClockwiseByDistance(ring.Keys, h, 0, m); }
    DistinctBegins(ns);
  }

  lemma {:induction false} DistinctBegins(ns: seq<NodeId>)
    requires ns != []
    ensures Distinct(ns) != [] && Distinct(ns)[0] == ns[0]
  {
    if |ns| > 1 {
      DistinctBegins(ns[..|ns| - 1]);
    } else {
      assert ns[..0] == [];
    }
  }

  /** Filtering keeps exactly the matching positions, in order. */
  lemma {:induction false} FilterPositions(ns: seq<NodeId>, up: NodeId -> bool, want: bool) returns (at: seq<nat>)
    ensures |at| == |Filter(ns, up, want)|
    ensures forall p :: 0 <= p < |at| ==> at[p] < |ns| && ns[at[p]] == Filter(ns, up, want)[p] && up(ns[at[p]]) == want
    ensures forall p, q :: 0 <= p < q < |at| ==> at[p] < at[q]
    ensures forall i: nat :: i < |ns| && up(ns[i]) == want ==> i in at
  {
    at := [];
    if ns != [] {
      var front := ns[..|ns| - 1];
      at := FilterPositions(front, up, want);
      if up(ns[|ns| - 1]) == want { at := at + [|ns| - 1]; }
    }
  }

  lemma {:induction false} FirstKept(ns: seq<NodeId>, up: NodeId -> bool) returns (k: nat)
    requires Filter(Distinct(ns), up, true) != []
    ensures k < |ns| && ns[k] == Filter(Distinct(ns), up, true)[0] && up(ns[k])
    ensures forall j :: 0 <= j < k ==> !up(ns[j])
  {
    var front, last := ns[..|ns| - 1], ns[|ns| - 1];
    assert ns == front + [last];
    FilterAppend(Distinct(front), last, up, true);
    if Filter(Distinct(front), up, true) != [] {
      k := FirstKept(front, up);
    } else {
      FilterMembers(Distinct(front), up, true);
      forall j | 0 <= j < |front|
        ensures !up(ns[j])
      {
        assert front[j] in front;
      }
      k := |front|;
    }
  }

  /** The first kept node owns a position that satisfies the test, and every position nearer the key fails it. */
  lemma FirstKeptIsNearest(ring: Ring, h: Token, up: NodeId -> bool) returns (t: Token)
    requires Filter(NodesFrom(ring, h), up, true) != []
    ensures t in ring && ring[t] == Filter(NodesFrom(ring, h), up, true)[0] && up(ring[t])
    ensures forall u :: u in ring && Distance(h, u) < Distance(h, t) ==> !up(ring[u])
  {
    var ts := Clockwise(ring.Keys, h);
    var ns := Owners(ring, ts);
    var k := FirstKept(ns, up);
    t := ts[k];
    forall u | u in ring && Distance(h, u) < Distance(h, t)
      ensures !up(ring[u])
    {
      var m :| 0 <= m < |ts| && ts[m] == u;
      if m > k { ClockwiseByDistance(ring.Keys, h, k, m); }
      assert ns[m] == ring[u];
    }
  }

  // ---- membership and length of the list -----------------------------------

  lemma PresentThenSubstitutes(ds: seq<NodeId>, N: int, up: NodeId -> bool)
    ensures Filter(ds, up, true) == Present(ds, N, up) + Substitutes(ds, N, up)
    ensures |Present(ds, N, up)| + |Skipped(ds, N, up)| == NaturalCount(N, |ds|)
  {
    assert ds == Naturals(ds, N) + Beyond(ds, N);
    FilterConcat(Naturals(ds, N), Beyond(ds, N), up, true);
    FilterSplit(Naturals(ds, N), up);
  }

  /** The list read as nodes, and as the replicas its entries stand for. */
  lemma ListedShape(ds: seq<NodeId>, N: int, up: NodeId -> bool)
    ensures var k := Min(|Substitutes(ds, N, up)|, |Skipped(ds, N, up)|);
            && Nodes(Preferred(ds, N, up)) == Present(ds, N, up) + Substitutes(ds, N, up)[..k]
            && TrueOwners(Preferred(ds, N, up)) == Present(ds, N, up) + Skipped(ds, N, up)[..k]
            && |Preferred(ds, N, up)| == |Present(ds, N, up)| + k
  {
  }

  /** The listed nodes are the first `N` reachable ones clockwise, or all of them when there are fewer. */
  lemma ListedNodes(ds: seq<NodeId>, N: int, up: NodeId -> bool)
    ensures var reachable := Filter(ds, up, true);
            && |Preferred(ds, N, up)| == NaturalCount(N, |reachable|)
            && Nodes(Preferred(ds, N, up)) == reachable[..NaturalCount(N, |reachable|)]
  {
    PresentThenSubstitutes(ds, N, up);
    ListedShape(ds, N, up);
    if |ds| <= N { NoneBeyond(ds, N, up); }
    FirstReachable(N, |ds|, Present(ds, N, up), Substitutes(ds, N, up), |Skipped(ds, N, up)|);
  }

  lemma NoneBeyond(ds: seq<NodeId>, N: int, up: NodeId -> bool)
    requires |ds| <= N
    ensures Substitutes(ds, N, up) == []
  {
    assert Beyond(ds, N) == [];
  }

  lemma FirstReachable(N: int, total: nat, present: seq<NodeId>, subs: seq<NodeId>, skipped: nat)
    requires |present| + skipped == NaturalCount(N, total)
    requires total <= N ==> subs == []
    ensures var k := Min(|subs|, skipped);
            && NaturalCount(N, |present + subs|) == |present| + k
            && present + subs[..k] == (present + subs)[..|present| + k]
  {
    ListedCount(N, total, |present|, skipped, |subs|);
    TakeConcat(present, subs, Min(|subs|, skipped));
  }

  lemma ListedCount(N: int, total: nat, present: nat, skipped: nat, subs: nat)
    requires present + skipped == NaturalCount(N, total)
    requires total <= N ==> subs == 0
    ensures NaturalCount(N, present + subs) == present + Min(subs, skipped)
  {
  }

  lemma TakeConcat(a: seq<NodeId>, b: seq<NodeId>, k: nat)
    requires k <= |b|
    ensures (a + b)[..|a| + k] == a + b[..k]
  {
  }

  /** A node is listed for itself exactly when it is one of the first `N`; the labels on the others are the
      unreachable ones of the first `N`, in order, each used once. */
  lemma ListedLabels(ds: seq<NodeId>, N: int, up: NodeId -> bool)
    requires AllDifferent(ds)
    ensures var list := Preferred(ds, N, up);
            var p := |Present(ds, N, up)|;
            && p <= |list|
            && (forall i :: 0 <= i < |list| ==> (list[i].hintFor == None <==> i < p))
            && (forall i :: 0 <= i < |list| ==> (list[i].hintFor == None <==> list[i].nodeId in Naturals(ds, N)))
            && TrueOwners(list)[p..] == Skipped(ds, N, up)[..|list| - p]
  {
    var list := Preferred(ds, N, up);
    var p := |Present(ds, N, up)|;
    FilterMembers(Naturals(ds, N), up, true);
    FilterMembers(Beyond(ds, N), up, true);
    forall i | p <= i < |list|
      ensures list[i].nodeId !in Naturals(ds, N)
    {
      var n := list[i].nodeId;
      assert n == Substitutes(ds, N, up)[i - p];
      assert n in Beyond(ds, N);
      var b :| 0 <= b < |Beyond(ds, N)| && Beyond(ds, N)[b] == n;
      assert ds[NaturalCount(N, |ds|) + b] == n;
    }
  }

  lemma {:induction false} FilterKeepsDifferent(ns: seq<NodeId>, up: NodeId -> bool, want: bool)
    requires AllDifferent(ns)
    ensures AllDifferent(Filter(ns, up, want))
  {
    if ns != [] {
      FilterKeepsDifferent(ns[..|ns| - 1], up, want);
      FilterMembers(ns[..|ns| - 1], up, want);
    }
  }

  /** Each entry stands for a different one of the first `N` nodes, so acknowledgements counted per entry
      count distinct replicas. */
  lemma TrueOwnersDistinct(ds: seq<NodeId>, N: int, up: NodeId -> bool)
    requires AllDifferent(ds)
    ensures AllDifferent(TrueOwners(Preferred(ds, N, up)))
    ensures forall i :: 0 <= i < |Preferred(ds, N, up)| ==> TrueOwners(Preferred(ds, N, up))[i] in Naturals(ds, N)
    ensures |Preferred(ds, N, up)| <= NaturalCount(N, |ds|)
  {
    var list := Preferred(ds, N, up);
    var present, skipped := Present(ds, N, up), Skipped(ds, N, up);
    FilterKeepsDifferent(Naturals(ds, N), up, true);
    FilterKeepsDifferent(Naturals(ds, N), up, false);
    FilterMembers(Naturals(ds, N), up, true);
    FilterMembers(Naturals(ds, N), up, false);
    PresentThenSubstitutes(ds, N, up);
    ListedShape(ds, N, up);
    DifferentConcat(present, skipped[..|list| - |present|]);
    forall i | 0 <= i < |list|
      ensures TrueOwners(list)[i] in Naturals(ds, N)
    {
      assert if i < |present| then TrueOwners(list)[i] in present else TrueOwners(list)[i] in skipped;
    }
  }

  lemma DifferentConcat(a: seq<NodeId>, b: seq<NodeId>)
    requires AllDifferent(a) && AllDifferent(b) && forall n :: n in a ==> n !in b
    ensures AllDifferent(a + b)
  {
    forall i, j | 0 <= i < j < |a + b|
      ensures (a + b)[i] != (a + b)[j]
    {
      if i < |a| <= j { assert a[i] in a && b[j - |a|] in b; }
    }
  }

  // ---- bounded movement -----------------------------------------------------

  function Without(ns: seq<NodeId>, x: NodeId): seq<NodeId> {
    if ns == [] then []
    else
      var front, last := Without(ns[..|ns| - 1], x), ns[|ns| - 1];
      if last == x then front else front + [last]
  }

  lemma WithoutAppend(ns: seq<NodeId>, c: NodeId, x: NodeId)
    ensures Without(ns + [c], x) == if c == x then Without(ns, x) else Without(ns, x) + [c]
  {
    assert (ns + [c])[..|ns|] == ns;
  }

  lemma {:induction false} WithoutConcat(a: seq<NodeId>, b: seq<NodeId>, x: NodeId)
    ensures Without(a + b, x) == Without(a, x) + Without(b, x)
  {
    if b == [] {
      assert a + b == a;
    } else {
      var front, last := b[..|b| - 1], b[|b| - 1];
      WithoutConcat(a, front, x);
      assert a + b == (a + front) + [last] && b == front + [last];
      WithoutAppend(a + front, last, x);
      WithoutAppend(front, last, x);
      AppendAssociates(Without(a, x), Without(front, x), last);
    }
  }

  /** A newcomer's positions are free, and it has none yet. */
  ghost predicate Newcomer(ring: Ring, x: NodeId, tokens: seq<Token>) {
    x !in ring.Values && forall t :: t in tokens ==> t !in ring
  }

  /** Owners met on a walk over `walk`, leaving out the ones at positions in `tokens`. */
  lemma {:induction false} OwnersWithout(ring: Ring, x: NodeId, tokens: seq<Token>, walk: seq<Token>, kept: seq<Token>)
    requires Newcomer(ring, x, tokens)
    requires forall t :: t in walk ==> t in ring || t in tokens
    requires forall t :: t in kept ==> t in ring
    requires kept == Restrict(walk, ring.Keys)
    ensures forall t :: t in walk ==> t in AddTokens(ring, tokens, x)
    ensures Without(Owners(AddTokens(ring, tokens, x), walk), x) == Owners(ring, kept)
  {
    var joined := AddTokens(ring, tokens, x);
    if walk != [] {
      var front, last := walk[..|walk| - 1], walk[|walk| - 1];
      var keptFront := Restrict(front, ring.Keys);
      OwnersWithout(ring, x, tokens, front, keptFront);
      assert Owners(joined, walk) == Owners(joined, front) + [joined[last]];
      WithoutAppend(Owners(joined, front), joined[last], x);
      if last in ring {
        assert joined[last] == ring[last] && ring[last] in ring.Values;
        assert kept == keptFront + [last];
        assert Owners(ring, kept) == Owners(ring, keptFront) + [ring[last]];
      } else {
        assert joined[last] == x && kept == keptFront;
      }
    } else {
      assert Owners(joined, walk) == [];
    }
  }

  function Restrict(walk: seq<Token>, keep: set<Token>): (r: seq<Token>)
    ensures forall t :: t in r <==> t in walk && t in keep
  {
    if walk == [] then []
    else
      var last := walk[|walk| - 1];
      assert walk == walk[..|walk| - 1] + [last];
      var front := Restrict(walk[..|walk| - 1], keep);
      if last in keep then front + [last] else front
  }

  lemma {:induction false} RestrictAscending(walk: seq<Token>, keep: set<Token>)
    requires Ascending(walk)
    ensures Ascending(Restrict(walk, keep))
  {
    if walk != [] {
      var front, last := walk[..|walk| - 1], walk[|walk| - 1];
      RestrictAscending(front, keep);
      AppendGreatest(Restrict(front, keep), last);
    }
  }

  lemma AppendGreatest(ts: seq<Token>, t: Token)
    requires Ascending(ts) && forall u :: u in ts ==> u < t
    ensures Ascending(ts + [t])
  {
    assert forall i :: 0 <= i < |ts| ==> ts[i] in ts;
  }

  lemma {:induction false} RestrictConcat(a: seq<Token>, b: seq<Token>, keep: set<Token>)
    ensures Restrict(a + b, keep) == Restrict(a, keep) + Restrict(b, keep)
  {
    if b == [] {
      assert a + b == a;
    } else {
      var front, last := b[..|b| - 1], b[|b| - 1];
      RestrictConcat(a, front, keep);
      assert a + b == (a + front) + [last];
      assert (a + b)[..|a + b| - 1] == a + front;
    }
  }

  /** Walking a larger ring and ignoring the extra positions is walking the smaller ring. */
  lemma ClockwiseRestrict(big: set<Token>, small: set<Token>, h: Token)
    requires small <= big
    ensures Restrict(Clockwise(big, h), small) == Clockwise(small, h)
  {
    var late, early := Sorted(set t | t in big && t > h), Sorted(set t | t in big && t <= h);
    RestrictConcat(late, early, small);
    RestrictAscending(late, small);
    RestrictAscending(early, small);
    SortedUnique(Restrict(late, small), Sorted(set t | t in small && t > h));
    SortedUnique(Restrict(early, small), Sorted(set t | t in small && t <= h));
  }

  lemma {:induction false} DistinctWithout(ns: seq<NodeId>, x: NodeId)
    ensures Distinct(Without(ns, x)) == Without(Distinct(ns), x)
  {
    if ns != [] {
      var front, last := ns[..|ns| - 1], ns[|ns| - 1];
      assert ns == front + [last];
      DistinctWithout(front, x);
      WithoutAppend(front, last, x);
      DistinctAppend(front, last);
      WithoutAppend(Distinct(front), last, x);
      WithoutMembers(Distinct(front), x);
      if last != x { DistinctAppend(Without(front, x), last); }
    }
  }

  lemma {:induction false} WithoutMembers(ns: seq<NodeId>, x: NodeId)
    ensures forall n :: n in Without(ns, x) <==> n in ns && n != x
  {
    if ns != [] {
      WithoutMembers(ns[..|ns| - 1], x);
      assert ns == ns[..|ns| - 1] + [ns[|ns| - 1]];
    }
  }

  /** A node joining at fresh positions leaves the clockwise order of all the others alone. */
  lemma JoinKeepsOrder(ring: Ring, x: NodeId, tokens: seq<Token>, h: Token)
    requires Newcomer(ring, x, tokens)
    ensures Without(NodesFrom(AddTokens(ring, tokens, x), h), x) == NodesFrom(ring, h)
  {
    var joined := AddTokens(ring, tokens, x);
    assert joined.Keys == ring.Keys + set t | t in tokens;
    var walk := Clockwise(joined.Keys, h);
    ClockwiseRestrict(joined.Keys, ring.Keys, h);
    OwnersWithout(ring, x, tokens, walk, Clockwise(ring.Keys, h));
    DistinctWithout(Owners(joined, walk), x);
  }

  /** `after` is `before`, or has `x` inserted and at most the last of `before` dropped, the rest in the same order. */
  predicate MovesLittle(before: seq<NodeId>, after: seq<NodeId>, x: NodeId) {
    if x !in after then after == before
    else |before| <= |after| <= |before| + 1 && Without(after, x) == before[..|after| - 1]
  }

  lemma InsertedBeyond(a: seq<NodeId>, b: seq<NodeId>, ds: seq<NodeId>, x: NodeId, N: int)
    requires x !in a && ds == a + Without(b, x) && |a| == NaturalCount(N, |a + b|)
    requires |Without(b, x)| <= |b|
    ensures Naturals(ds, N) == a
  {
    assert b == [] || |a| == N || N <= 0;
    assert ds[..|a|] == a;
  }

  lemma InsertedWithin(a: seq<NodeId>, rest: seq<NodeId>, ds: seq<NodeId>, N: int)
    requires ds == a + rest && |a| + 1 == NaturalCount(N, |ds| + 1)
    ensures var before := Naturals(ds, N); |before| <= |a| + 1 <= |before| + 1 && a == before[..|a|]
  {
    PrefixOfPrefix(ds, |a|, NaturalCount(N, |ds|));
  }

  /** What inserting one element does to the first `N`. */
  lemma InsertionMovesLittle(es: seq<NodeId>, ds: seq<NodeId>, x: NodeId, N: int)
    requires AllDifferent(es) && ds == Without(es, x)
    ensures MovesLittle(Naturals(ds, N), Naturals(es, N), x)
  {
    var k := NaturalCount(N, |es|);
    var a, b := es[..k], es[k..];
    assert es == a + b;
    WithoutConcat(a, b, x);
    WithoutLength(a, x);
    WithoutLength(b, x);
    WithoutLength(es, x);
    if x !in a {
      WithoutAbsent(a, x);
      InsertedBeyond(a, b, ds, x, N);
    } else {
      InsertedWithin(Without(a, x), Without(b, x), ds, N);
    }
  }

  lemma PrefixOfPrefix(ns: seq<NodeId>, a: nat, b: nat)
    requires a <= b <= |ns|
    ensures ns[..b][..a] == ns[..a]
  {
  }

  lemma {:induction false} WithoutAbsent(ns: seq<NodeId>, x: NodeId)
    requires x !in ns
    ensures Without(ns, x) == ns
  {
    if ns != [] {
      assert ns == ns[..|ns| - 1] + [ns[|ns| - 1]];
      WithoutAbsent(ns[..|ns| - 1], x);
    }
  }

  lemma {:induction false} WithoutLength(ns: seq<NodeId>, x: NodeId)
    requires AllDifferent(ns)
    ensures |Without(ns, x)| == |ns| - (if x in ns then 1 else 0)
  {
    if ns != [] {
      var front, last := ns[..|ns| - 1], ns[|ns| - 1];
      assert ns == front + [last];
      WithoutLength(front, x);
    }
  }

  /** Bounded movement: when `x` joins, a key's owners are unchanged, or `x` is inserted among them and, if
      there were already `N`, the last one drops out; the others keep their relative order. */
  lemma JoinMovesLittle(ring: Ring, x: NodeId, tokens: seq<Token>, h: Token, N: int)
    requires Newcomer(ring, x, tokens)
    ensures MovesLittle(Naturals(NodesFrom(ring, h), N), Naturals(NodesFrom(AddTokens(ring, tokens, x), h), N), x)
  {
    JoinKeepsOrder(ring, x, tokens, h);
    InsertionMovesLittle(NodesFrom(AddTokens(ring, tokens, x), h), NodesFrom(ring, h), x, N);
  }

  /** Taking the node out again restores the ring, hence every preference list. */
  lemma LeaveRestores(ring: Ring, x: NodeId, tokens: seq<Token>)
    requires forall t :: t in tokens ==> t !in ring
    ensures DropTokens(AddTokens(ring, tokens, x), tokens) == ring
  {
  }
}
