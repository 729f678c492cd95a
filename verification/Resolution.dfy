/** Reducing the replica responses of a read to one version (vector_clock.hpp): the causal frontier,
    then last-writer-wins among genuinely concurrent survivors. */
module Resolution {
  import opened Basics
  import opened VectorClocks

  // ---- the frontier -----------------------------------------------------

  /** Response `j` makes response `i` redundant: strictly newer, or an earlier copy of the same clock. */
  ghost predicate Covers(rs: seq<Versioned>, j: nat, i: nat)
    requires i < |rs| && j < |rs|
  {
    j != i && (Lt(rs[i].clock, rs[j].clock) || (Equiv(rs[i].clock, rs[j].clock) && j < i))
  }

  ghost predicate Kept(rs: seq<Versioned>, i: nat)
    requires i < |rs|
  {
    forall j: nat :: j < |rs| ==> !Covers(rs, j, i)
  }

  /** The kept positions among the first `n`, in order. */
  ghost function KeptBelow(rs: seq<Versioned>, n: nat): (ks: seq<nat>)
    requires n <= |rs|
    ensures forall p :: 0 <= p < |ks| ==> ks[p] < n && Kept(rs, ks[p])
    ensures forall p, q :: 0 <= p < q < |ks| ==> ks[p] < ks[q]
    ensures forall i: nat :: i < n && Kept(rs, i) ==> i in ks
  {
    if n == 0 then []
    else if Kept(rs, n - 1) then KeptBelow(rs, n - 1) + [n - 1]
    else KeptBelow(rs, n - 1)
  }

  ghost function Pick(rs: seq<Versioned>, ks: seq<nat>): (vs: seq<Versioned>)
    requires forall p :: 0 <= p < |ks| ==> ks[p] < |rs|
    ensures |vs| == |ks|
  {
    seq(|ks|, p requires 0 <= p < |ks| => rs[ks[p]])
  }

  ghost function Frontier(rs: seq<Versioned>): seq<Versioned> {
    Pick(rs, KeptBelow(rs, |rs|))
  }

  method Survives(rs: seq<Versioned>, i: nat) returns (keep: bool)
    requires i < |rs|
    ensures keep == Kept(rs, i)
  {
    for j := 0 to |rs|
      invariant forall k: nat :: k < j ==> !Covers(rs, k, i)
    {
      if i != j {
        var res := CompareVectorClocks(rs[i].clock, rs[j].clock);
        if (res == EQUAL && j < i) || res == DOMINATED {
          assert Covers(rs, j, i);
          return false;
        }
      }
    }
    return true;
  }

  lemma PickAppend(rs: seq<Versioned>, ks: seq<nat>, k: nat)
    requires forall p :: 0 <= p < |ks| ==> ks[p] < |rs|
    requires k < |rs|
    ensures Pick(rs, ks + [k]) == Pick(rs, ks) + [rs[k]]
  {
  }

  method ComputeFrontier(rs: seq<Versioned>) returns (survivors: seq<Versioned>)
    ensures survivors == Frontier(rs)
  {
    survivors := [];
    for i := 0 to |rs|
      invariant survivors == Pick(rs, KeptBelow(rs, i))
    {
      var keep := Survives(rs, i);
      if keep {
        PickAppend(rs, KeptBelow(rs, i), i);
        survivors := survivors + [rs[i]];
      }
    }
  }

  /** Survivors come from distinct positions of the input in input order and are pairwise concurrent. */
  lemma FrontierIsAntichain(rs: seq<Versioned>)
    ensures var ks := KeptBelow(rs, |rs|);
            && |Frontier(rs)| == |ks|
            && (forall p :: 0 <= p < |ks| ==> ks[p] < |rs| && Frontier(rs)[p] == rs[ks[p]])
            && (forall p, q :: 0 <= p < q < |ks| ==> ks[p] < ks[q])
    ensures forall p, q :: 0 <= p < q < |Frontier(rs)| ==> Concurrent(Frontier(rs)[p].clock, Frontier(rs)[q].clock)
  {
    var ks := KeptBelow(rs, |rs|);
    forall p, q | 0 <= p < q < |ks|
      ensures Concurrent(rs[ks[p]].clock, rs[ks[q]].clock)
    {
      assert Kept(rs, ks[p]) && Kept(rs, ks[q]);
      assert !Covers(rs, ks[p], ks[q]) && !Covers(rs, ks[q], ks[p]);
    }
  }

  /** The positions whose clocks strictly dominate response `i`. */
  ghost function Above(rs: seq<Versioned>, i: nat): set<nat>
    requires i < |rs|
  {
    set j: nat | j < |rs| && Lt(rs[i].clock, rs[j].clock)
  }

  /** Every response is at or below some survivor: climb to a dominating response, or back to an earlier copy. */
  lemma {:induction false} FrontierCovers(rs: seq<Versioned>, i: nat) returns (k: nat)
    requires i < |rs|
    ensures k < |rs| && Kept(rs, k) && Leq(rs[i].clock, rs[k].clock)
    ensures rs[k] in Frontier(rs)
    decreases |Above(rs, i)|, i
  {
    if Kept(rs, i) {
      k := i;
      LeqReflexive(rs[i].clock);
      var ks := KeptBelow(rs, |rs|);
      assert i in ks;
      var p :| 0 <= p < |ks| && ks[p] == i;
      assert Frontier(rs)[p] == rs[i];
    } else {
      var j: nat :| j < |rs| && Covers(rs, j, i);
      AboveShrinks(rs, i, j);
      k := FrontierCovers(rs, j);
      LeqTransitive(rs[i].clock, rs[j].clock, rs[k].clock);
    }
  }

  lemma AboveShrinks(rs: seq<Versioned>, i: nat, j: nat)
    requires i < |rs| && j < |rs| && Leq(rs[i].clock, rs[j].clock)
    ensures |Above(rs, j)| <= |Above(rs, i)|
    ensures Lt(rs[i].clock, rs[j].clock) ==> |Above(rs, j)| < |Above(rs, i)|
  {
    forall k | k in Above(rs, j)
      ensures k in Above(rs, i)
    {
      LeqTransitive(rs[i].clock, rs[j].clock, rs[k].clock);
    }
    SubsetCardinality(Above(rs, j), Above(rs, i));
    if Lt(rs[i].clock, rs[j].clock) {
      assert j in Above(rs, i) && j !in Above(rs, j);
      SubsetCardinality(Above(rs, j), Above(rs, i) - {j});
    }
  }

  lemma SubsetCardinality(a: set<nat>, b: set<nat>)
    requires a <= b
    ensures |a| <= |b|
  {
    assert b == a + (b - a);
  }

  /** Response `g` is at or above every response. */
  ghost predicate Greatest(rs: seq<Versioned>, g: nat)
    requires g < |rs|
  {
    forall i: nat :: i < |rs| ==> Leq(rs[i].clock, rs[g].clock)
  }

  /** One survivor exactly when some response is at or above all the others; and then it stands for that clock. */
  lemma FrontierSingleton(rs: seq<Versioned>)
    requires rs != []
    ensures Frontier(rs) != []
    ensures |Frontier(rs)| == 1 <==> exists g: nat :: g < |rs| && Greatest(rs, g)
    ensures forall g: nat, p: nat :: g < |rs| && Greatest(rs, g) && p < |Frontier(rs)| ==>
              Equiv(Frontier(rs)[p].clock, rs[g].clock)
  {
    var ks := KeptBelow(rs, |rs|);
    FrontierIsAntichain(rs);
    var k := FrontierCovers(rs, 0);
    if |ks| == 1 {
      var g := ks[0];
      forall i: nat | i < |rs|
        ensures Leq(rs[i].clock, rs[g].clock)
      {
        var c := FrontierCovers(rs, i);
        assert c in ks;
      }
      assert Greatest(rs, g);
    }
    forall g: nat, p: nat | g < |rs| && Greatest(rs, g) && p < |ks|
      ensures Equiv(Frontier(rs)[p].clock, rs[g].clock)
    {
      assert Kept(rs, ks[p]) && !Covers(rs, g, ks[p]);
      assert Leq(rs[ks[p]].clock, rs[g].clock);
      LeqReflexive(rs[g].clock);
    }
    if g: nat :| g < |rs| && Greatest(rs, g) {
      if |ks| > 1 {
        assert Concurrent(Frontier(rs)[0].clock, Frontier(rs)[1].clock);
        LeqTransitive(Frontier(rs)[0].clock, rs[g].clock, Frontier(rs)[1].clock);
        assert false;
      }
    }
  }

  // ---- last writer wins -------------------------------------------------

  /** Position of the version with the newest stamp among the first `n`; the earliest one on a full tie. */
  function NewestBelow(vs: seq<Versioned>, n: nat): (w: nat)
    requires 0 < n <= |vs|
    ensures w < n
    ensures forall j: nat :: j < n ==> !Newer(vs[j].clock.Stamp(), vs[w].clock.Stamp())
    ensures forall j: nat :: j < w ==> Newer(vs[w].clock.Stamp(), vs[j].clock.Stamp())
  {
    if n == 1 then
      NewerTotal(vs[0].clock.Stamp(), vs[0].clock.Stamp());
      0
    else
      var w := NewestBelow(vs, n - 1);
      NewestStep(vs, n - 1, w);
      if Newer(vs[n - 1].clock.Stamp(), vs[w].clock.Stamp()) then n - 1 else w
  }

  lemma NewestStep(vs: seq<Versioned>, n: nat, w: nat)
    requires n < |vs| && w < n
    requires forall j: nat :: j < n ==> !Newer(vs[j].clock.Stamp(), vs[w].clock.Stamp())
    ensures Newer(vs[n].clock.Stamp(), vs[w].clock.Stamp()) ==>
              forall j: nat :: j < n ==>
                Newer(vs[n].clock.Stamp(), vs[j].clock.Stamp()) && !Newer(vs[j].clock.Stamp(), vs[n].clock.Stamp())
    ensures !Newer(vs[n].clock.Stamp(), vs[n].clock.Stamp())
  {
    var s := vs[n].clock.Stamp();
    NewerTotal(s, s);
    if Newer(s, vs[w].clock.Stamp()) {
      forall j: nat | j < n
        ensures Newer(s, vs[j].clock.Stamp()) && !Newer(vs[j].clock.Stamp(), s)
      {
        NewerTotal(vs[w].clock.Stamp(), vs[j].clock.Stamp());
        if Newer(vs[w].clock.Stamp(), vs[j].clock.Stamp()) {
          NewerTransitive(s, vs[w].clock.Stamp(), vs[j].clock.Stamp());
        }
        NewerTotal(s, vs[j].clock.Stamp());
      }
    }
  }

  function LwwWinner(vs: seq<Versioned>): Versioned
    requires vs != []
  {
    vs[NewestBelow(vs, |vs|)]
  }

  method ResolveLww(vs: seq<Versioned>) returns (winner: Versioned)
    requires vs != []
    ensures winner == LwwWinner(vs)
  {
    winner := vs[0];
    for i := 1 to |vs|
      invariant winner == vs[NewestBelow(vs, i)]
    {
      var candidate := vs[i];
      if candidate.clock.lastUpdated > winner.clock.lastUpdated {
        winner := candidate;
      } else if && candidate.clock.lastUpdated == winner.clock.lastUpdated
                && StringLess(winner.clock.writerId, candidate.clock.writerId) {
        winner := candidate;
      }
    }
  }

  // ---- resolving a read -------------------------------------------------

  datatype Resolved = Resolved(winner: Versioned, concurrentCount: nat)

  ghost function Resolve(rs: seq<Versioned>): Resolved
    requires rs != []
  {
    FrontierSingleton(rs);
    var f := Frontier(rs);
    Resolved(if |f| > 1 then LwwWinner(f) else f[0], |f|)
  }

  method ResolveGetResult(rs: seq<Versioned>) returns (res: Resolved)
    requires rs != []
    ensures res == Resolve(rs)
  {
    FrontierSingleton(rs);
    var frontier := ComputeFrontier(rs);
    if |frontier| > 1 {
      var winner := ResolveLww(frontier);
      res := Resolved(winner, |frontier|);
    } else {
      res := Resolved(frontier[0], |frontier|);
    }
  }

  /** What the winner is: a response that no response dominates, and no survivor carries a newer stamp. */
  lemma WinnerMeaning(rs: seq<Versioned>)
    requires rs != []
    ensures var w := Resolve(rs).winner;
            && w in rs && w in Frontier(rs)
            && (forall i :: 0 <= i < |rs| ==> !Lt(w.clock, rs[i].clock))
            && (forall p :: 0 <= p < |Frontier(rs)| ==> !Newer(Frontier(rs)[p].clock.Stamp(), w.clock.Stamp()))
    ensures 1 <= Resolve(rs).concurrentCount <= |rs|
  {
    var ks := KeptBelow(rs, |rs|);
    FrontierSingleton(rs);
    var f := Frontier(rs);
    NewerTotal(f[0].clock.Stamp(), f[0].clock.Stamp());
    var p := if |f| > 1 then NewestBelow(f, |f|) else 0;
    assert Resolve(rs).winner == f[p] == rs[ks[p]];
    forall i | 0 <= i < |rs|
      ensures !Lt(rs[ks[p]].clock, rs[i].clock)
    {
      assert Kept(rs, ks[p]) && !Covers(rs, i, ks[p]);
    }
    KeptCount(rs, |rs|);
  }

  lemma {:induction false} KeptCount(rs: seq<Versioned>, n: nat)
    requires n <= |rs|
    ensures |KeptBelow(rs, n)| <= n
  {
    if n > 0 { KeptCount(rs, n - 1); }
  }

  /** Causality beats the clock on the wall: a response at or above all others wins whatever the stamps say. */
  lemma GreatestWins(rs: seq<Versioned>, g: nat)
    requires g < |rs| && Greatest(rs, g)
    ensures Equiv(Resolve(rs).winner.clock, rs[g].clock)
    ensures Resolve(rs).concurrentCount == 1
  {
    FrontierSingleton(rs);
  }

  /** Of equal clocks the first response is the one kept. */
  lemma FirstCopyKept(rs: seq<Versioned>, p: nat)
    requires p < |Frontier(rs)|
    ensures var ks := KeptBelow(rs, |rs|);
            ks[p] < |rs| && Frontier(rs)[p] == rs[ks[p]]
            && forall j: nat :: j < ks[p] ==> !Equiv(rs[ks[p]].clock, rs[j].clock)
  {
    var ks := KeptBelow(rs, |rs|);
    forall j: nat | j < ks[p]
      ensures !Equiv(rs[ks[p]].clock, rs[j].clock)
    {
      assert Kept(rs, ks[p]) && !Covers(rs, j, ks[p]);
    }
  }

  /** An undominated response with a newer stamp than every other undominated one wins. */
  lemma NewestSurvivorWins(rs: seq<Versioned>, g: nat)
    requires g < |rs| && forall i: nat :: i < |rs| && i != g ==> !Leq(rs[g].clock, rs[i].clock)
    requires forall i: nat :: i < |rs| && i != g && (forall j: nat :: j < |rs| ==> !Lt(rs[i].clock, rs[j].clock)) ==>
               Newer(rs[g].clock.Stamp(), rs[i].clock.Stamp())
    ensures Resolve(rs).winner == rs[g]
  {
    WinnerMeaning(rs);
    var w := Resolve(rs).winner;
    var k := FrontierCovers(rs, g);
    assert k == g;
    var p :| 0 <= p < |Frontier(rs)| && Frontier(rs)[p] == rs[g];
    var i :| 0 <= i < |rs| && rs[i] == w;
    assert forall j: nat :: j < |rs| ==> !Lt(rs[i].clock, rs[j].clock);
    assert !Newer(Frontier(rs)[p].clock.Stamp(), w.clock.Stamp());
  }

  // ---- independence of arrival order ------------------------------------

  ghost predicate ClockDeterminesVersion(rs: seq<Versioned>) {
    forall u, v :: u in rs && v in rs && Equiv(u.clock, v.clock) ==> u == v
  }

  ghost predicate ConcurrentStampsDiffer(rs: seq<Versioned>) {
    forall u, v :: u in rs && v in rs && Concurrent(u.clock, v.clock) ==> u.clock.Stamp() != v.clock.Stamp()
  }

  ghost predicate SameVersions(rs: seq<Versioned>, ss: seq<Versioned>) {
    forall v :: v in rs <==> v in ss
  }

  /** When a clock determines its version, the survivors are exactly the responses nobody dominates. */
  lemma FrontierMembers(rs: seq<Versioned>, v: Versioned)
    requires ClockDeterminesVersion(rs)
    ensures v in Frontier(rs) <==> v in rs && forall u :: u in rs ==> !Lt(v.clock, u.clock)
  {
    var ks := KeptBelow(rs, |rs|);
    if v in Frontier(rs) {
      var p :| 0 <= p < |ks| && rs[ks[p]] == v;
      forall u | u in rs
        ensures !Lt(v.clock, u.clock)
      {
        var j :| 0 <= j < |rs| && rs[j] == u;
        assert !Covers(rs, j, ks[p]);
      }
    }
    if v in rs && forall u :: u in rs ==> !Lt(v.clock, u.clock) {
      var i :| 0 <= i < |rs| && rs[i] == v;
      var k := FrontierCovers(rs, i);
      assert Equiv(v.clock, rs[k].clock) && rs[k] in rs;
    }
  }

  ghost function Elements(vs: seq<Versioned>): set<Versioned> { set v | v in vs }

  lemma {:induction false} DistinctLength(vs: seq<Versioned>)
    requires forall p, q :: 0 <= p < q < |vs| ==> vs[p] != vs[q]
    ensures |Elements(vs)| == |vs|
  {
    if vs != [] {
      var last := vs[|vs| - 1];
      var front := vs[..|vs| - 1];
      DistinctLength(front);
      assert vs == front + [last];
      assert Elements(vs) == Elements(front) + {last};
    }
  }

  lemma FrontierLength(rs: seq<Versioned>)
    ensures |Elements(Frontier(rs))| == |Frontier(rs)|
  {
    var f := Frontier(rs);
    FrontierIsAntichain(rs);
    forall p, q | 0 <= p < q < |f|
      ensures f[p] != f[q]
    {
      LeqReflexive(f[p].clock);
      assert Concurrent(f[p].clock, f[q].clock);
    }
    DistinctLength(f);
  }

  /** The conflict reported counts the different versions that nobody dominates. */
  lemma ConflictCount(rs: seq<Versioned>)
    requires rs != [] && ClockDeterminesVersion(rs)
    ensures var undominated := set v | v in rs && forall u :: u in rs ==> !Lt(v.clock, u.clock);
            Resolve(rs).concurrentCount == |undominated|
  {
    var undominated := set v | v in rs && forall u :: u in rs ==> !Lt(v.clock, u.clock);
    forall v
      ensures v in Elements(Frontier(rs)) <==> v in undominated
    {
      FrontierMembers(rs, v);
    }
    assert Elements(Frontier(rs)) == undominated;
    FrontierLength(rs);
  }

  /** Permuting the responses, or repeating some, changes neither the winner nor the size of the conflict. */
  lemma ResolutionIgnoresOrder(rs: seq<Versioned>, ss: seq<Versioned>)
    requires rs != [] && ss != [] && SameVersions(rs, ss)
    requires ClockDeterminesVersion(rs) && ConcurrentStampsDiffer(rs)
    ensures Resolve(rs) == Resolve(ss)
  {
    var f, g := Frontier(rs), Frontier(ss);
    forall v
      ensures v in f <==> v in g
    {
      FrontierMembers(rs, v);
      FrontierMembers(ss, v);
    }
    assert Elements(f) == Elements(g);
    FrontierLength(rs);
    FrontierLength(ss);
    WinnerMeaning(rs);
    WinnerMeaning(ss);
    SurvivorsApart(rs, Resolve(rs).winner, Resolve(ss).winner);
    NewerTotal(Resolve(rs).winner.clock.Stamp(), Resolve(ss).winner.clock.Stamp());
  }

  lemma SurvivorsApart(rs: seq<Versioned>, u: Versioned, v: Versioned)
    requires ConcurrentStampsDiffer(rs)
    requires u in Frontier(rs) && v in Frontier(rs)
    ensures u == v || u.clock.Stamp() != v.clock.Stamp()
  {
    FrontierIsAntichain(rs);
    var p :| 0 <= p < |Frontier(rs)| && Frontier(rs)[p] == u;
    var q :| 0 <= q < |Frontier(rs)| && Frontier(rs)[q] == v;
    if p < q {
      assert Concurrent(u.clock, v.clock);
    } else if q < p {
      assert Concurrent(v.clock, u.clock);
    }
  }
}
