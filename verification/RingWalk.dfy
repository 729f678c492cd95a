/** The imperative clockwise walk of ring.hpp, proved against its declarative description, and what that
    description promises about replica placement. */
module RingWalk {
  import opened Basics
  import opened Ring

  // ---- the loop ----------------------------------------------------------

  /** Position of the first token past `h`, or the length when there is none. */
  method UpperBound(order: seq<Token>, h: Token) returns (at: nat)
    requires Ascending(order)
    ensures at <= |order|
    ensures forall i :: 0 <= i < at ==> order[i] <= h
    ensures forall i :: at <= i < |order| ==> order[i] > h
  {
    at := 0;
    while at < |order| && order[at] <= h
      invariant at <= |order|
      invariant forall i :: 0 <= i < at ==> order[i] <= h
    {
      at := at + 1;
    }
  }

  lemma SuffixSorted(order: seq<Token>, at: nat, late: set<Token>)
    requires Ascending(order) && at <= |order|
    requires forall t :: t in late <==> t in order[at..]
    ensures order[at..] == Sorted(late)
  {
    SortedUnique(order[at..], Sorted(late));
  }

  lemma PrefixSorted(order: seq<Token>, at: nat, early: set<Token>)
    requires Ascending(order) && at <= |order|
    requires forall t :: t in early <==> t in order[..at]
    ensures order[..at] == Sorted(early)
  {
    SortedUnique(order[..at], Sorted(early));
  }

  lemma SplitAt(order: seq<Token>, h: Token, at: nat, t: Token)
    requires at <= |order|
    requires forall i :: 0 <= i < at ==> order[i] <= h
    requires forall i :: at <= i < |order| ==> order[i] > h
    ensures t in order && t > h <==> t in order[at..]
    ensures t in order && t <= h <==> t in order[..at]
  {
    if t in order {
      var i :| 0 <= i < |order| && order[i] == t;
      if i < at { assert order[..at][i] == t; } else { assert order[at..][i - at] == t; }
    }
  }

  /** Starting at the upper bound and wrapping once visits the tokens in clockwise order. */
  lemma WrapIsClockwise(s: set<Token>, h: Token, at: nat)
    requires at <= |Sorted(s)|
    requires forall i :: 0 <= i < at ==> Sorted(s)[i] <= h
    requires forall i :: at <= i < |Sorted(s)| ==> Sorted(s)[i] > h
    ensures Clockwise(s, h) == Sorted(s)[at..] + Sorted(s)[..at]
  {
    forall t: Token { SplitAt(Sorted(s), h, at, t); }
    SuffixSorted(Sorted(s), at, set t | t in s && t > h);
    PrefixSorted(Sorted(s), at, set t | t in s && t <= h);
  }

  lemma RotateWhole(order: seq<Token>)
    ensures order[|order|..] + order[..|order|] == order[0..] + order[..0]
  {
  }

  /** Skipped owners no substitute has been found for yet, oldest first. */
  function Unpaired(subs: seq<NodeId>, skipped: seq<NodeId>): seq<NodeId> {
    skipped[Min(|subs|, |skipped|)..]
  }

  function Waiting(ds: seq<NodeId>, N: int, up: NodeId -> bool): seq<NodeId> {
    Unpaired(Substitutes(ds, N, up), Skipped(ds, N, up))
  }

  lemma UnpairedAppend(subs: seq<NodeId>, c: NodeId, skipped: seq<NodeId>)
    ensures Unpaired(subs, skipped) == [] <==> |subs| >= |skipped|
    ensures |subs| < |skipped| ==>
              && Unpaired(subs, skipped)[0] == skipped[|subs|]
              && Unpaired(subs + [c], skipped) == Unpaired(subs, skipped)[1..]
    ensures |subs| >= |skipped| ==> Unpaired(subs + [c], skipped) == []
  {
  }

  /** `N` entries are listed only once `N` owners were met and every skipped one has its substitute. */
  lemma FullList(ds: seq<NodeId>, N: int, up: NodeId -> bool)
    requires |Preferred(ds, N, up)| == N
    ensures |ds| >= N
    ensures |Substitutes(ds, N, up)| >= |Skipped(ds, N, up)|
  {
    FilterSplit(Naturals(ds, N), up);
  }

  /** Once `N` entries are listed, meeting further nodes changes nothing. */
  lemma {:induction false} PreferredStable(ds: seq<NodeId>, es: seq<NodeId>, N: int, up: NodeId -> bool)
    requires |Preferred(ds, N, up)| == N && ds <= es
    ensures Preferred(es, N, up) == Preferred(ds, N, up)
    decreases |es|
  {
    if ds != es {
      var front, c := es[..|es| - 1], es[|es| - 1];
      PreferredStable(ds, front, N, up);
      assert es == front + [c];
      FullList(front, N, up);
      PreferredLater(front, c, N, up);
      if up(c) { PreferredStandIn(front, c, N, up); }
    }
  }

  // The loop's variables, and what one turn does to them.
  datatype WalkState = WalkState(seen: set<NodeId>, natural: nat, pending: seq<NodeId>, list: seq<PreferenceEntry>)

  /** The variables after meeting exactly the distinct nodes `ds`. */
  ghost predicate Met(ds: seq<NodeId>, N: int, up: NodeId -> bool, w: WalkState) {
    && (forall n :: n in w.seen <==> n in ds)
    && w.natural == NaturalCount(N, |ds|)
    && w.pending == Waiting(ds, N, up)
    && w.list == Preferred(ds, N, up)
  }

  function Step(w: WalkState, c: NodeId, N: int, up: NodeId -> bool): WalkState {
    if c in w.seen then w
    else if w.natural < N then
      if up(c) then WalkState(w.seen + {c}, w.natural + 1, w.pending, w.list + [PreferenceEntry(c, None)])
      else WalkState(w.seen + {c}, w.natural + 1, w.pending + [c], w.list)
    else if up(c) && w.pending != [] then
      WalkState(w.seen + {c}, w.natural, w.pending[1..], w.list + [PreferenceEntry(c, Some(w.pending[0]))])
    else WalkState(w.seen + {c}, w.natural, w.pending, w.list)
  }

  function After(ns: seq<NodeId>, k: nat, N: int, up: NodeId -> bool): WalkState
    requires k <= |ns|
  {
    if k == 0 then WalkState({}, 0, [], []) else Step(After(ns, k - 1, N, up), ns[k - 1], N, up)
  }

  lemma NaturalStep(ds: seq<NodeId>, c: NodeId, w: WalkState, N: int, up: NodeId -> bool)
    requires Met(ds, N, up, w) && c !in ds && w.natural < N
    ensures Met(ds + [c], N, up, Step(w, c, N, up))
  {
    PreferredNatural(ds, c, N, up);
  }

  lemma LaterStep(ds: seq<NodeId>, c: NodeId, w: WalkState, N: int, up: NodeId -> bool)
    requires Met(ds, N, up, w) && c !in ds && w.natural >= N
    ensures Met(ds + [c], N, up, Step(w, c, N, up))
  {
    PreferredLater(ds, c, N, up);
    UnpairedAppend(Substitutes(ds, N, up), c, Skipped(ds, N, up));
    if up(c) { PreferredStandIn(ds, c, N, up); }
  }

  lemma StepKeepsMet(ds: seq<NodeId>, c: NodeId, w: WalkState, N: int, up: NodeId -> bool)
    requires Met(ds, N, up, w)
    ensures Met(if c in ds then ds else ds + [c], N, up, Step(w, c, N, up))
  {
    if c !in ds {
      if w.natural < N { NaturalStep(ds, c, w, N, up); } else { LaterStep(ds, c, w, N, up); }
    }
  }

  lemma StartIsMet(ds: seq<NodeId>, N: int, up: NodeId -> bool, w: WalkState)
    requires |ds| == 0 && w == WalkState({}, 0, [], [])
    ensures Met(ds, N, up, w)
  {
    assert Naturals(ds, N) == ds == Beyond(ds, N);
    assert Present(ds, N, up) == [] && Skipped(ds, N, up) == [] && Substitutes(ds, N, up) == [];
  }

  /** The distinct nodes met, and the loop's variables, turn by turn. */
  lemma {:induction false} AfterIsMet(ns: seq<NodeId>, k: nat, N: int, up: NodeId -> bool) returns (ds: seq<NodeId>)
    requires k <= |ns|
    ensures ds == Distinct(ns[..k])
    ensures Met(ds, N, up, After(ns, k, N, up))
  {
    if k == 0 {
      ds := ns[..k];
      StartIsMet(ds, N, up, After(ns, k, N, up));
    } else {
      var front := AfterIsMet(ns, k - 1, N, up);
      StepKeepsMet(front, ns[k - 1], After(ns, k - 1, N, up), N, up);
      ds := if ns[k - 1] in front then front else front + [ns[k - 1]];
      DistinctNext(ns, k - 1);
    }
  }

  lemma DistinctNext(ns: seq<NodeId>, k: nat)
    requires k < |ns|
    ensures var ds := Distinct(ns[..k]);
            Distinct(ns[..k + 1]) == if ns[k] in ds then ds else ds + [ns[k]]
  {
    assert ns[..k + 1] == ns[..k] + [ns[k]];
    DistinctAppend(ns[..k], ns[k]);
  }

  /** Stopping when `N` entries are listed, or after one round, leaves the declared list. */
  lemma StopIsFinal(ns: seq<NodeId>, k: nat, N: int, up: NodeId -> bool)
    requires k <= |ns| && (k == |ns| || |After(ns, k, N, up).list| == N)
    ensures After(ns, k, N, up).list == Preferred(Distinct(ns), N, up)
  {
    var ds := AfterIsMet(ns, k, N, up);
    if k == |ns| {
      assert ns[..k] == ns;
    } else {
      DistinctPrefix(ns, k);
      PreferredStable(ds, Distinct(ns), N, up);
    }
  }

  /** Visits the owners from `start`, wrapping once, until `N` entries are listed. */
  method Walk(owners: seq<NodeId>, start: nat, N: int, up: NodeId -> bool) returns (list: seq<PreferenceEntry>)
    requires start < |owners|
    ensures list == Preferred(Distinct(owners[start..] + owners[..start]), N, up)
  {
    ghost var ns := owners[start..] + owners[..start];
    list := [];
    var it := start;
    var seen: set<NodeId> := {};
    var pending: seq<NodeId> := [];
    var natural: nat := 0;
    var visited: nat := 0;
    while true
      invariant visited < |owners|
      invariant it == if start + visited < |owners| then start + visited else start + visited - |owners|
      invariant WalkState(seen, natural, pending, list) == After(ns, visited, N, up)
      decreases |owners| - visited
    {
      var candidate := owners[it];
      assert candidate == ns[visited];
      if candidate !in seen {
        seen := seen + {candidate};
        if natural < N {
          natural := natural + 1;
          if up(candidate) {
            list := list + [PreferenceEntry(candidate, None)];
          } else {
            pending := pending + [candidate];
          }
        } else if up(candidate) && pending != [] {
          var hintTarget := pending[0];
          pending := pending[1..];
          list := list + [PreferenceEntry(candidate, Some(hintTarget))];
        }
      }
      visited := visited + 1;
      if |list| == N || visited >= |owners| { break; }
      it := it + 1;
      if it == |owners| { it := 0; }
    }
    StopIsFinal(ns, visited, N, up);
  }

  lemma OwnersRotate(ring: Ring, order: seq<Token>, start: nat, walk: seq<Token>)
    requires start <= |order| && walk == order[start..] + order[..start]
    requires forall t :: t in order ==> t in ring
    requires forall t :: t in walk ==> t in ring
    ensures Owners(ring, walk) == Owners(ring, order)[start..] + Owners(ring, order)[..start]
  {
  }

  method PreferenceList(ring: Ring, keyHash: Token, N: int, up: NodeId -> bool) returns (list: seq<PreferenceEntry>)
    ensures list == Preferred(NodesFrom(ring, keyHash), N, up)
  {
    if ring == map[] { return []; }
    var order := Sorted(ring.Keys);
    assert order != [] by { var t :| t in ring; assert t in order; }
    var it := UpperBound(order, keyHash);
    WrapIsClockwise(ring.Keys, keyHash, it);
    if it == |order| {
      RotateWhole(order);
      it := 0;
    }
    OwnersRotate(ring, order, it, Clockwise(ring.Keys, keyHash));
    list := Walk(Owners(ring, order), it, N, up);
  }
}
