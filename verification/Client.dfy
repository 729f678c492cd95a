/** The client library: it rotates over its seed nodes, fails over within one call, and carries the causal context of
    each key from one call to the next (driftclient.hpp). */
module Client {
  import opened Basics
  import opened VectorClocks
  import opened PutPath

  type Cache = map<Key, Clock>

  datatype PutRequest = PutRequest(key: Key, value: string, context: Clock)

  datatype PutResult = PutResult(success: bool, acks: nat, context: Clock)

  datatype GetResult = GetResult(found: bool, value: string, responses: nat, context: Clock)

  function Cached(cache: Cache, key: Key): Option<Clock> {
    if key in cache then Some(cache[key]) else None
  }

  /** A refusal carries no counters and must not replace what is cached. */
  function AfterPut(cache: Cache, key: Key, answer: Option<PutResult>): Cache {
    if answer.Some? && answer.value.context.counters != map[] then cache[key := answer.value.context] else cache
  }

  function AfterGet(cache: Cache, key: Key, answer: Option<GetResult>): Cache {
    if answer.Some? && answer.value.found then cache[key := answer.value.context] else cache
  }

  /** The position asked on attempt `k` of a call that starts at `start`. */
  function PositionAt(n: nat, start: nat, k: nat): nat
    requires n > 0
  {
    (start + k) % n
  }

  function SeedAt(seeds: seq<NodeId>, start: nat, k: nat): NodeId
    requires seeds != []
  {
    seeds[PositionAt(|seeds|, start, k)]
  }

  /** The first attempt of the call that is answered, or the number of seeds when none is. */
  ghost predicate FirstAnswered<T>(network: (nat, NodeId) -> Option<T>, seeds: seq<NodeId>, start: nat, at: nat)
    requires seeds != []
  {
    && at <= |seeds|
    && (forall k: nat :: k < at ==> network(k, SeedAt(seeds, start, k)).None?)
    && (at < |seeds| ==> network(at, SeedAt(seeds, start, at)).Some?)
  }

  class DriftClient {
    const seedNodes: seq<NodeId>
    var callsMade: Counter
    var lastContext: Cache

    constructor (seedNodes: seq<NodeId>)
      ensures this.seedNodes == seedNodes && callsMade == 0 && lastContext == map[]
    {
      this.seedNodes := seedNodes;
      callsMade, lastContext := 0, map[];
    }

    /** A client exists only if some seed answered. */
    static method Connect(seedNodes: seq<NodeId>, pings: NodeId -> bool) returns (client: DriftClient?)
      ensures client != null <==> exists i :: 0 <= i < |seedNodes| && pings(seedNodes[i])
      ensures client != null ==>
                fresh(client) && client.seedNodes == seedNodes && client.callsMade == 0 && client.lastContext == map[]
    {
      client := null;
      for i := 0 to |seedNodes|
        invariant forall j :: 0 <= j < i ==> !pings(seedNodes[j])
      {
        if pings(seedNodes[i]) {
          client := new DriftClient(seedNodes);
          return;
        }
      }
    }

    /** The rotation advances by one on every call, on a 64-bit word. */
    method NextStart() returns (start: nat)
      requires seedNodes != []
      modifies this`callsMade
      ensures start == old(callsMade) % |seedNodes|
      ensures callsMade == (old(callsMade) + 1) % COUNTER_LIMIT
    {
      start := callsMade % |seedNodes|;
      callsMade := (callsMade + 1) % COUNTER_LIMIT;
    }

    /** Sends the cached context, walks the seeds until one answers, and caches the answer's context if it has counters.
        `network` decides how each attempt ends: an answer to the request, or a transport failure. */
    method Put(key: Key, value: string, network: (nat, NodeId, PutRequest) -> Option<PutResult>)
      returns (out: PutResult, ghost at: nat)
      requires seedNodes != []
      modifies this
      ensures callsMade == (old(callsMade) + 1) % COUNTER_LIMIT
      ensures var req := PutRequest(key, value, OrEmpty(Cached(old(lastContext), key)));
              var start := old(callsMade) % |seedNodes|;
              && FirstAnswered((k, seed) => network(k, seed, req), seedNodes, start, at)
              && var answer := if at < |seedNodes| then network(at, SeedAt(seedNodes, start, at), req) else None;
                 && lastContext == AfterPut(old(lastContext), key, answer)
                 && out == (if answer.Some? then answer.value else PutResult(false, 0, EMPTY_CLOCK))
    {
      var req := PutRequest(key, value, EMPTY_CLOCK);
      if key in lastContext {
        req := req.(context := lastContext[key]);
      }
      out := PutResult(false, 0, EMPTY_CLOCK);
      var start := NextStart();
      var attempt := 0;
      at := attempt;
      while attempt < |seedNodes|
        invariant at == attempt <= |seedNodes|
        invariant forall k: nat :: k < attempt ==> network(k, SeedAt(seedNodes, start, k), req).None?
        invariant lastContext == old(lastContext) && callsMade == (old(callsMade) + 1) % COUNTER_LIMIT
      {
        var answer := network(attempt, SeedAt(seedNodes, start, attempt), req);
        if answer.Some? {
          out := answer.value;
          if out.context.counters != map[] {
            lastContext := lastContext[key := out.context];
          }
          return;
        }
        attempt := attempt + 1;
        at := attempt;
      }
    }

    /** Walks the seeds until one answers, and caches the context of a version that was found. */
    method Get(key: Key, network: (nat, NodeId) -> Option<GetResult>) returns (out: GetResult, ghost at: nat)
      requires seedNodes != []
      modifies this
      ensures callsMade == (old(callsMade) + 1) % COUNTER_LIMIT
      ensures var start := old(callsMade) % |seedNodes|;
              && FirstAnswered(network, seedNodes, start, at)
              && var answer := if at < |seedNodes| then network(at, SeedAt(seedNodes, start, at)) else None;
                 && lastContext == AfterGet(old(lastContext), key, answer)
                 && out == (if answer.Some? then answer.value else GetResult(false, "", 0, EMPTY_CLOCK))
    {
      out := GetResult(false, "", 0, EMPTY_CLOCK);
      var start := NextStart();
      var attempt := 0;
      at := attempt;
      while attempt < |seedNodes|
        invariant at == attempt <= |seedNodes|
        invariant forall k: nat :: k < attempt ==> network(k, SeedAt(seedNodes, start, k)).None?
        invariant lastContext == old(lastContext) && callsMade == (old(callsMade) + 1) % COUNTER_LIMIT
      {
        var answer := network(attempt, SeedAt(seedNodes, start, attempt));
        if answer.Some? {
          out := answer.value;
          if out.found {
            lastContext := lastContext[key := out.context];
          }
          return;
        }
        attempt := attempt + 1;
        at := attempt;
      }
    }
  }

  // ---- the rotation ------------------------------------------------------------

  lemma WrapOnce(x: nat, n: nat)
    requires 0 < n && x < 2 * n
    ensures x % n == if x < n then x else x - n
  {
  }

  /** Within one call every position of the seed list has its turn, on exactly one attempt. */
  lemma CallVisitsEverySeedOnce(start: nat, n: nat, position: nat)
    requires start < n && position < n
    ensures exists k: nat :: k < n && PositionAt(n, start, k) == position
                          && forall l: nat :: l < n && PositionAt(n, start, l) == position ==> l == k
  {
    var k: nat := if position >= start then position - start else position + n - start;
    WrapOnce(start + k, n);
    assert PositionAt(n, start, k) == position;
    forall l: nat | l < n && PositionAt(n, start, l) == position
      ensures l == k
    {
      WrapOnce(start + l, n);
    }
  }

  /** A call starts where the rotation stands and then moves on one position at a time, wrapping at the end. */
  lemma AttemptsFollowTheList(start: nat, n: nat, k: nat)
    requires start < n && k < n
    ensures PositionAt(n, start, 0) == start
    ensures PositionAt(n, start, k + 1) == if PositionAt(n, start, k) + 1 == n then 0 else PositionAt(n, start, k) + 1
  {
    WrapOnce(start, n);
    WrapOnce(start + k, n);
    if start + k + 1 < 2 * n { WrapOnce(start + k + 1, n); }
  }

  /** The next call starts one seed further on, until the 64-bit count of calls wraps. */
  lemma CallsRotate(callsMade: nat, n: nat)
    requires n > 0 && callsMade + 1 < COUNTER_LIMIT
    ensures (callsMade + 1) % COUNTER_LIMIT % n == if callsMade % n + 1 == n then 0 else callsMade % n + 1
  {
    RemainderNext(callsMade, n);
  }

  lemma RemainderNext(x: nat, n: nat)
    requires n > 0
    ensures (x + 1) % n == if x % n + 1 == n then 0 else x % n + 1
  {
    var q, r := x / n, x % n;
    assert x == n * q + r;
    if r + 1 == n {
      assert x + 1 == n * (q + 1);
      RemainderOf(n, q + 1, 0);
    } else {
      RemainderOf(n, q, r + 1);
    }
  }

  lemma RemainderOf(n: nat, q: nat, r: nat)
    requires r < n
    ensures (n * q + r) % n == r
  {
    var x := n * q + r;
    assert x == n * (x / n) + x % n;
    assert n * (x / n - q) == n * (x / n) - n * q;
    OnlyZeroMultiple(n, x / n - q, r - x % n);
  }

  lemma OnlyZeroMultiple(n: int, d: int, e: int)
    requires -n < e < n && n * d == e
    ensures d == 0 && e == 0
  {
    assert d >= 1 ==> n * d >= n;
    assert d <= -1 ==> n * d <= -n;
  }

  // ---- the cached context over a session -------------------------------------------

  // One call as the client sees it, with the answer it got, if any.
  datatype Call = PutCall(key: Key, putAnswer: Option<PutResult>) | GetCall(key: Key, getAnswer: Option<GetResult>)

  /** An answer to a Put that carried `sent`, as honest servers give it. */
  ghost predicate HonestAnswer(sent: Clock, answer: Option<PutResult>) {
    answer.Some? ==> HonestReply(sent, answer.value.context)
  }

  function ContextOf(cache: Cache, key: Key): Clock { OrEmpty(Cached(cache, key)) }

  function AfterCall(cache: Cache, call: Call): Cache {
    match call
    case PutCall(key, answer) => AfterPut(cache, key, answer)
    case GetCall(key, answer) => AfterGet(cache, key, answer)
  }

  function CacheAfter(calls: seq<Call>, k: nat): Cache
    requires k <= |calls|
  {
    if k == 0 then map[] else AfterCall(CacheAfter(calls, k - 1), calls[k - 1])
  }

  /** The call is a Put on `key` whose answer is cached. */
  predicate Advances(call: Call, key: Key) {
    call.PutCall? && call.key == key && call.putAnswer.Some? && call.putAnswer.value.context.counters != map[]
  }

  ghost predicate AdvanceWithin(calls: seq<Call>, key: Key, i: nat, j: nat)
    requires j <= |calls|
  {
    exists k: nat :: i <= k < j && Advances(calls[k], key)
  }

  /** An honest answer either leaves the cache alone or raises the context strictly. */
  lemma PutRaises(cache: Cache, key: Key, answer: Option<PutResult>)
    requires HonestAnswer(ContextOf(cache, key), answer)
    ensures if Advances(PutCall(key, answer), key)
        then Lt(ContextOf(cache, key), ContextOf(AfterPut(cache, key, answer), key))
            else AfterPut(cache, key, answer) == cache
  {
    if Advances(PutCall(key, answer), key) {
      var sent := ContextOf(cache, key);
      var local, coordinator, now :|
        RoomToCount(Some(sent), local, coordinator)
            && answer.value.context == NewClock(Some(sent), local, coordinator, now);
      NewClockDominates(Some(sent), local, coordinator, now);
    }
  }

  ghost predicate HonestPutAt(calls: seq<Call>, key: Key, k: nat)
    requires k < |calls|
  {
    calls[k].key == key ==>
      calls[k].PutCall? && HonestAnswer(ContextOf(CacheAfter(calls, k), key), calls[k].putAnswer)
  }

  /** Calls `i` up to `j` on the key are Puts with honest answers; calls on other keys may be anything. */
  ghost predicate HonestPuts(calls: seq<Call>, key: Key, i: nat, j: nat)
    requires j <= |calls|
  {
    forall k: nat :: i <= k < j ==> HonestPutAt(calls, key, k)
  }

  lemma AdvanceNext(calls: seq<Call>, key: Key, i: nat, j: nat)
    requires i < j <= |calls|
    ensures AdvanceWithin(calls, key, i, j) <==> AdvanceWithin(calls, key, i, j - 1) || Advances(calls[j - 1], key)
  {
  }

  /** What is cached either went strictly up or did not change at all. */
  ghost predicate Moved(before: Option<Clock>, after: Option<Clock>, raised: bool) {
    if raised then Lt(OrEmpty(before), OrEmpty(after)) else after == before
  }

  lemma MovedTwice(a: Option<Clock>, b: Option<Clock>, c: Option<Clock>, first: bool, second: bool)
    requires Moved(a, b, first) && Moved(b, c, second)
    ensures Moved(a, c, first || second)
  {
    if first && second { LeqTransitive(OrEmpty(a), OrEmpty(b), OrEmpty(c)); }
  }

  function CachedAt(calls: seq<Call>, key: Key, k: nat): Option<Clock>
    requires k <= |calls|
  {
    Cached(CacheAfter(calls, k), key)
  }

  /** What one more call of such a stretch does to the cache. */
  lemma PutCallMoves(calls: seq<Call>, key: Key, i: nat, k: nat)
    requires i <= k < |calls| && HonestPuts(calls, key, i, k + 1)
    ensures Moved(CachedAt(calls, key, k), CachedAt(calls, key, k + 1), Advances(calls[k], key))
  {
    assert HonestPutAt(calls, key, k);
    if calls[k].key == key { PutRaises(CacheAfter(calls, k), key, calls[k].putAnswer); }
  }

  /** Over any stretch of Puts on a key, with any failovers and refusals, the cached context is unchanged or strictly
      dominated, whatever came before and comes after. */
  lemma {:induction false} PutsKeepOrAdvance(calls: seq<Call>, key: Key, i: nat, j: nat)
    requires i <= j <= |calls| && HonestPuts(calls, key, i, j)
    ensures Moved(CachedAt(calls, key, i), CachedAt(calls, key, j), AdvanceWithin(calls, key, i, j))
    decreases j
  {
    if i < j {
      PutsKeepOrAdvance(calls, key, i, j - 1);
      AdvanceNext(calls, key, i, j);
      PutCallMoves(calls, key, i, j - 1);
      MovedTwice(CachedAt(calls, key, i), CachedAt(calls, key, j - 1), CachedAt(calls, key, j),
                 AdvanceWithin(calls, key, i, j - 1), Advances(calls[j - 1], key));
    }
  }

  /** The answer handed the client this clock. */
  predicate Gave(call: Call, clock: Clock) {
    match call
    case PutCall(_, answer) => answer.Some? && answer.value.context == clock
    case GetCall(_, answer) => answer.Some? && answer.value.found && answer.value.context == clock
  }

  /** What a client sends back for a key is a clock some earlier answer for that very key gave it. */
  lemma {:induction false} CachedClocksWereGiven(calls: seq<Call>, k: nat, key: Key)
    requires k <= |calls| && key in CacheAfter(calls, k)
    ensures exists i: nat :: i < k && calls[i].key == key && Gave(calls[i], CacheAfter(calls, k)[key])
    decreases k
  {
    var clock := CacheAfter(calls, k)[key];
    if !(calls[k - 1].key == key && Gave(calls[k - 1], clock)) {
      CachedClocksWereGiven(calls, k - 1, key);
    }
  }

  /** The answer is one the client remembers: a Put answer with counters, or a version found. */
  predicate Remembered(call: Call) {
    match call
    case PutCall(_, answer) => answer.Some? && answer.value.context.counters != map[]
    case GetCall(_, answer) => answer.Some? && answer.value.found
  }

  function ClockGiven(call: Call): Clock
    requires Remembered(call)
  {
    match call
    case PutCall(_, answer) => answer.value.context
    case GetCall(_, answer) => answer.value.context
  }

  /** Call `i` is the last one before `k` on the key whose answer is remembered. */
  predicate LastRemembered(calls: seq<Call>, k: nat, key: Key, i: nat)
    requires k <= |calls|
  {
    && i < k && calls[i].key == key && Remembered(calls[i])
    && forall j: nat :: i < j < k ==> calls[j].key != key || !Remembered(calls[j])
  }

  /** What is cached for a key is exactly the clock of the last remembered answer for it, from the very first one on. */
  lemma {:induction false} CacheIsLatest(calls: seq<Call>, k: nat, key: Key)
    requires k <= |calls|
    ensures key in CacheAfter(calls, k) <==> exists i: nat :: LastRemembered(calls, k, key, i)
    ensures forall i: nat :: LastRemembered(calls, k, key, i) ==> CachedAt(calls, key, k) == Some(ClockGiven(calls[i]))
    decreases k
  {
    if k > 0 {
      var before: nat := k - 1;
      CacheIsLatest(calls, before, key);
      if calls[before].key == key && Remembered(calls[before]) {
        assert LastRemembered(calls, k, key, before);
      } else {
        forall i: nat
          ensures LastRemembered(calls, k, key, i) <==> LastRemembered(calls, before, key, i)
        {
          assert i == before ==> !LastRemembered(calls, k, key, i);
        }
        assert CachedAt(calls, key, k) == CachedAt(calls, key, before);
        if i: nat :| LastRemembered(calls, before, key, i) { assert LastRemembered(calls, k, key, i); }
      }
    }
  }

  /** A Get of a key and then a Put of it: the Put is built on what the Get found, also when it is the first the client
      hears of the key. */
  lemma PutFollowsGet(calls: seq<Call>, key: Key, k: nat)
    requires k + 1 < |calls| && calls[k].GetCall? && calls[k].key == key && Remembered(calls[k])
    requires Advances(calls[k + 1], key) && HonestPutAt(calls, key, k + 1)
    ensures ContextOf(CacheAfter(calls, k + 1), key) == calls[k].getAnswer.value.context
    ensures Lt(calls[k].getAnswer.value.context, calls[k + 1].putAnswer.value.context)
  {
    PutRaises(CacheAfter(calls, k + 1), key, calls[k + 1].putAnswer);
  }
}
