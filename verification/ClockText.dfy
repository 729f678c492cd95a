/** The text form of a clock's counters, printed and parsed by the command-line client (client.cpp). */
module ClockText {
  import opened Basics
  import opened VectorClocks

  type Counters = map<NodeId, Counter>

  // Rejected, or a counter too large for a 64-bit word (the conversion throws), or parsed.
  datatype ParseResult = Malformed | OutOfRange | Parsed(counters: Counters)

  // ---- decimal numbers --------------------------------------------------------

  predicate IsDigit(c: char) { '0' <= c <= '9' }

  predicate AllDigits(s: string) { forall i :: 0 <= i < |s| ==> IsDigit(s[i]) }

  function DigitChar(d: nat): char
    requires d < 10
  {
    ('0' as int + d) as char
  }

  function Decimal(n: nat): string {
    if n < 10 then [DigitChar(n)] else Decimal(n / 10) + [DigitChar(n % 10)]
  }

  function Value(s: string): nat
    requires AllDigits(s)
  {
    if s == [] then 0 else 10 * Value(s[..|s| - 1]) + (s[|s| - 1] as int - '0' as int)
  }

  lemma {:induction false} DecimalRoundTrip(n: nat)
    ensures Decimal(n) != [] && AllDigits(Decimal(n))
    ensures Value(Decimal(n)) == n
  {
    if n < 10 {
      var s := Decimal(n);
      assert s[..0] == [];
    } else {
      DecimalRoundTrip(n / 10);
      assert Decimal(n)[..|Decimal(n)| - 1] == Decimal(n / 10);
    }
  }

  // ---- printing -------------------------------------------------------------------

  // One printed entry: a node and its counter.
  datatype Item = Item(id: NodeId, count: Counter)

  function Render(e: Item): string { e.id + ":" + Decimal(e.count) }

  function Join(es: seq<Item>): string {
    if es == [] then ""
    else if |es| == 1 then Render(es[0])
    else Render(es[0]) + "," + Join(es[1..])
  }

  lemma {:induction false} JoinAppend(es: seq<Item>, e: Item)
    requires es != []
    ensures Join(es + [e]) == Join(es) + "," + Render(e)
  {
    if |es| == 1 {
      assert (es + [e])[1..] == [e];
    } else {
      JoinAppend(es[1..], e);
      assert (es + [e])[1..] == es[1..] + [e];
    }
  }

  ghost predicate AscendingIds(es: seq<Item>) {
    forall i, j :: 0 <= i < j < |es| ==> StringLess(es[i].id, es[j].id)
  }

  /** `es` lists the counters in the order the printer sorts them. */
  ghost predicate Lists(es: seq<Item>, c: Counters) {
    && AscendingIds(es)
    && (forall i :: 0 <= i < |es| ==> es[i].id in c && c[es[i].id] == es[i].count)
    && (forall n :: n in c ==> exists i :: 0 <= i < |es| && es[i].id == n)
  }

  lemma {:induction false} LeastNameExists(s: set<NodeId>) returns (n: NodeId)
    requires s != {}
    ensures n in s && forall m :: m in s && m != n ==> StringLess(n, m)
  {
    var c :| c in s;
    if s - {c} == {} {
      assert s == {c};
      n := c;
    } else {
      var rest := LeastNameExists(s - {c});
      StringLessTotal(rest, c);
      n := if StringLess(rest, c) then rest else c;
      forall m | m in s && m != n
        ensures StringLess(n, m)
      {
        if n == c && m != rest { StringLessTransitive(c, rest, m); }
        assert m == c || m in s - {c};
      }
    }
  }

  method LeastName(s: set<NodeId>) returns (n: NodeId)
    requires s != {}
    ensures n in s && forall m :: m in s && m != n ==> StringLess(n, m)
  {
    var todo := s;
    n :| n in s;
    todo := todo - {n};
    while todo != {}
      invariant n in s && n !in todo && forall m :: m in todo ==> m in s
      invariant forall m :: m in s && m != n && m !in todo ==> StringLess(n, m)
      decreases todo
    {
      var m :| m in todo;
      StringLessTotal(n, m);
      if StringLess(m, n) {
        forall k | k in s && k != m && k !in todo - {m}
          ensures StringLess(m, k)
        {
          if k != n { StringLessTransitive(m, n, k); }
        }
        n := m;
      }
      todo := todo - {m};
    }
  }

  /** Sorted by node name. */
  method SortedItems(c: Counters) returns (es: seq<Item>)
    ensures Lists(es, c)
  {
    es := [];
    var todo := c.Keys;
    while todo != {}
      invariant forall n :: n in todo ==> n in c
      invariant AscendingIds(es)
      invariant forall i, n :: 0 <= i < |es| && n in todo ==> StringLess(es[i].id, n)
      invariant forall i :: 0 <= i < |es| ==> es[i].id in c && c[es[i].id] == es[i].count
      invariant forall n :: n in c && n !in todo ==> exists i :: 0 <= i < |es| && es[i].id == n
      decreases todo
    {
      var n := LeastName(todo);
      ghost var before := es;
      es := es + [Item(n, c[n])];
      todo := todo - {n};
      forall m | m in c && m !in todo
        ensures exists i :: 0 <= i < |es| && es[i].id == m
      {
        if m == n {
          assert es[|before|].id == m;
        } else {
          var i :| 0 <= i < |before| && before[i].id == m;
          assert es[i].id == m;
        }
      }
    }
  }

  lemma AscendingRest(es: seq<Item>)
    requires AscendingIds(es) && es != []
    ensures AscendingIds(es[1..])
    ensures forall e :: e in es[1..] <==> e in es && e != es[0]
  {
    assert es == [es[0]] + es[1..];
    forall e | e in es[1..]
      ensures e != es[0]
    {
      StringLessTotal(es[0].id, es[0].id);
    }
  }

  lemma {:induction false} SameItems(es: seq<Item>, fs: seq<Item>)
    requires AscendingIds(es) && AscendingIds(fs) && forall e :: e in es <==> e in fs
    ensures es == fs
  {
    assert es != [] ==> es[0] in fs;
    assert fs != [] ==> fs[0] in es;
    if es != [] {
      StringLessTotal(es[0].id, fs[0].id);
      AscendingRest(es);
      AscendingRest(fs);
      assert es[0] == fs[0];
      SameItems(es[1..], fs[1..]);
    }
  }

  /** A clock has one listing, so what is printed does not depend on the order the map is visited in. */
  lemma ListingUnique(es: seq<Item>, fs: seq<Item>, c: Counters)
    requires Lists(es, c) && Lists(fs, c)
    ensures es == fs
  {
    forall e
      ensures e in es <==> e in fs
    {
      ListedIff(es, c, e);
      ListedIff(fs, c, e);
    }
    SameItems(es, fs);
  }

  lemma ListedIff(es: seq<Item>, c: Counters, e: Item)
    requires Lists(es, c)
    ensures e in es <==> e.id in c && c[e.id] == e.count
  {
    if e.id in c && c[e.id] == e.count {
      var i :| 0 <= i < |es| && es[i].id == e.id;
      assert es[i] == e;
    }
  }

  method ClockToString(c: Counters) returns (out: string)
    ensures exists es :: Lists(es, c) && out == Join(es)
  {
    var entries := SortedItems(c);
    out := "";
    for i := 0 to |entries|
      invariant out == Join(entries[..i])
    {
      assert entries[..i + 1] == entries[..i] + [entries[i]];
      if i > 0 {
        JoinAppend(entries[..i], entries[i]);
        out := out + ",";
      }
      out := out + Render(entries[i]);
    }
    assert entries[..|entries|] == entries;
  }

  // ---- parsing ---------------------------------------------------------------------

  /** Position of the first `c`, or the length when there is none. */
  function Find(s: string, c: char): (at: nat)
    ensures at <= |s|
    ensures forall i :: 0 <= i < at ==> s[i] != c
    ensures at < |s| ==> s[at] == c
  {
    if s == [] then 0 else if s[0] == c then 0 else 1 + Find(s[1..], c)
  }

  lemma FindIs(s: string, c: char, at: nat)
    requires at <= |s| && (forall i :: 0 <= i < at ==> s[i] != c) && (at < |s| ==> s[at] == c)
    ensures Find(s, c) == at
  {
  }

  datatype PairResult = BadPair | TooLarge | Pair(id: NodeId, count: Counter)

  function ParsePair(s: string): PairResult {
    var colon := Find(s, ':');
    if colon == |s| || colon == 0 || colon == |s| - 1 then BadPair
    else
      var digits := s[colon + 1..];
      if !AllDigits(digits) then BadPair
      else if Value(digits) >= COUNTER_LIMIT then TooLarge
      else Pair(s[..colon], Value(digits))
  }

  function ParseFrom(remaining: string, so_far: Counters): ParseResult
    decreases |remaining|
  {
    if remaining == [] then Parsed(so_far)
    else
      var comma := Find(remaining, ',');
      match ParsePair(remaining[..comma])
      case BadPair => Malformed
      case TooLarge => OutOfRange
      case Pair(id, count) =>
        var next := so_far[id := count];
        if comma == |remaining| then Parsed(next) else ParseFrom(remaining[comma + 1..], next)
  }

  method ParseClockArg(raw: string) returns (r: ParseResult)
    ensures r == ParseFrom(raw, map[])
  {
    var counters: Counters := map[];
    var remaining := raw;
    while remaining != []
      invariant ParseFrom(raw, map[]) == ParseFrom(remaining, counters)
      decreases |remaining|
    {
      var comma := Find(remaining, ',');
      var pairStr := remaining[..comma];
      var colon := Find(pairStr, ':');
      if colon == |pairStr| || colon == 0 || colon == |pairStr| - 1 {
        return Malformed;
      }
      var nodeId := pairStr[..colon];
      var countStr := pairStr[colon + 1..];
      if !AllDigits(countStr) {
        return Malformed;
      }
      if Value(countStr) >= COUNTER_LIMIT {
        return OutOfRange;
      }
      counters := counters[nodeId := Value(countStr)];
      if comma == |remaining| {
        return Parsed(counters);
      }
      remaining := remaining[comma + 1..];
    }
    r := Parsed(counters);
  }

  /** A pair is accepted exactly when it is a nonempty name without a colon, a colon, and decimal digits. */
  lemma ParsePairExact(s: string, id: NodeId, count: Counter)
    ensures ParsePair(s) == Pair(id, count) <==>
              id != [] && ':' !in id &&
              exists digits: string :: digits != [] && AllDigits(digits) && Value(digits) == count
                  && s == id + ":" + digits
  {
    var colon := Find(s, ':');
    if ParsePair(s) == Pair(id, count) {
      var digits := s[colon + 1..];
      assert s == s[..colon] + ":" + digits;
    }
    if id != [] && ':' !in id {
      if digits: string :|
          digits != [] && AllDigits(digits) && Value(digits) == count && s == id + ":" + digits {
        FindIs(s, ':', |id|);
        assert s[..|id|] == id && s[|id| + 1..] == digits;
      }
    }
  }

  /** It is out of range exactly when it has that shape and the number does not fit. */
  lemma ParsePairTooLarge(s: string)
    ensures ParsePair(s) == TooLarge <==>
              exists id: NodeId, digits: string {:trigger id + ":" + digits} ::
                && id != [] && ':' !in id && digits != [] && AllDigits(digits) && Value(digits) >= COUNTER_LIMIT
                && s == id + ":" + digits
  {
    var colon := Find(s, ':');
    if ParsePair(s) == TooLarge {
      assert s == s[..colon] + ":" + s[colon + 1..];
    }
    if id: NodeId, digits: string {:trigger id + ":" + digits} :|
        && id != [] && ':' !in id && digits != [] && AllDigits(digits) && Value(digits) >= COUNTER_LIMIT
        && s == id + ":" + digits {
      FindIs(s, ':', |id|);
      assert s[..|id|] == id && s[|id| + 1..] == digits;
    }
  }

  /** The text is taken apart at its commas, from the left, a later pair for the same name replacing an earlier one; a
      comma at the very end is harmless. */
  lemma ParsePieces(piece: string, rest: string, so_far: Counters)
    requires ',' !in piece
    ensures ParseFrom([], so_far) == Parsed(so_far)
    ensures ParsePair(piece).Pair? ==>
              && ParseFrom(piece, so_far) == Parsed(so_far[ParsePair(piece).id := ParsePair(piece).count])
              && ParseFrom(piece + "," + rest, so_far) ==
                   ParseFrom(rest, so_far[ParsePair(piece).id := ParsePair(piece).count])
    ensures ParsePair(piece).BadPair? ==>
              && ParseFrom(piece + "," + rest, so_far) == Malformed
              && (piece != [] ==> ParseFrom(piece, so_far) == Malformed)
    ensures ParsePair(piece).TooLarge? ==>
              ParseFrom(piece + "," + rest, so_far) == ParseFrom(piece, so_far) == OutOfRange
  {
    var text := piece + "," + rest;
    FindIs(text, ',', |piece|);
    FindIs(piece, ',', |piece|);
    assert text[..|piece|] == piece && text[|piece| + 1..] == rest && piece[..|piece|] == piece;
  }

  /** The separators as they are printed. */
  lemma PrintedExample()
    ensures Join([Item("a", 1), Item("b", 20)]) == "a:1,b:20"
  {
    var es := [Item("a", 1), Item("b", 20)];
    assert es[1..] == [Item("b", 20)];
    assert Decimal(20) == Decimal(2) + "0" && Decimal(2) == "2" && Decimal(1) == "1";
    assert Render(es[0]) == "a:1" && Render(es[1]) == "b:20";
  }

  // ---- the round trip ----------------------------------------------------------------

  predicate Plain(id: NodeId) { id != [] && ':' !in id && ',' !in id }

  predicate AllPlain(c: Counters) { forall n :: n in c ==> Plain(n) }

  lemma RenderShape(e: Item)
    ensures var s := Render(e);
            && |s| >= |e.id| + 2 && s[..|e.id|] == e.id && s[|e.id|] == ':' && s[|e.id| + 1..] == Decimal(e.count)
            && AllDigits(s[|e.id| + 1..])
            && (',' in s <==> ',' in e.id)
  {
    DecimalRoundTrip(e.count);
    var s := Render(e);
    assert s[|e.id| + 1..] == Decimal(e.count);
    assert s == e.id + [':'] + Decimal(e.count);
    forall i | 0 <= i < |Decimal(e.count)| ensures Decimal(e.count)[i] != ',' { assert IsDigit(Decimal(e.count)[i]); }
  }

  /** A pair whose name is plain parses back; one whose name is empty or has a colon is rejected. */
  lemma ParseRendered(e: Item)
    ensures Plain(e.id) ==> ParsePair(Render(e)) == Pair(e.id, e.count)
    ensures e.id == [] || ':' in e.id ==> ParsePair(Render(e)) == BadPair
  {
    RenderShape(e);
    DecimalRoundTrip(e.count);
    var s := Render(e);
    var colon := Find(s, ':');
    if Plain(e.id) {
      FindIs(s, ':', |e.id|);
    } else if ':' in e.id {
      var j :| 0 <= j < |e.id| && e.id[j] == ':';
      assert s[j] == ':';
      assert colon <= j;
      assert s[colon + 1..][|e.id| - colon - 1] == s[|e.id|];
      assert !IsDigit(s[colon + 1..][|e.id| - colon - 1]);
    }
  }

  function Items(es: seq<Item>, so_far: Counters): Counters {
    if es == [] then so_far else Items(es[1..], so_far[es[0].id := es[0].count])
  }

  /** Parsing what was printed, item by item. */
  lemma {:induction false} ParseJoined(es: seq<Item>, so_far: Counters)
    requires forall i :: 0 <= i < |es| ==> ',' !in es[i].id
    ensures (forall i :: 0 <= i < |es| ==> Plain(es[i].id)) ==> ParseFrom(Join(es), so_far) == Parsed(Items(es, so_far))
    ensures (exists i :: 0 <= i < |es| && !Plain(es[i].id)) ==> ParseFrom(Join(es), so_far) == Malformed
    decreases |es|
  {
    if es != [] {
      var e := es[0];
      var text, first := Join(es), Render(e);
      RenderShape(e);
      ParseRendered(e);
      assert text[..|first|] == first;
      FindIs(text, ',', |first|);
      if Plain(e.id) {
        if |es| > 1 {
          assert text[|first| + 1..] == Join(es[1..]);
          ParseJoined(es[1..], so_far[e.id := e.count]);
        } else {
          assert es[1..] == [];
        }
        assert forall i :: 1 <= i < |es| ==> es[i] == es[1..][i - 1];
      }
    }
  }

  lemma {:induction false} ItemsMeaning(es: seq<Item>, so_far: Counters)
    requires forall i, j :: 0 <= i < j < |es| ==> es[i].id != es[j].id
    ensures forall n :: n in Items(es, so_far) <==> n in so_far || exists i :: 0 <= i < |es| && es[i].id == n
    ensures forall i :: 0 <= i < |es| ==> es[i].id in Items(es, so_far) && Items(es, so_far)[es[i].id] == es[i].count
    ensures forall n :: n in so_far && (forall i :: 0 <= i < |es| ==> es[i].id != n) ==>
              n in Items(es, so_far) && Items(es, so_far)[n] == so_far[n]
    decreases |es|
  {
    if es != [] {
      var rest, next := es[1..], so_far[es[0].id := es[0].count];
      assert forall i :: 0 < i < |es| ==> es[i] == rest[i - 1];
      assert forall i :: 0 <= i < |rest| ==> rest[i] == es[i + 1];
      ItemsMeaning(rest, next);
      assert es[0].id in next && Items(rest, next)[es[0].id] == es[0].count;
    }
  }

  /** Listing a clock and reading the list back into an empty clock loses nothing. */
  lemma ListedItems(es: seq<Item>, c: Counters, empty: Counters)
    requires Lists(es, c) && empty == map[]
    ensures Items(es, empty) == c
  {
    forall i, j | 0 <= i < j < |es|
      ensures es[i].id != es[j].id
    {
      StringLessTotal(es[i].id, es[j].id);
    }
    ItemsMeaning(es, empty);
    var m := Items(es, empty);
    forall n | n in m
      ensures n in c && m[n] == c[n]
    {
      var i :| 0 <= i < |es| && es[i].id == n;
    }
    assert m.Keys == c.Keys;
  }

  lemma ListedPlain(es: seq<Item>, c: Counters)
    requires Lists(es, c)
    ensures AllPlain(c) <==> forall i :: 0 <= i < |es| ==> Plain(es[i].id)
  {
  }

  /** Whatever text is parsed, the names that come out are plain. */
  lemma {:induction false} ParsedIdsPlain(text: string, so_far: Counters)
    requires AllPlain(so_far)
    ensures var r := ParseFrom(text, so_far); r.Parsed? ==> AllPlain(r.counters)
    decreases |text|
  {
    if text != [] {
      var comma := Find(text, ',');
      var pair := text[..comma];
      var colon := Find(pair, ':');
      if ParsePair(pair).Pair? {
        assert Plain(pair[..colon]);
        if comma < |text| {
          ParsedIdsPlain(text[comma + 1..], so_far[pair[..colon] := ParsePair(pair).count]);
        }
      }
    }
  }

  /** Printing and parsing give back exactly the same counters if and only if every node name is nonempty and free of
      the two separators. */
  lemma RoundTrip(c: Counters, es: seq<Item>)
    requires Lists(es, c)
    ensures ParseFrom(Join(es), map[]) == Parsed(c) <==> AllPlain(c)
  {
    var empty: Counters := map[];
    ListedPlain(es, c);
    ParsedIdsPlain(Join(es), empty);
    if AllPlain(c) {
      ListedItems(es, c, empty);
      ParseJoined(es, empty);
    }
  }

  /** Without commas in the names, a name that is empty or contains a colon makes the text rejected outright, never read
      as a different clock. */
  lemma ColonIsRejected(c: Counters, es: seq<Item>)
    requires Lists(es, c) && forall n :: n in c ==> ',' !in n
    ensures ParseFrom(Join(es), map[]) == Malformed <==> !AllPlain(c)
  {
    ListedPlain(es, c);
    ParseJoined(es, map[]);
  }
}
