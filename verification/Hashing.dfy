/** The 64-bit hash that places keys and nodes on the ring: FNV-1a (section 2 of IETF draft-eastlake-fnv) followed by a
    mixing step (ring.hpp). */
module Hashing {

  type Bytes = seq<bv8>

  // ---- the mixing step -----------------------------------------------------

  function Fold30(x: bv64): bv64 { x ^ (x >> 30) }
  function Fold27(x: bv64): bv64 { x ^ (x >> 27) }
  function Fold31(x: bv64): bv64 { x ^ (x >> 31) }
  function Scale1(x: bv64): bv64 { x * 0xbf58476d1ce4e5b9 }
  function Scale2(x: bv64): bv64 { x * 0x94d049bb133111eb }

  // Their inverses; the multipliers are odd, hence invertible modulo 2^64.
  function Unfold30(x: bv64): bv64 { x ^ (x >> 30) ^ (x >> 60) }
  function Unfold27(x: bv64): bv64 { x ^ (x >> 27) ^ (x >> 54) }
  function Unfold31(x: bv64): bv64 { x ^ (x >> 31) ^ (x >> 62) }
  function Unscale1(x: bv64): bv64 { x * 0x96de1b173f119089 }
  function Unscale2(x: bv64): bv64 { x * 0x319642b2d24d8ec3 }

  function Mix64(x: bv64): bv64 { Fold31(Scale2(Fold27(Scale1(Fold30(x))))) }

  function Unmix64(y: bv64): bv64 { Unfold30(Unscale1(Unfold27(Unscale2(Unfold31(y))))) }

  // The five assignments of the original, each on its own: together they are too much word arithmetic at once.

  method XorShift30(x: bv64) returns (y: bv64)
    ensures y == Fold30(x)
  {
    y := x ^ (x >> 30);
  }

  method Multiply1(x: bv64) returns (y: bv64)
    ensures y == Scale1(x)
  {
    y := x * 0xbf58476d1ce4e5b9;
  }

  method XorShift27(x: bv64) returns (y: bv64)
    ensures y == Fold27(x)
  {
    y := x ^ (x >> 27);
  }

  method Multiply2(x: bv64) returns (y: bv64)
    ensures y == Scale2(x)
  {
    y := x * 0x94d049bb133111eb;
  }

  method XorShift31(x: bv64) returns (y: bv64)
    ensures y == Fold31(x)
  {
    y := x ^ (x >> 31);
  }

  method ComputeMix64(x0: bv64) returns (x: bv64)
    ensures x == Mix64(x0)
  {
    x := XorShift30(x0);
    x := Multiply1(x);
    x := XorShift27(x);
    x := Multiply2(x);
    x := XorShift31(x);
  }

  lemma FoldsInvert(x: bv64)
    ensures Unfold30(Fold30(x)) == x && Fold30(Unfold30(x)) == x
    ensures Unfold27(Fold27(x)) == x && Fold27(Unfold27(x)) == x
    ensures Unfold31(Fold31(x)) == x && Fold31(Unfold31(x)) == x
  {
    Fold30Inverts(x);
    Fold27Inverts(x);
    Fold31Inverts(x);
  }

  lemma Fold30Inverts(x: bv64)
    ensures Unfold30(Fold30(x)) == x && Fold30(Unfold30(x)) == x
  {
    assert Unfold30(x ^ (x >> 30)) == x;
    assert Fold30(x ^ (x >> 30) ^ (x >> 60)) == x;
  }

  lemma Fold27Inverts(x: bv64)
    ensures Unfold27(Fold27(x)) == x && Fold27(Unfold27(x)) == x
  {
    assert Unfold27(x ^ (x >> 27)) == x;
    assert Fold27(x ^ (x >> 27) ^ (x >> 54)) == x;
  }

  lemma Fold31Inverts(x: bv64)
    ensures Unfold31(Fold31(x)) == x && Fold31(Unfold31(x)) == x
  {
    assert Unfold31(x ^ (x >> 31)) == x;
    assert Fold31(x ^ (x >> 31) ^ (x >> 62)) == x;
  }

  lemma Scale1Inverts(x: bv64)
    ensures Unscale1(Scale1(x)) == x && Scale1(Unscale1(x)) == x
  {
    assert Unscale1(x * 0xbf58476d1ce4e5b9) == x;
    assert Scale1(x * 0x96de1b173f119089) == x;
  }

  lemma Scale2Inverts(x: bv64)
    ensures Unscale2(Scale2(x)) == x && Scale2(Unscale2(x)) == x
  {
    assert Unscale2(x * 0x94d049bb133111eb) == x;
    assert Scale2(x * 0x319642b2d24d8ec3) == x;
  }

  /** Mixing is a bijection on 64-bit words. */
  lemma MixIsBijective(x: bv64)
    ensures Unmix64(Mix64(x)) == x
    ensures Mix64(Unmix64(x)) == x
  {
    var a := Scale1(Fold30(x));
    var b := Scale2(Fold27(a));
    FoldsInvert(b);
    Scale2Inverts(Fold27(a));
    FoldsInvert(a);
    Scale1Inverts(Fold30(x));
    FoldsInvert(x);
    var c := Unscale2(Unfold31(x));
    var d := Unscale1(Unfold27(c));
    FoldsInvert(d);
    Scale1Inverts(Unfold27(c));
    FoldsInvert(c);
    Scale2Inverts(Unfold31(x));
  }

  // ---- FNV-1a -----------------------------------------------------------------

  function Toggle(h: bv64, byte: bv8): bv64 { h ^ (byte as bv64) }
  function Prime(h: bv64): bv64 { h * 0x100000001b3 }

  function Fnv1a64(data: Bytes): bv64 {
    if data == [] then 0xcbf29ce484222325
    else Prime(Toggle(Fnv1a64(data[..|data| - 1]), data[|data| - 1]))
  }

  method ComputeFnv1a64(data: Bytes) returns (hash: bv64)
    ensures hash == Fnv1a64(data)
  {
    hash := 0xcbf29ce484222325;
    for i := 0 to |data|
      invariant hash == Fnv1a64(data[..i])
    {
      assert data[..i + 1][..i] == data[..i];
      ghost var before := hash;
      hash := hash ^ (data[i] as bv64);
      ghost var toggled := hash;
      assert toggled == Toggle(before, data[i]);
      hash := hash * 0x100000001b3;
      assert hash == Prime(toggled);
    }
    assert data[..|data|] == data;
  }

  function Unprime(h: bv64): bv64 { h * 0xce965057aff6957b }

  lemma PrimeInverts(h: bv64)
    ensures Unprime(Prime(h)) == h
  {
    assert Unprime(h * 0x100000001b3) == h;
  }

  lemma ToggleInjective(h: bv64, g: bv64, x: bv8, y: bv8)
    ensures Toggle(h, x) == Toggle(g, x) ==> h == g
    ensures Toggle(h, x) == Toggle(h, y) ==> x == y
  {
  }

  lemma UndoLast(a: Bytes, x: bv8)
    ensures Unprime(Fnv1a64(a + [x])) == Toggle(Fnv1a64(a), x)
  {
    assert (a + [x])[..|a|] == a;
    PrimeInverts(Toggle(Fnv1a64(a), x));
  }

  /** The last byte goes in before the multiplication: undoing it, two hashes differ exactly where the bytes do. */
  lemma LastByteGoesInFirst(a: Bytes, x: bv8, y: bv8)
    ensures Unprime(Fnv1a64(a + [x])) ^ Unprime(Fnv1a64(a + [y])) == (x ^ y) as bv64
  {
    UndoLast(a, x);
    UndoLast(a, y);
    TogglesDiffer(Fnv1a64(a), x, y);
  }

  lemma TogglesDiffer(h: bv64, x: bv8, y: bv8)
    ensures Toggle(h, x) ^ Toggle(h, y) == (x ^ y) as bv64
  {
  }

  /** The published value of the empty text and that of the text "a". */
  lemma PublishedHashes()
    ensures Fnv1a64([]) == 0xcbf29ce484222325
    ensures Fnv1a64([97]) == 0xaf63dc4c8601ec8c
  {
    assert [97 as bv8][..0] == [];
  }

  /** A value of the mixing step. */
  lemma MixedOne()
    ensures Mix64(1) == 0x5692161d100b05e5
  {
  }

  function Position(data: Bytes): bv64 { Mix64(Fnv1a64(data)) }

  ghost predicate DifferOnlyAt(a: Bytes, b: Bytes, k: nat) {
    && |a| == |b| && k < |a| && a[k] != b[k]
    && forall i :: 0 <= i < |a| && i != k ==> a[i] == b[i]
  }

  lemma {:induction false} FnvSeparates(a: Bytes, b: Bytes, k: nat)
    requires DifferOnlyAt(a, b, k)
    ensures Fnv1a64(a) != Fnv1a64(b)
  {
    var last := |a| - 1;
    var h, g := Fnv1a64(a[..last]), Fnv1a64(b[..last]);
    if k == last {
      assert a[..last] == b[..last];
      ToggleInjective(h, h, a[last], b[last]);
    } else {
      FnvSeparates(a[..last], b[..last], k);
      ToggleInjective(h, g, a[last], b[last]);
    }
    PrimeInverts(Toggle(h, a[last]));
    PrimeInverts(Toggle(g, b[last]));
  }

  /** Two strings of equal length that differ in exactly one byte never share a ring position. */
  lemma PositionSeparates(a: Bytes, b: Bytes, k: nat)
    requires DifferOnlyAt(a, b, k)
    ensures Position(a) != Position(b)
  {
    FnvSeparates(a, b, k);
    MixIsBijective(Fnv1a64(a));
    MixIsBijective(Fnv1a64(b));
  }

  // ---- a node's tokens -------------------------------------------------------------

  function DigitByte(d: nat): bv8
    requires d < 10
  {
    if d == 0 then 48 else if d == 1 then 49 else if d == 2 then 50 else if d == 3 then 51 else if d == 4 then 52
    else if d == 5 then 53 else if d == 6 then 54 else if d == 7 then 55 else if d == 8 then 56 else 57
  }

  function DecimalBytes(n: nat): Bytes {
    if n < 10 then [DigitByte(n)] else DecimalBytes(n / 10) + [DigitByte(n % 10)]
  }

  /** The text hashed for the `i`th token of a node: its name, a colon, the index in decimal. */
  function TokenText(id: Bytes, i: nat): Bytes { id + [58] + DecimalBytes(i) }

  /** The value of a decimal digit and of a text of them. */
  function DigitValue(b: bv8): nat {
    if b == 48 then 0 else if b == 49 then 1 else if b == 50 then 2 else if b == 51 then 3 else if b == 52 then 4
    else if b == 53 then 5 else if b == 54 then 6 else if b == 55 then 7 else if b == 56 then 8 else 9
  }

  function TextValue(data: Bytes): nat {
    if data == [] then 0 else 10 * TextValue(data[..|data| - 1]) + DigitValue(data[|data| - 1])
  }

  lemma DigitsMatch(d: nat)
    requires d < 10
    ensures DigitValue(DigitByte(d)) == d && 48 <= DigitByte(d) <= 57 && (DigitByte(d) == 48 <==> d == 0)
  {
  }

  /** The index is written in decimal, without a leading zero, after the name and a colon. */
  lemma {:induction false} IndexIsDecimal(n: nat)
    ensures DecimalBytes(n) != [] && TextValue(DecimalBytes(n)) == n
    ensures forall i :: 0 <= i < |DecimalBytes(n)| ==> 48 <= DecimalBytes(n)[i] <= 57
    ensures n > 0 ==> DecimalBytes(n)[0] != 48
  {
    DigitsMatch(n % 10);
    if n < 10 {
      var d := DecimalBytes(n);
      assert d[..0] == [];
    } else {
      IndexIsDecimal(n / 10);
      assert DecimalBytes(n)[..|DecimalBytes(n)| - 1] == DecimalBytes(n / 10);
    }
  }

  lemma TokenTextShape(id: Bytes, i: nat)
    ensures var text := TokenText(id, i);
            |text| > |id| + 1 && text[..|id|] == id && text[|id|] == 0x3a && TextValue(text[|id| + 1..]) == i
  {
    IndexIsDecimal(i);
    assert TokenText(id, i)[|id| + 1..] == DecimalBytes(i);
  }

  method ComputeTokens(id: Bytes, V: int) returns (tokens: seq<bv64>)
    ensures |tokens| == if V < 0 then 0 else V
    ensures forall i: nat :: i < |tokens| ==> tokens[i] == Position(TokenText(id, i))
  {
    tokens := [];
    var i := 0;
    while i < V
      invariant 0 <= i && i == |tokens| && (i <= V || i == 0)
      invariant forall j: nat :: j < |tokens| ==> tokens[j] == Position(TokenText(id, j))
    {
      var hash := ComputeFnv1a64(TokenText(id, i));
      var token := ComputeMix64(hash);
      tokens := tokens + [token];
      i := i + 1;
    }
  }

  /** Nodes whose names have equal length and differ in one byte never clash at the same token index. */
  lemma NeighboursDoNotClash(a: Bytes, b: Bytes, k: nat, i: nat)
    requires DifferOnlyAt(a, b, k)
    ensures Position(TokenText(a, i)) != Position(TokenText(b, i))
  {
    PositionSeparates(TokenText(a, i), TokenText(b, i), k);
  }

  lemma SiblingDigits(i: nat, j: nat)
    requires i / 10 == j / 10 && i != j
    ensures DifferOnlyAt(DecimalBytes(i), DecimalBytes(j), |DecimalBytes(i)| - 1)
  {
    assert i % 10 != j % 10 && DigitByte(i % 10) != DigitByte(j % 10);
  }

  /** A node's tokens whose indices share all but the last digit are distinct. */
  lemma SiblingTokensDiffer(id: Bytes, i: nat, j: nat)
    requires i / 10 == j / 10 && i != j
    ensures Position(TokenText(id, i)) != Position(TokenText(id, j))
  {
    SiblingDigits(i, j);
    PositionSeparates(TokenText(id, i), TokenText(id, j), |TokenText(id, i)| - 1);
  }
}
