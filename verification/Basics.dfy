/** Names, optional values, and the timestamp order shared by every layer of the store. */
module Basics {

  // A node is named by its listen address; a key is an arbitrary string.
  type NodeId = string
  type Key = string

  datatype Option<+T> = None | Some(value: T)

  /** Lexicographic order on strings, as `std::string::operator<` computes it. */
  predicate StringLess(a: string, b: string) {
    if b == [] then false
    else if a == [] then true
    else if a[0] != b[0] then a[0] < b[0]
    else StringLess(a[1..], b[1..])
  }

  lemma {:induction false} StringLessTotal(a: string, b: string)
    ensures StringLess(a, b) || StringLess(b, a) || a == b
    ensures !(StringLess(a, b) && StringLess(b, a))
    ensures !StringLess(a, a)
  {
    if a != [] && b != [] && a[0] == b[0] {
      StringLessTotal(a[1..], b[1..]);
      assert a == [a[0]] + a[1..] && b == [b[0]] + b[1..];
    }
    if a != [] {
      StringLessTotal(a[1..], a[1..]);
    }
  }

  lemma {:induction false} StringLessTransitive(a: string, b: string, c: string)
    requires StringLess(a, b) && StringLess(b, c)
    ensures StringLess(a, c)
  {
    if a != [] && a[0] == b[0] == c[0] {
      StringLessTransitive(a[1..], b[1..], c[1..]);
    }
  }

  /** The two agree before position `k`, and there `a` has the smaller character. */
  predicate SmallerAt(a: string, b: string, k: nat) {
    k < |a| && k < |b| && a[..k] == b[..k] && a[k] < b[k]
  }

  /** Dictionary order: a proper prefix comes first, otherwise the smaller character at the first difference decides. */
  lemma {:induction false} StringLessExact(a: string, b: string)
    ensures StringLess(a, b) <==> (|a| < |b| && a == b[..|a|]) || exists k: nat :: SmallerAt(a, b, k)
  {
    if a != [] && b != [] {
      var x, y := a[1..], b[1..];
      if a[0] == b[0] {
        StringLessExact(x, y);
        assert a == [a[0]] + x && b == [b[0]] + y;
        if k: nat :| SmallerAt(x, y, k) {
          assert a[..k + 1] == [a[0]] + x[..k] && b[..k + 1] == [b[0]] + y[..k];
          assert SmallerAt(a, b, k + 1);
        }
        if k: nat :| SmallerAt(a, b, k) {
          assert k > 0 && x[..k - 1] == a[..k][1..] && y[..k - 1] == b[..k][1..];
          assert SmallerAt(x, y, k - 1);
        }
        assert |a| < |b| ==> (a == b[..|a|] <==> x == y[..|x|]) by {
          if |a| < |b| { assert b[..|a|] == [b[0]] + y[..|x|]; }
        }
      } else {
        assert a[..0] == b[..0];
        assert a[0] < b[0] ==> SmallerAt(a, b, 0);
      }
    }
  }

  /** The last-writer-wins stamp: wall-clock milliseconds, then the writer's name. */
  datatype Stamp = Stamp(lastUpdated: int, writerId: NodeId)

  predicate Newer(a: Stamp, b: Stamp) {
    || a.lastUpdated > b.lastUpdated
    || (a.lastUpdated == b.lastUpdated && StringLess(b.writerId, a.writerId))
  }

  lemma NewerTotal(a: Stamp, b: Stamp)
    ensures Newer(a, b) || Newer(b, a) || a == b
    ensures !(Newer(a, b) && Newer(b, a))
    ensures !Newer(a, a)
  {
    StringLessTotal(a.writerId, b.writerId);
    StringLessTotal(a.writerId, a.writerId);
  }

  lemma NewerTransitive(a: Stamp, b: Stamp, c: Stamp)
    requires Newer(a, b) && Newer(b, c)
    ensures Newer(a, c)
  {
    if a.lastUpdated == b.lastUpdated == c.lastUpdated {
      StringLessTransitive(c.writerId, b.writerId, a.writerId);
    }
  }
}
