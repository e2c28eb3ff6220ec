/**
 * Strict total orders, sorted and duplicate-free sequences, and the union of
 * two pandas indexes as `pd.Index.union` computes it with its default
 * `sort=None`: an operand is returned unchanged when the other is empty or
 * equal to it, and otherwise the result is the sorted, deduplicated union.
 */
module Ordering {

  ghost predicate StrictTotalOrder<T(!new)>(lt: (T, T) -> bool) {
    && (forall x :: !lt(x, x))
    && (forall x, y, z :: lt(x, y) && lt(y, z) ==> lt(x, z))
    && (forall x, y :: x != y ==> lt(x, y) || lt(y, x))
  }

  predicate StrictlySorted<T>(s: seq<T>, lt: (T, T) -> bool) {
    forall i, j :: 0 <= i < j < |s| ==> lt(s[i], s[j])
  }

  predicate Distinct<T(==)>(s: seq<T>) {
    forall i, j :: 0 <= i < j < |s| ==> s[i] != s[j]
  }

  /** Position of the first occurrence of `x` in `s`, or `|s|` when absent. */
  function IndexOf<T(==)>(s: seq<T>, x: T): (r: nat)
    ensures r <= |s|
    ensures r < |s| <==> x in s
    ensures r < |s| ==> s[r] == x
    ensures forall k :: 0 <= k < r ==> s[k] != x
  {
    if s == [] then 0 else if s[0] == x then 0 else 1 + IndexOf(s[1..], x)
  }

  lemma IndexOfDistinct<T>(s: seq<T>, i: nat)
    requires Distinct(s) && i < |s|
    ensures IndexOf(s, s[i]) == i
  {
  }

  lemma SortedIsDistinct<T(!new)>(s: seq<T>, lt: (T, T) -> bool)
    requires StrictTotalOrder(lt) && StrictlySorted(s, lt)
    ensures Distinct(s)
  {
    forall i, j | 0 <= i < j < |s| ensures s[i] != s[j] {
      assert lt(s[i], s[j]);
    }
  }

  /** Inserts `x` into a strictly sorted sequence, keeping it strictly sorted. */
  function Insert<T(==,!new)>(x: T, s: seq<T>, lt: (T, T) -> bool): (r: seq<T>)
    requires StrictTotalOrder(lt) && StrictlySorted(s, lt)
    ensures StrictlySorted(r, lt)
    ensures forall y :: y in r <==> y == x || y in s
    decreases |s|
  {
    if s == [] then [x]
    else if x == s[0] then s
    else if lt(x, s[0]) then
      assert forall j :: 0 <= j < |s| ==> lt(x, s[j]) by {
        forall j | 0 <= j < |s| ensures lt(x, s[j]) {
          if j > 0 { assert lt(s[0], s[j]); }
        }
      }
      [x] + s
    else
      var rest := Insert(x, s[1..], lt);
      assert lt(s[0], x);
      assert forall y :: y in rest ==> lt(s[0], y) by {
        forall y | y in rest ensures lt(s[0], y) {
          if y != x {
            var j :| 0 <= j < |s[1..]| && s[1..][j] == y;
            assert s[j + 1] == y;
          }
        }
      }
      [s[0]] + rest
  }

  /** Inserts every element of `xs`, in order, into the sorted `s`. */
  function InsertAll<T(==,!new)>(xs: seq<T>, s: seq<T>, lt: (T, T) -> bool): (r: seq<T>)
    requires StrictTotalOrder(lt) && StrictlySorted(s, lt)
    ensures StrictlySorted(r, lt)
    ensures forall y :: y in r <==> y in xs || y in s
    decreases |xs|
  {
    if xs == [] then s
    else
      var r := InsertAll(xs[1..], Insert(xs[0], s, lt), lt);
      assert forall y :: y in xs <==> y == xs[0] || y in xs[1..] by {
        assert xs == [xs[0]] + xs[1..];
      }
      r
  }

  /** The sorted, duplicate-free union of two sequences. */
  function SortedUnion<T(==,!new)>(a: seq<T>, b: seq<T>, lt: (T, T) -> bool): (r: seq<T>)
    requires StrictTotalOrder(lt)
    ensures StrictlySorted(r, lt)
    ensures forall y :: y in r <==> y in a || y in b
  {
    InsertAll(b, InsertAll(a, [], lt), lt)
  }

  /**
   * `pd.Index(a).union(b)` with the default `sort=None`: `a` itself when `b`
   * is empty or equal to `a`, `b` when `a` is empty, the sorted union otherwise.
   */
  function IndexUnion<T(==,!new)>(a: seq<T>, b: seq<T>, lt: (T, T) -> bool): (r: seq<T>)
    requires StrictTotalOrder(lt)
    ensures forall y :: y in r <==> y in a || y in b
    ensures Distinct(a) && Distinct(b) ==> Distinct(r)
    ensures a != [] && b != [] && a != b ==> StrictlySorted(r, lt)
    ensures b == [] || a == b ==> r == a
    ensures a == [] && b != [] ==> r == b
  {
    if b == [] || a == b then a
    else if a == [] then b
    else
      var r := SortedUnion(a, b, lt);
      SortedIsDistinct(r, lt);
      r
  }

  /** Two strictly sorted sequences with the same elements are equal. */
  lemma {:induction false} SortedUnique<T(!new)>(a: seq<T>, b: seq<T>, lt: (T, T) -> bool)
    requires StrictTotalOrder(lt) && StrictlySorted(a, lt) && StrictlySorted(b, lt)
    requires forall x :: x in a <==> x in b
    ensures a == b
    decreases |a|
  {
    if a != [] {
      assert a[0] in a;
      assert b != [];
      assert b[0] in b;
      forall x ensures x in a[1..] <==> x in b[1..] {
        if x in a[1..] {
          var i :| 0 <= i < |a[1..]| && a[1..][i] == x;
          assert lt(a[0], a[i + 1]);
          assert x in b;
          var j :| 0 <= j < |b| && b[j] == x;
          assert j != 0;
          assert b[1..][j - 1] == x;
        }
        if x in b[1..] {
          var j :| 0 <= j < |b[1..]| && b[1..][j] == x;
          assert lt(b[0], b[j + 1]);
          assert x in a;
          var i :| 0 <= i < |a| && a[i] == x;
          assert i != 0;
          assert a[1..][i - 1] == x;
        }
      }
      SortedUnique(a[1..], b[1..], lt);
      assert a == [a[0]] + a[1..];
      assert b == [b[0]] + b[1..];
    }
  }

  /** A sorted union does not depend on which operand comes first. */
  lemma SortedUnionSymmetric<T(!new)>(a: seq<T>, b: seq<T>, lt: (T, T) -> bool)
    requires StrictTotalOrder(lt)
    ensures SortedUnion(a, b, lt) == SortedUnion(b, a, lt)
  {
    SortedUnique(SortedUnion(a, b, lt), SortedUnion(b, a, lt), lt);
  }

  /** `pd.Index.union` gives the same index whichever operand is the receiver. */
  lemma IndexUnionSymmetric<T(!new)>(a: seq<T>, b: seq<T>, lt: (T, T) -> bool)
    requires StrictTotalOrder(lt)
    ensures IndexUnion(a, b, lt) == IndexUnion(b, a, lt)
  {
    if a != [] && b != [] && a != b {
      SortedUnionSymmetric(a, b, lt);
    }
  }

  /** On sorted operands the union is sorted on every path, not only the sorting one. */
  lemma IndexUnionOfSorted<T(!new)>(a: seq<T>, b: seq<T>, lt: (T, T) -> bool)
    requires StrictTotalOrder(lt) && StrictlySorted(a, lt) && StrictlySorted(b, lt)
    ensures StrictlySorted(IndexUnion(a, b, lt), lt)
    ensures IndexUnion(a, b, lt) == SortedUnion(a, b, lt)
  {
    SortedUnique(IndexUnion(a, b, lt), SortedUnion(a, b, lt), lt);
  }

  /** Python's `<` on `str`: lexicographic by code point, a proper prefix first. */
  predicate StrLt(a: string, b: string)
    decreases |a|
  {
    if b == [] then false
    else if a == [] then true
    else if a[0] != b[0] then a[0] < b[0]
    else StrLt(a[1..], b[1..])
  }

  lemma {:induction false} StrLtIrreflexive(a: string)
    ensures !StrLt(a, a)
    decreases |a|
  {
    if a != [] {
      StrLtIrreflexive(a[1..]);
    }
  }

  lemma {:induction false} StrLtTransitive(a: string, b: string, c: string)
    requires StrLt(a, b) && StrLt(b, c)
    ensures StrLt(a, c)
    decreases |a|
  {
    if a != [] && a[0] == b[0] && b[0] == c[0] {
      StrLtTransitive(a[1..], b[1..], c[1..]);
    }
  }

  lemma {:induction false} StrLtTotal(a: string, b: string)
    requires a != b
    ensures StrLt(a, b) || StrLt(b, a)
    decreases |a|
  {
    if a != [] && b != [] && a[0] == b[0] {
      assert a == [a[0]] + a[1..];
      assert b == [b[0]] + b[1..];
      StrLtTotal(a[1..], b[1..]);
    }
  }

  lemma StrLtIsStrictTotalOrder()
    ensures StrictTotalOrder(StrLt)
  {
    forall a ensures !StrLt(a, a) {
      StrLtIrreflexive(a);
    }
    forall a, b, c | StrLt(a, b) && StrLt(b, c) ensures StrLt(a, c) {
      StrLtTransitive(a, b, c);
    }
    forall a, b | a != b ensures StrLt(a, b) || StrLt(b, a) {
      StrLtTotal(a, b);
    }
  }
}
