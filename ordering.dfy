/**
  Python's `sorted(set(xs))`: the distinct values of a column in ascending order,
  for any strict total order. Strings use Python's default order (code point by
  code point, a proper prefix first), which is case-sensitive.
 */
module Ordering {
  import opened Seqs

  /** `a < b` on Python strings. */
  predicate Below(a: string, b: string)
  {
    BelowFrom(a, b, 0)
  }

  /** `a[k:] < b[k:]`: at the first position from `k` where the strings differ, `a`
      has the smaller character or has ended. */
  predicate BelowFrom(a: string, b: string, k: nat)
    decreases |b| - k
  {
    |b| > k && (|a| <= k || a[k] < b[k] || (a[k] == b[k] && BelowFrom(a, b, k + 1)))
  }

  ghost predicate StrictTotalOrder<T(!new)>(less: (T, T) -> bool)
  {
    && (forall a :: !less(a, a))
    && (forall a, b, c :: less(a, b) && less(b, c) ==> less(a, c))
    && (forall a, b :: a != b ==> less(a, b) || less(b, a))
  }

  /** Every earlier element is below every later one (so no value repeats). */
  predicate Ascending<T>(s: seq<T>, less: (T, T) -> bool)
  {
    forall i, j :: 0 <= i < j < |s| ==> less(s[i], s[j])
  }

  lemma {:induction false} BelowFromIrreflexive(a: string, k: nat)
    ensures !BelowFrom(a, a, k)
    decreases |a| - k
  {
    if k < |a| {
      BelowFromIrreflexive(a, k + 1);
    }
  }

  lemma {:induction false} BelowFromTransitive(a: string, b: string, c: string, k: nat)
    requires BelowFrom(a, b, k) && BelowFrom(b, c, k)
    ensures BelowFrom(a, c, k)
    decreases |b| - k
  {
    if |a| > k && a[k] == b[k] && b[k] == c[k] {
      BelowFromTransitive(a, b, c, k + 1);
    }
  }

  lemma {:induction false} BelowFromTotal(a: string, b: string, k: nat)
    requires k <= |a| && k <= |b| && a[k..] != b[k..]
    ensures BelowFrom(a, b, k) || BelowFrom(b, a, k)
    decreases |a| - k
  {
    if |a| > k && |b| > k && a[k] == b[k] {
      assert a[k..] == [a[k]] + a[k + 1..] && b[k..] == [b[k]] + b[k + 1..];
      BelowFromTotal(a, b, k + 1);
    }
  }

  lemma BelowIrreflexive(a: string)
    ensures !Below(a, a)
  {
    BelowFromIrreflexive(a, 0);
  }

  /** Python's string comparison is a strict total order. */
  lemma BelowIsStrictTotalOrder()
    ensures StrictTotalOrder(Below)
  {
    forall a | true ensures !Below(a, a) {
      BelowFromIrreflexive(a, 0);
    }
    forall a, b, c | Below(a, b) && Below(b, c) ensures Below(a, c) {
      BelowFromTransitive(a, b, c, 0);
    }
    forall a, b | a != b ensures Below(a, b) || Below(b, a) {
      assert a[0..] == a && b[0..] == b;
      BelowFromTotal(a, b, 0);
    }
  }

  /** Insert `x` into an ascending sequence unless it is already there. */
  function Insert<T(==, !new)>(x: T, s: seq<T>, less: (T, T) -> bool): (r: seq<T>)
    requires StrictTotalOrder(less) && Ascending(s, less)
    ensures Ascending(r, less)
    ensures Elems(r) == Elems(s) + {x}
  {
    if s == [] then [x]
    else if x == s[0] then s
    else if less(x, s[0]) then [x] + s
    else
      var tail := Insert(x, s[1..], less);
      assert Elems(s) == {s[0]} + Elems(s[1..]);
      assert forall j :: 0 <= j < |tail| ==> tail[j] in Elems(tail);
      [s[0]] + tail
  }

  /** `sorted(set(xs))`: the distinct values of `xs`, ascending. */
  function SortedDistinct<T(==, !new)>(xs: seq<T>, less: (T, T) -> bool): (r: seq<T>)
    requires StrictTotalOrder(less)
    ensures Ascending(r, less)
    ensures Elems(r) == Elems(xs)
  {
    if xs == [] then []
    else
      assert Elems(xs) == {xs[0]} + Elems(xs[1..]);
      Insert(xs[0], SortedDistinct(xs[1..], less), less)
  }

  /** An ascending sequence lists each of its values once. */
  lemma {:induction false} AscendingCard<T(!new)>(s: seq<T>, less: (T, T) -> bool)
    requires StrictTotalOrder(less) && Ascending(s, less)
    ensures |Elems(s)| == |s|
  {
    if s != [] {
      assert Elems(s) == {s[0]} + Elems(s[1..]);
      forall j | 0 <= j < |s[1..]| ensures s[1..][j] != s[0] {
        assert less(s[0], s[j + 1]);
      }
      assert s[0] !in Elems(s[1..]);
      AscendingCard(s[1..], less);
    }
  }

  /** The head of an ascending sequence is below every other value in it. */
  lemma AscendingHead<T(!new)>(s: seq<T>, x: T, less: (T, T) -> bool)
    requires Ascending(s, less) && x in Elems(s)
    ensures x == s[0] || less(s[0], x)
  {
    var j :| 0 <= j < |s| && s[j] == x;
  }

  /** A finite set has exactly one ascending listing: `sorted(set(xs))` is determined
      by the set of values alone. */
  lemma {:induction false} AscendingUnique<T(!new)>(a: seq<T>, b: seq<T>, less: (T, T) -> bool)
    requires StrictTotalOrder(less)
    requires Ascending(a, less) && Ascending(b, less)
    requires Elems(a) == Elems(b)
    ensures a == b
  {
    assert a != [] ==> a[0] in Elems(a);
    assert b != [] ==> b[0] in Elems(b);
    if a != [] {
      AscendingHead(b, a[0], less);
      AscendingHead(a, b[0], less);
      var x, y := a[0], b[0];
      assert !(less(x, y) && less(y, x)) by {
        assert !less(x, x);
      }
      assert a[0] == b[0];
      assert Elems(a[1..]) == Elems(b[1..]) by {
        assert Elems(a) == {a[0]} + Elems(a[1..]);
        assert Elems(b) == {b[0]} + Elems(b[1..]);
        forall x | x in Elems(a[1..]) ensures x != a[0] {
          var j :| 0 <= j < |a[1..]| && a[1..][j] == x;
          assert less(a[0], a[j + 1]);
        }
        forall x | x in Elems(b[1..]) ensures x != b[0] {
          var j :| 0 <= j < |b[1..]| && b[1..][j] == x;
          assert less(b[0], b[j + 1]);
        }
      }
      AscendingUnique(a[1..], b[1..], less);
      assert a == [a[0]] + a[1..] && b == [b[0]] + b[1..];
    }
  }

  /** A two-value set has the one ascending listing `[x, y]` when `x` is below `y`. */
  lemma AscendingPair<T(!new)>(s: seq<T>, x: T, y: T, less: (T, T) -> bool)
    requires StrictTotalOrder(less)
    requires Ascending(s, less) && Elems(s) == {x, y}
    requires less(x, y)
    ensures s == [x, y]
  {
    assert Elems([x, y]) == {x, y};
    AscendingUnique(s, [x, y], less);
  }
}
