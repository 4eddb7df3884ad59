/**
 Orders, filters and ranks over sequences.

 The selection algorithm of the library splits a list into the elements below,
 equal to and above a pivot; the statistics read a sorted copy of a column.
 Both are stated here over an arbitrary strict total order `lt`, the role Rust's
 `PartialOrd` plays for the comparable (non-NaN) values the model admits.
 */
module Order {

  /** `lt` is a strict total order: irreflexive, transitive, and any two distinct values compare. */
  ghost predicate StrictTotalOrder<T(!new)>(lt: (T, T) -> bool) {
    && (forall x :: !lt(x, x))
    && (forall x, y, z :: lt(x, y) && lt(y, z) ==> lt(x, z))
    && (forall x, y :: x == y || lt(x, y) || lt(y, x))
  }

  /** Ascending: no element is strictly below one that comes before it. */
  ghost predicate SortedBy<T>(s: seq<T>, lt: (T, T) -> bool) {
    forall i, j :: 0 <= i < j < |s| ==> !lt(s[j], s[i])
  }

  /** The elements of `s` that `keep` accepts, in their original order (Rust's `iter().filter()`). */
  function Filter<T>(s: seq<T>, keep: T -> bool): (r: seq<T>)
    ensures |r| <= |s|
  {
    if |s| == 0 then [] else (if keep(s[0]) then [s[0]] else []) + Filter(s[1..], keep)
  }

  /** The elements strictly below `p`. */
  function Lows<T>(s: seq<T>, p: T, lt: (T, T) -> bool): seq<T> {
    Filter(s, x => lt(x, p))
  }

  /** The elements equal to `p`. */
  function Pivots<T(==)>(s: seq<T>, p: T): seq<T> {
    Filter(s, x => x == p)
  }

  /** The elements strictly above `p`. */
  function Highs<T>(s: seq<T>, p: T, lt: (T, T) -> bool): seq<T> {
    Filter(s, x => lt(p, x))
  }

  /**
   `v` is an element of `s` of rank `k` (counting from 0): fewer than `k + 1`
   elements lie strictly below it and more than `k` lie at or below it.
   */
  predicate HasRank<T(==)>(s: seq<T>, v: T, k: nat, lt: (T, T) -> bool) {
    v in s && |Lows(s, v, lt)| <= k < |Lows(s, v, lt)| + |Pivots(s, v)|
  }

  // ---------------------------------------------------------------------------
  // Filter lemmas

  lemma FilterCons<T>(x: T, s: seq<T>, keep: T -> bool)
    ensures Filter([x] + s, keep) == (if keep(x) then [x] else []) + Filter(s, keep)
  {
    assert ([x] + s)[0] == x;
    assert ([x] + s)[1..] == s;
  }

  /** A filter keeps exactly the accepted elements. */
  lemma {:induction false} FilterMember<T>(s: seq<T>, keep: T -> bool, x: T)
    ensures x in Filter(s, keep) <==> x in s && keep(x)
  {
    if |s| > 0 {
      FilterMember(s[1..], keep, x);
      assert s == [s[0]] + s[1..];
    }
  }

  lemma LowsMember<T>(s: seq<T>, p: T, x: T, lt: (T, T) -> bool)
    ensures x in Lows(s, p, lt) <==> x in s && lt(x, p)
  {
    FilterMember(s, y => lt(y, p), x);
  }

  lemma PivotsMember<T>(s: seq<T>, p: T, x: T)
    ensures x in Pivots(s, p) <==> x in s && x == p
  {
    FilterMember(s, y => y == p, x);
  }

  lemma HighsMember<T>(s: seq<T>, p: T, x: T, lt: (T, T) -> bool)
    ensures x in Highs(s, p, lt) <==> x in s && lt(p, x)
  {
    FilterMember(s, y => lt(p, y), x);
  }

  lemma {:induction false} FilterConcat<T>(a: seq<T>, b: seq<T>, keep: T -> bool)
    ensures Filter(a + b, keep) == Filter(a, keep) + Filter(b, keep)
  {
    if |a| == 0 {
      assert a + b == b;
    } else {
      FilterConcat(a[1..], b, keep);
      assert a + b == [a[0]] + (a[1..] + b);
      FilterCons(a[0], a[1..] + b, keep);
      assert a == [a[0]] + a[1..];
      FilterCons(a[0], a[1..], keep);
    }
  }

  lemma {:induction false} FilterNone<T>(s: seq<T>, keep: T -> bool)
    requires forall i :: 0 <= i < |s| ==> !keep(s[i])
    ensures Filter(s, keep) == []
  {
    if |s| > 0 {
      FilterNone(s[1..], keep);
    }
  }

  // ---------------------------------------------------------------------------
  // The three-way partition around a pivot

  /** Below, equal to and above `p` split `s`: every element lands in exactly one group. */
  lemma {:induction false} PartitionSizes<T(!new)>(s: seq<T>, p: T, lt: (T, T) -> bool)
    requires StrictTotalOrder(lt)
    ensures |Lows(s, p, lt)| + |Pivots(s, p)| + |Highs(s, p, lt)| == |s|
  {
    if |s| > 0 {
      PartitionSizes(s[1..], p, lt);
      var x := s[0];
      // Exactly one of the three groups takes the head.
      assert lt(x, p) ==> x != p && !lt(p, x);
      assert lt(p, x) ==> x != p;
    }
  }

  /** A pivot taken from the list is in its own group, so both other groups are strictly shorter. */
  lemma PivotGroupNonEmpty<T(!new)>(s: seq<T>, p: T, lt: (T, T) -> bool)
    requires StrictTotalOrder(lt)
    requires p in s
    ensures |Pivots(s, p)| >= 1
    ensures |Lows(s, p, lt)| < |s| && |Highs(s, p, lt)| < |s|
  {
    PivotsMember(s, p, p);
    PartitionSizes(s, p, lt);
  }

  /** Below `r` inside the lows of a larger pivot is the same as below `r` in the whole list. */
  lemma {:induction false} LowsOfLows<T(!new)>(s: seq<T>, p: T, r: T, lt: (T, T) -> bool)
    requires StrictTotalOrder(lt)
    requires lt(r, p)
    ensures Lows(Lows(s, p, lt), r, lt) == Lows(s, r, lt)
    ensures Pivots(Lows(s, p, lt), r) == Pivots(s, r)
  {
    if |s| > 0 {
      LowsOfLows(s[1..], p, r, lt);
      var l := Lows(s, p, lt);
      if lt(s[0], p) {
        assert l == [s[0]] + Lows(s[1..], p, lt);
        assert l[1..] == Lows(s[1..], p, lt);
      } else {
        assert l == Lows(s[1..], p, lt);
        assert !lt(s[0], r) && s[0] != r;
      }
    }
  }

  /** Counting below `r` above a smaller pivot: lows and pivots of `p` come first, then the highs below `r`. */
  lemma {:induction false} LowsOfHighs<T(!new)>(s: seq<T>, p: T, r: T, lt: (T, T) -> bool)
    requires StrictTotalOrder(lt)
    requires lt(p, r)
    ensures |Lows(s, r, lt)| == |Lows(s, p, lt)| + |Pivots(s, p)| + |Lows(Highs(s, p, lt), r, lt)|
    ensures Pivots(Highs(s, p, lt), r) == Pivots(s, r)
  {
    if |s| > 0 {
      LowsOfHighs(s[1..], p, r, lt);
      var h := Highs(s, p, lt);
      if lt(p, s[0]) {
        assert h == [s[0]] + Highs(s[1..], p, lt);
        assert h[1..] == Highs(s[1..], p, lt);
      } else {
        assert h == Highs(s[1..], p, lt);
        assert lt(s[0], r) && s[0] != r;
      }
    }
  }

  /** A larger value has at least as many elements strictly below it as a smaller one has at or below it. */
  lemma {:induction false} RankCountsMonotone<T(!new)>(s: seq<T>, a: T, b: T, lt: (T, T) -> bool)
    requires StrictTotalOrder(lt)
    requires lt(a, b)
    ensures |Lows(s, a, lt)| + |Pivots(s, a)| <= |Lows(s, b, lt)|
  {
    if |s| > 0 {
      RankCountsMonotone(s[1..], a, b, lt);
    }
  }

  /** Under a total order the element of a given rank is unique. */
  lemma RankUnique<T(!new)>(s: seq<T>, a: T, b: T, k: nat, lt: (T, T) -> bool)
    requires StrictTotalOrder(lt)
    requires HasRank(s, a, k, lt) && HasRank(s, b, k, lt)
    ensures a == b
  {
    if lt(a, b) {
      RankCountsMonotone(s, a, b, lt);
    } else if lt(b, a) {
      RankCountsMonotone(s, b, a, lt);
    }
  }

  // ---------------------------------------------------------------------------
  // Sorting

  /** Prepending an element no larger than the head keeps a list ascending. */
  lemma SortedCons<T(!new)>(h: T, t: seq<T>, lt: (T, T) -> bool)
    requires StrictTotalOrder(lt)
    requires SortedBy(t, lt)
    requires |t| > 0 ==> !lt(t[0], h)
    ensures SortedBy([h] + t, lt)
  {
    var r := [h] + t;
    forall i, j | 0 <= i < j < |r|
      ensures !lt(r[j], r[i])
    {
      if i == 0 {
        assert r[j] == t[j - 1];
        if j > 1 {
          assert !lt(t[j - 1], t[0]);
        }
      } else {
        assert r[i] == t[i - 1] && r[j] == t[j - 1];
      }
    }
  }

  /** Places `x` before the first element of `s` that is not below it. */
  function Insert<T(!new)>(x: T, s: seq<T>, lt: (T, T) -> bool): (r: seq<T>)
    requires StrictTotalOrder(lt)
    requires SortedBy(s, lt)
    ensures |r| == |s| + 1
    ensures r[0] == x || (|s| > 0 && r[0] == s[0])
    ensures SortedBy(r, lt)
    ensures multiset(r) == multiset(s) + multiset{x}
  {
    if |s| == 0 then [x]
    else if lt(s[0], x) then
      assert SortedBy(s[1..], lt) by {
        forall i, j | 0 <= i < j < |s[1..]| ensures !lt(s[1..][j], s[1..][i]) {
          assert s[1..][j] == s[j + 1] && s[1..][i] == s[i + 1];
        }
      }
      var rest := Insert(x, s[1..], lt);
      assert |s| > 1 ==> !lt(s[1], s[0]);
      SortedCons(s[0], rest, lt);
      assert s == [s[0]] + s[1..];
      [s[0]] + rest
    else
      SortedCons(x, s, lt);
      [x] + s
  }

  /** An ascending permutation of `s` (insertion sort; the library's `sort_unstable` and sorted view). */
  function SortBy<T(!new)>(s: seq<T>, lt: (T, T) -> bool): (r: seq<T>)
    requires StrictTotalOrder(lt)
    ensures SortedBy(r, lt)
    ensures multiset(r) == multiset(s)
    ensures |r| == |s|
  {
    if |s| == 0 then []
    else
      assert s == [s[0]] + s[1..];
      Insert(s[0], SortBy(s[1..], lt), lt)
  }

  /** Inserting adds one to the count of every filter that accepts the inserted element. */
  lemma {:induction false} InsertCount<T(!new)>(x: T, s: seq<T>, lt: (T, T) -> bool, keep: T -> bool)
    requires StrictTotalOrder(lt)
    requires SortedBy(s, lt)
    ensures |Filter(Insert(x, s, lt), keep)| == |Filter(s, keep)| + (if keep(x) then 1 else 0)
  {
    if |s| == 0 {
      FilterCons(x, [], keep);
    } else if lt(s[0], x) {
      assert SortedBy(s[1..], lt) by {
        forall i, j | 0 <= i < j < |s[1..]| ensures !lt(s[1..][j], s[1..][i]) {
          assert s[1..][j] == s[j + 1] && s[1..][i] == s[i + 1];
        }
      }
      InsertCount(x, s[1..], lt, keep);
      FilterCons(s[0], Insert(x, s[1..], lt), keep);
      assert s == [s[0]] + s[1..];
      FilterCons(s[0], s[1..], keep);
    } else {
      FilterCons(x, s, keep);
    }
  }

  /** Sorting keeps the count of every filter. */
  lemma {:induction false} SortByCount<T(!new)>(s: seq<T>, lt: (T, T) -> bool, keep: T -> bool)
    requires StrictTotalOrder(lt)
    ensures |Filter(SortBy(s, lt), keep)| == |Filter(s, keep)|
  {
    if |s| > 0 {
      SortByCount(s[1..], lt, keep);
      InsertCount(s[0], SortBy(s[1..], lt), lt, keep);
      assert s == [s[0]] + s[1..];
      FilterCons(s[0], s[1..], keep);
    }
  }

  /** A rank in the sorted copy is the same rank in the original list. */
  lemma SortByKeepsRank<T(!new)>(s: seq<T>, v: T, k: nat, lt: (T, T) -> bool)
    requires StrictTotalOrder(lt)
    requires HasRank(SortBy(s, lt), v, k, lt)
    ensures HasRank(s, v, k, lt)
  {
    assert v in multiset(SortBy(s, lt));
    SortByCount(s, lt, x => lt(x, v));
    SortByCount(s, lt, x => x == v);
  }

  /** In an ascending list the element at position `k` has rank `k`. */
  lemma SortedHasRank<T(!new)>(t: seq<T>, k: nat, lt: (T, T) -> bool)
    requires StrictTotalOrder(lt)
    requires SortedBy(t, lt)
    requires k < |t|
    ensures HasRank(t, t[k], k, lt)
  {
    var v := t[k];
    // Nothing at or after position k lies below v.
    assert t == t[..k] + t[k..];
    FilterConcat(t[..k], t[k..], x => lt(x, v));
    FilterNone(t[k..], x => lt(x, v));
    // Nothing up to position k lies above v.
    assert t == t[..k + 1] + t[k + 1..];
    FilterConcat(t[..k + 1], t[k + 1..], x => lt(x, v));
    FilterConcat(t[..k + 1], t[k + 1..], x => x == v);
    FilterNone(t[..k + 1], x => lt(v, x));
    PartitionSizes(t[..k + 1], v, lt);
  }

  /** The `k`-th smallest element of `s` (counting from 0), read from the sorted copy. */
  function KthSmallest<T(!new)>(s: seq<T>, k: nat, lt: (T, T) -> bool): (r: T)
    requires StrictTotalOrder(lt)
    requires k < |s|
    ensures HasRank(s, r, k, lt)
  {
    var t := SortBy(s, lt);
    SortedHasRank(t, k, lt);
    SortByKeepsRank(s, t[k], k, lt);
    t[k]
  }

  /** `KthSmallest` is position `k` of the sorted copy. */
  lemma KthSmallestReadsSorted<T(!new)>(s: seq<T>, k: nat, lt: (T, T) -> bool)
    requires StrictTotalOrder(lt)
    requires k < |s|
    ensures KthSmallest(s, k, lt) == SortBy(s, lt)[k]
  {
  }

  /** Order statistics are ordered by rank. */
  lemma KthSmallestMonotone<T(!new)>(s: seq<T>, i: nat, j: nat, lt: (T, T) -> bool)
    requires StrictTotalOrder(lt)
    requires i <= j < |s|
    ensures !lt(KthSmallest(s, j, lt), KthSmallest(s, i, lt))
  {
    var t := SortBy(s, lt);
    assert KthSmallest(s, i, lt) == t[i] && KthSmallest(s, j, lt) == t[j];
  }

  /** In a list that is already ascending, the `k`-th smallest element sits at position `k`. */
  lemma SortedKthSmallest<T(!new)>(s: seq<T>, k: nat, lt: (T, T) -> bool)
    requires StrictTotalOrder(lt)
    requires SortedBy(s, lt)
    requires k < |s|
    ensures KthSmallest(s, k, lt) == s[k]
  {
    SortedHasRank(s, k, lt);
    RankUnique(s, KthSmallest(s, k, lt), s[k], k, lt);
  }
}
