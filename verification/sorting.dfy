/** The ordering vocabulary of Go's `sort.Slice` and a concrete deterministic sort.
    `sort.Slice(s, less)` reorders `s` so that no element is `less` than an element
    before it; it is not stable, so among elements neither of which is `less` than
    the other the final order is unspecified. The model fixes one such order
    (insertion sort) and states what every correct order has in common. */
module Sorting {

  /** The requirement `sort.Slice` puts on its comparator: asymmetric, and
      "not less" is transitive (so incomparability is an equivalence). */
  ghost predicate StrictWeakOrder<T(!new)>(less: (T, T) -> bool) {
    && (forall a, b :: less(a, b) ==> !less(b, a))
    && (forall a, b, c :: !less(a, b) && !less(b, c) ==> !less(a, c))
  }

  /** A strict weak order in which only equal values are incomparable. */
  ghost predicate StrictTotalOrder<T(!new)>(less: (T, T) -> bool) {
    && StrictWeakOrder(less)
    && (forall a, b :: a != b ==> less(a, b) || less(b, a))
  }

  /** The three defining properties of a strict total order give a strict
      total order in the sense above (its "not less" is transitive). */
  lemma StrictTotalOrderFromParts<T(!new)>(less: (T, T) -> bool)
    requires forall a, b :: less(a, b) ==> !less(b, a)
    requires forall a, b, c :: less(a, b) && less(b, c) ==> less(a, c)
    requires forall a, b :: a != b ==> less(a, b) || less(b, a)
    ensures StrictTotalOrder(less)
  {
    forall a, b, c | !less(a, b) && !less(b, c) ensures !less(a, c) {
      if a != b && b != c {
        assert less(b, a) && less(c, b);
        assert less(c, a);
      }
    }
  }

  /** No element is `less` than an element before it. */
  predicate Sorted<T>(s: seq<T>, less: (T, T) -> bool) {
    forall i, j :: 0 <= i < j < |s| ==> !less(s[j], s[i])
  }

  /** Inserts `x` before the first element that is not `less` than it. */
  function Insert<T(!new)>(x: T, s: seq<T>, less: (T, T) -> bool): (r: seq<T>)
    ensures multiset(r) == multiset(s) + multiset{x}
    ensures |r| == |s| + 1
  {
    if |s| == 0 then [x]
    else if less(s[0], x) then
      assert s == [s[0]] + s[1..];
      [s[0]] + Insert(x, s[1..], less)
    else
      [x] + s
  }

  lemma {:induction false} InsertSorted<T(!new)>(x: T, s: seq<T>, less: (T, T) -> bool)
    requires StrictWeakOrder(less)
    requires Sorted(s, less)
    ensures Sorted(Insert(x, s, less), less)
  {
    if |s| > 0 {
      if less(s[0], x) {
        var rest := Insert(x, s[1..], less);
        assert Sorted(s[1..], less) by {
          forall i, j | 0 <= i < j < |s[1..]|
            ensures !less(s[1..][j], s[1..][i])
          {
            assert s[1..][j] == s[j + 1] && s[1..][i] == s[i + 1];
          }
        }
        InsertSorted(x, s[1..], less);
        forall y | y in multiset(rest)
          ensures !less(y, s[0])
        {
          assert y in multiset(s[1..]) + multiset{x};
          if y in multiset(s[1..]) {
            var k :| 0 <= k < |s[1..]| && s[1..][k] == y;
            assert s[k + 1] == y;
          }
        }
        forall i, j | 0 <= i < j < |[s[0]] + rest|
          ensures !less(([s[0]] + rest)[j], ([s[0]] + rest)[i])
        {
          if i == 0 {
            assert ([s[0]] + rest)[j] == rest[j - 1];
            assert rest[j - 1] in multiset(rest);
          }
        }
      } else {
        forall i, j | 0 <= i < j < |[x] + s|
          ensures !less(([x] + s)[j], ([x] + s)[i])
        {
          if i == 0 && j > 1 {
            assert !less(s[j - 1], s[0]);
          }
        }
      }
    }
  }

  lemma SortedAfterInsert<T(!new)>(x: T, s: seq<T>, less: (T, T) -> bool)
    ensures StrictWeakOrder(less) && Sorted(s, less) ==> Sorted(Insert(x, s, less), less)
  {
    if StrictWeakOrder(less) && Sorted(s, less) {
      InsertSorted(x, s, less);
    }
  }

  /** Insertion sort: the model's deterministic choice among the orders
      `sort.Slice` may produce. */
  function Sort<T(!new)>(s: seq<T>, less: (T, T) -> bool): (r: seq<T>)
    ensures multiset(r) == multiset(s)
    ensures |r| == |s|
    ensures StrictWeakOrder(less) ==> Sorted(r, less)
  {
    if |s| == 0 then []
    else
      assert s == [s[0]] + s[1..];
      var rest := Sort(s[1..], less);
      SortedAfterInsert(s[0], rest, less);
      Insert(s[0], rest, less)
  }

  /** Sorting an already sorted sequence leaves it exactly as it was. */
  lemma {:induction false} SortSortedIsIdentity<T(!new)>(s: seq<T>, less: (T, T) -> bool)
    requires Sorted(s, less)
    ensures Sort(s, less) == s
  {
    if |s| > 0 {
      assert Sorted(s[1..], less) by {
        forall i, j | 0 <= i < j < |s[1..]|
          ensures !less(s[1..][j], s[1..][i])
        {
          assert s[1..][j] == s[j + 1] && s[1..][i] == s[i + 1];
        }
      }
      SortSortedIsIdentity(s[1..], less);
      assert Sort(s, less) == Insert(s[0], s[1..], less);
      if |s| > 1 {
        assert !less(s[1], s[0]);
        assert s[1..][0] == s[1];
      }
      assert s == [s[0]] + s[1..];
    }
  }

  /** Elements of `s` that are pairwise comparable unless equal. */
  predicate Discerning<T(==)>(s: seq<T>, less: (T, T) -> bool) {
    forall i, j :: 0 <= i < |s| && 0 <= j < |s| && s[i] != s[j] ==> less(s[i], s[j]) || less(s[j], s[i])
  }

  lemma SortedTail<T>(s: seq<T>, less: (T, T) -> bool)
    requires |s| > 0 && Sorted(s, less)
    ensures Sorted(s[1..], less)
  {
    forall i, j | 0 <= i < j < |s[1..]|
      ensures !less(s[1..][j], s[1..][i])
    {
      assert s[1..][j] == s[j + 1] && s[1..][i] == s[i + 1];
    }
  }

  lemma DiscerningTail<T>(s: seq<T>, less: (T, T) -> bool)
    requires |s| > 0 && Discerning(s, less)
    ensures Discerning(s[1..], less)
  {
    forall i, j | 0 <= i < |s[1..]| && 0 <= j < |s[1..]| && s[1..][i] != s[1..][j]
      ensures less(s[1..][i], s[1..][j]) || less(s[1..][j], s[1..][i])
    {
      assert s[1..][j] == s[j + 1] && s[1..][i] == s[i + 1];
    }
  }

  /** The first element of a sorted sequence is not greater than any element. */
  lemma SortedHeadIsLeast<T(!new)>(s: seq<T>, x: T, less: (T, T) -> bool)
    requires StrictWeakOrder(less)
    requires Sorted(s, less) && x in multiset(s)
    ensures !less(x, s[0])
  {
    var k :| 0 <= k < |s| && s[k] == x;
    if k > 0 {
      assert !less(s[k], s[0]);
    }
  }

  /** Under a strict total order every sequence is discerning. */
  lemma TotalIsDiscerning<T(!new)>(s: seq<T>, less: (T, T) -> bool)
    requires StrictTotalOrder(less)
    ensures Discerning(s, less)
  {
  }

  /** Two sorted arrangements of the same multiset are identical when the
      comparator tells all of its different elements apart: the sorted order is
      then unique, whichever algorithm produced it. */
  lemma {:induction false} SortedPermutationUnique<T(!new)>(a: seq<T>, b: seq<T>, less: (T, T) -> bool)
    requires StrictWeakOrder(less)
    requires multiset(a) == multiset(b)
    requires Sorted(a, less) && Sorted(b, less)
    requires Discerning(a, less)
    ensures a == b
    decreases |a|
  {
    assert |a| == |multiset(a)| == |multiset(b)| == |b|;
    if |a| > 0 {
      assert a[0] in multiset(b) && b[0] in multiset(a);
      SortedHeadIsLeast(b, a[0], less);
      SortedHeadIsLeast(a, b[0], less);
      var m :| 0 <= m < |a| && a[m] == b[0];
      assert a[0] == b[0];
      assert a == [a[0]] + a[1..] && b == [b[0]] + b[1..];
      assert multiset(a[1..]) == multiset(a) - multiset{a[0]};
      assert multiset(b[1..]) == multiset(b) - multiset{b[0]};
      SortedTail(a, less);
      SortedTail(b, less);
      DiscerningTail(a, less);
      SortedPermutationUnique(a[1..], b[1..], less);
    }
  }

  /** The sort depends only on the multiset of its input when the comparator
      tells all of the input's different elements apart. */
  lemma SortPermutationInvariant<T(!new)>(a: seq<T>, b: seq<T>, less: (T, T) -> bool)
    requires StrictWeakOrder(less)
    requires multiset(a) == multiset(b)
    requires Discerning(a, less)
    ensures Sort(a, less) == Sort(b, less)
  {
    var sa, sb := Sort(a, less), Sort(b, less);
    assert Discerning(sa, less) by {
      forall i, j | 0 <= i < |sa| && 0 <= j < |sa| && sa[i] != sa[j]
        ensures less(sa[i], sa[j]) || less(sa[j], sa[i])
      {
        assert sa[i] in multiset(a) && sa[j] in multiset(a);
        var p :| 0 <= p < |a| && a[p] == sa[i];
        var q :| 0 <= q < |a| && a[q] == sa[j];
      }
    }
    SortedPermutationUnique(sa, sb, less);
  }
}
