/**
 * A stable in-place sort with the comparator convention of
 * Array.prototype.sort (section 23.1.3.30 of ECMA-262, 2023 edition):
 * a comparator result greater than zero means "the first argument belongs
 * after the second", anything else leaves the pair as it is.
 *
 * The specification is the functional insertion sort `InsertionSort`;
 * `SortInPlace` is proved to compute it on an array, and the lemmas below
 * prove that it is a permutation, that it orders the elements, that it is
 * stable and that it leaves an ordered sequence alone.
 */
module StableSort {

  /** A comparator never says "after" in both directions, nor "before" in both. */
  ghost predicate SignAntisymmetric<T(!new)>(cmp: (T, T) -> int) {
    forall a, b :: cmp(a, b) > 0 <==> cmp(b, a) < 0
  }

  /** "Not after" is transitive. */
  ghost predicate Transitive<T(!new)>(cmp: (T, T) -> int) {
    forall a, b, c :: cmp(a, b) <= 0 && cmp(b, c) <= 0 ==> cmp(a, c) <= 0
  }

  /** A consistent comparator in the sense of ECMA-262: a total preorder. */
  ghost predicate Consistent<T(!new)>(cmp: (T, T) -> int) {
    SignAntisymmetric(cmp) && Transitive(cmp)
  }

  /** Every element is "not after" its successor. */
  ghost predicate Ordered<T>(s: seq<T>, cmp: (T, T) -> int) {
    forall i :: 0 < i < |s| ==> cmp(s[i - 1], s[i]) <= 0
  }

  /** Every element is "not after" every later element. */
  ghost predicate OrderedPairwise<T>(s: seq<T>, cmp: (T, T) -> int) {
    forall i, j :: 0 <= i < j < |s| ==> cmp(s[i], s[j]) <= 0
  }

  /**
   * Inserts x into s by moving it leftwards past every trailing element
   * that belongs after it.
   */
  function Insert<T>(s: seq<T>, x: T, cmp: (T, T) -> int): (r: seq<T>)
    ensures |r| == |s| + 1
    decreases |s|
  {
    if s == [] || cmp(s[|s| - 1], x) <= 0 then s + [x]
    else Insert(s[..|s| - 1], x, cmp) + [s[|s| - 1]]
  }

  /** Insertion sort: sort all but the last element, then insert the last one. */
  function InsertionSort<T>(s: seq<T>, cmp: (T, T) -> int): (r: seq<T>)
    ensures |r| == |s|
    decreases |s|
  {
    if s == [] then [] else Insert(InsertionSort(s[..|s| - 1], cmp), s[|s| - 1], cmp)
  }

  /** The elements of s that the comparator ties with k, in their order in s. */
  function TiedWith<T>(s: seq<T>, k: T, cmp: (T, T) -> int): (r: seq<T>)
    ensures |r| <= |s|
    decreases |s|
  {
    if s == [] then []
    else TiedWith(s[..|s| - 1], k, cmp) + (if cmp(s[|s| - 1], k) == 0 then [s[|s| - 1]] else [])
  }

  /**
   * Insert puts x right after the first element, from the right, that x
   * does not belong before, and keeps the rest of s in place.
   */
  lemma {:induction false} InsertAt<T>(s: seq<T>, x: T, cmp: (T, T) -> int, j: nat)
    requires j <= |s|
    requires forall k :: j <= k < |s| ==> cmp(s[k], x) > 0
    requires j == 0 || cmp(s[j - 1], x) <= 0
    ensures Insert(s, x, cmp) == s[..j] + [x] + s[j..]
    decreases |s|
  {
    if j == |s| {
      assert Insert(s, x, cmp) == s + [x];
      assert s[..j] == s && s[j..] == [];
    } else {
      var init, last := s[..|s| - 1], s[|s| - 1];
      assert cmp(last, x) > 0;
      assert Insert(s, x, cmp) == Insert(init, x, cmp) + [last];
      InsertAt(init, x, cmp, j);
      assert s[j..] == init[j..] + [last];
    }
  }

  /** Insert adds exactly x. */
  lemma {:induction false} InsertIsPermutation<T>(s: seq<T>, x: T, cmp: (T, T) -> int)
    ensures multiset(Insert(s, x, cmp)) == multiset(s) + multiset{x}
    decreases |s|
  {
    if s != [] && cmp(s[|s| - 1], x) > 0 {
      InsertIsPermutation(s[..|s| - 1], x, cmp);
      assert s == s[..|s| - 1] + [s[|s| - 1]];
    }
  }

  /** Sorting is a permutation: it adds and drops nothing. */
  lemma {:induction false} SortIsPermutation<T>(s: seq<T>, cmp: (T, T) -> int)
    ensures multiset(InsertionSort(s, cmp)) == multiset(s)
    decreases |s|
  {
    if s != [] {
      SortIsPermutation(s[..|s| - 1], cmp);
      InsertIsPermutation(InsertionSort(s[..|s| - 1], cmp), s[|s| - 1], cmp);
      assert s == s[..|s| - 1] + [s[|s| - 1]];
    }
  }

  /** The last element of Insert(s, x) is x or the last element of s. */
  lemma {:induction false} InsertLast<T>(s: seq<T>, x: T, cmp: (T, T) -> int)
    ensures var r := Insert(s, x, cmp);
      r[|r| - 1] == x || (s != [] && r[|r| - 1] == s[|s| - 1])
  {
  }

  /** Inserting into an ordered sequence keeps it ordered. */
  lemma {:induction false} InsertOrdered<T(!new)>(s: seq<T>, x: T, cmp: (T, T) -> int)
    requires SignAntisymmetric(cmp)
    requires Ordered(s, cmp)
    ensures Ordered(Insert(s, x, cmp), cmp)
    decreases |s|
  {
    if s == [] || cmp(s[|s| - 1], x) <= 0 {
    } else {
      var init := s[..|s| - 1];
      var last := s[|s| - 1];
      InsertOrdered(init, x, cmp);
      var r' := Insert(init, x, cmp);
      InsertLast(init, x, cmp);
      assert cmp(r'[|r'| - 1], last) <= 0 by {
        if r'[|r'| - 1] == x {
          assert cmp(last, x) > 0;
        } else {
          assert s[|s| - 2] == init[|init| - 1];
        }
      }
    }
  }

  /** Under a comparator that is sign-antisymmetric, the sort orders its result. */
  lemma {:induction false} SortIsOrdered<T(!new)>(s: seq<T>, cmp: (T, T) -> int)
    requires SignAntisymmetric(cmp)
    ensures Ordered(InsertionSort(s, cmp), cmp)
    decreases |s|
  {
    if s != [] {
      SortIsOrdered(s[..|s| - 1], cmp);
      InsertOrdered(InsertionSort(s[..|s| - 1], cmp), s[|s| - 1], cmp);
    }
  }

  /** Under a transitive comparator, ordering of neighbours orders every pair. */
  lemma {:induction false} OrderedIsPairwise<T(!new)>(s: seq<T>, cmp: (T, T) -> int)
    requires Transitive(cmp)
    requires Ordered(s, cmp)
    ensures OrderedPairwise(s, cmp)
    decreases |s|
  {
    if s != [] {
      var init := s[..|s| - 1];
      assert Ordered(init, cmp) by {
        forall i | 0 < i < |init| ensures cmp(init[i - 1], init[i]) <= 0 {
          assert init[i - 1] == s[i - 1] && init[i] == s[i];
        }
      }
      OrderedIsPairwise(init, cmp);
      forall i, j | 0 <= i < j < |s| ensures cmp(s[i], s[j]) <= 0 {
        if j < |s| - 1 {
          assert s[i] == init[i] && s[j] == init[j];
        } else if i < j - 1 {
          assert s[i] == init[i] && s[j - 1] == init[j - 1];
          assert cmp(s[i], s[j - 1]) <= 0 && cmp(s[j - 1], s[j]) <= 0;
        }
      }
    }
  }

  /** Under a consistent comparator the sorted result is ordered pairwise. */
  lemma SortIsOrderedPairwise<T(!new)>(s: seq<T>, cmp: (T, T) -> int)
    requires Consistent(cmp)
    ensures OrderedPairwise(InsertionSort(s, cmp), cmp)
  {
    SortIsOrdered(s, cmp);
    OrderedIsPairwise(InsertionSort(s, cmp), cmp);
  }

  /** Insert places x after every element of s that is tied with the same key. */
  lemma {:induction false} InsertKeepsTies<T(!new)>(s: seq<T>, x: T, k: T, cmp: (T, T) -> int)
    requires Consistent(cmp)
    ensures TiedWith(Insert(s, x, cmp), k, cmp)
         == TiedWith(s, k, cmp) + (if cmp(x, k) == 0 then [x] else [])
    decreases |s|
  {
    if s == [] || cmp(s[|s| - 1], x) <= 0 {
      var r := s + [x];
      assert r[..|r| - 1] == s;
    } else {
      var init := s[..|s| - 1];
      var last := s[|s| - 1];
      InsertKeepsTies(init, x, k, cmp);
      var r := Insert(init, x, cmp) + [last];
      assert r[..|r| - 1] == Insert(init, x, cmp);
      if cmp(x, k) == 0 {
        assert cmp(k, x) <= 0;
        // otherwise transitivity through k would put last before x
        assert cmp(last, k) != 0;
      }
    }
  }

  /**
   * Stability: for every key k, the elements tied with k come out of the
   * sort in the order they went in.
   */
  lemma {:induction false} SortIsStable<T(!new)>(s: seq<T>, k: T, cmp: (T, T) -> int)
    requires Consistent(cmp)
    ensures TiedWith(InsertionSort(s, cmp), k, cmp) == TiedWith(s, k, cmp)
    decreases |s|
  {
    if s != [] {
      SortIsStable(s[..|s| - 1], k, cmp);
      InsertKeepsTies(InsertionSort(s[..|s| - 1], cmp), s[|s| - 1], k, cmp);
    }
  }

  /** An ordered sequence is left exactly as it is; in particular sorting is idempotent. */
  lemma {:induction false} SortOfOrderedIsIdentity<T>(s: seq<T>, cmp: (T, T) -> int)
    requires Ordered(s, cmp)
    ensures InsertionSort(s, cmp) == s
    decreases |s|
  {
    if s != [] {
      var init := s[..|s| - 1];
      assert Ordered(init, cmp) by {
        forall i | 0 < i < |init| ensures cmp(init[i - 1], init[i]) <= 0 {
          assert init[i - 1] == s[i - 1] && init[i] == s[i];
        }
      }
      SortOfOrderedIsIdentity(init, cmp);
      if |s| > 1 {
        assert cmp(init[|init| - 1], s[|s| - 1]) <= 0 by {
          assert init[|init| - 1] == s[|s| - 2];
        }
      }
      assert init + [s[|s| - 1]] == s;
    }
  }

  /** Sorting twice is the same as sorting once. */
  lemma SortIsIdempotent<T(!new)>(s: seq<T>, cmp: (T, T) -> int)
    requires SignAntisymmetric(cmp)
    ensures InsertionSort(InsertionSort(s, cmp), cmp) == InsertionSort(s, cmp)
  {
    SortIsOrdered(s, cmp);
    SortOfOrderedIsIdentity(InsertionSort(s, cmp), cmp);
  }

  /**
   * A comparator that ties every pair (as the record comparator does for a
   * field whose values are neither dates, strings nor numbers) leaves the
   * order unchanged.
   */
  lemma AllTiedLeavesOrder<T(!new)>(s: seq<T>, cmp: (T, T) -> int)
    requires forall a, b :: cmp(a, b) == 0
    ensures InsertionSort(s, cmp) == s
  {
    SortOfOrderedIsIdentity(s, cmp);
  }

  /**
   * One step of SortInPlace: a[..i] is sorted already, and a[i] is moved
   * leftwards to the place Insert gives it.
   */
  method InsertInPlace<T>(a: array<T>, i: nat, cmp: (T, T) -> int)
    requires i < a.Length
    modifies a
    ensures a[..i + 1] == Insert(old(a[..i]), old(a[i]), cmp)
    ensures a[i + 1..] == old(a[i + 1..])
  {
    ghost var sorted := a[..i];
    var x := a[i];
    var j := i;
    while j > 0 && cmp(a[j - 1], x) > 0
      invariant 0 <= j <= i
      invariant forall k :: 0 <= k < j ==> a[k] == sorted[k]
      invariant forall k :: j < k <= i ==> a[k] == sorted[k - 1]
      invariant forall k :: i < k < a.Length ==> a[k] == old(a[k])
      invariant forall k :: j <= k < i ==> cmp(sorted[k], x) > 0
    {
      a[j] := a[j - 1];
      j := j - 1;
    }
    a[j] := x;
    InsertAt(sorted, x, cmp, j);
    ghost var inserted := sorted[..j] + [x] + sorted[j..];
    forall k | 0 <= k <= i ensures a[k] == inserted[k] {
      if k < j {
        assert inserted[k] == sorted[k];
      } else if k > j {
        assert inserted[k] == sorted[k - 1];
      }
    }
    assert a[..i + 1] == inserted;
  }

  /** Sorts a in place; its final contents are InsertionSort of its initial contents. */
  method SortInPlace<T>(a: array<T>, cmp: (T, T) -> int)
    modifies a
    ensures a[..] == InsertionSort(old(a[..]), cmp)
  {
    ghost var s0 := a[..];
    var i := 0;
    while i < a.Length
      invariant 0 <= i <= a.Length
      invariant a[..i] == InsertionSort(s0[..i], cmp)
      invariant a[i..] == s0[i..]
    {
      assert a[i] == s0[i];
      InsertInPlace(a, i, cmp);
      assert s0[..i + 1][..i] == s0[..i];
      i := i + 1;
    }
    assert a[..] == a[..i] && s0 == s0[..i];
  }
}
