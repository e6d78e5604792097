/** Stable merging and merge sort on sequences, for any comparison function that is
    a total preorder on the elements at hand. */
module MergeSortSpec {
  datatype FEComparisonResult = Ascendent | Descendent | Same

  type Comparison<!T> = (T, T) -> FEComparisonResult

  /** `compare` does not put `y` strictly before `x`. */
  predicate Before<T>(compare: Comparison<T>, x: T, y: T) {
    compare(x, y) != Descendent
  }

  /** `compare` orders the values of `u`: any two are related, and transitively. */
  ghost predicate Preorder<T>(compare: Comparison<T>, u: set<T>) {
    && (forall x, y :: x in u && y in u ==> Before(compare, x, y) || Before(compare, y, x))
    && (forall x, y, z :: x in u && y in u && z in u && Before(compare, x, y) && Before(compare, y, z)
                          ==> Before(compare, x, z))
  }

  ghost predicate Within<T>(s: seq<T>, u: set<T>) {
    forall i :: 0 <= i < |s| ==> s[i] in u
  }

  ghost predicate Sorted<T>(compare: Comparison<T>, s: seq<T>) {
    forall i, j :: 0 <= i <= j < |s| ==> Before(compare, s[i], s[j])
  }

  ghost predicate LowerBound<T>(compare: Comparison<T>, x: T, s: seq<T>) {
    forall i :: 0 <= i < |s| ==> Before(compare, x, s[i])
  }

  /** The elements of `s` that `compare` cannot tell from `x`, in their order. */
  ghost function Class<T>(compare: Comparison<T>, x: T, s: seq<T>): seq<T> {
    if s == [] then []
    else (if Before(compare, x, s[0]) && Before(compare, s[0], x) then [s[0]] else []) + Class(compare, x, s[1..])
  }

  /** Two sorted sequences merged; of two equal elements the left one goes first. */
  function Merge<T>(compare: Comparison<T>, a: seq<T>, b: seq<T>): (r: seq<T>)
    ensures |r| == |a| + |b|
  {
    if a == [] then b
    else if b == [] then a
    else if Before(compare, a[0], b[0]) then [a[0]] + Merge(compare, a[1..], b)
    else [b[0]] + Merge(compare, a, b[1..])
  }

  function MergeSort<T>(compare: Comparison<T>, s: seq<T>): (r: seq<T>)
    ensures |r| == |s|
    decreases |s|
  {
    if |s| <= 1 then s
    else
      var m := (|s| - 1) / 2 + 1;
      Merge(compare, MergeSort(compare, s[..m]), MergeSort(compare, s[m..]))
  }

  // ----- The result is a sorted, stable permutation

  lemma {:induction false} MergePermutes<T>(compare: Comparison<T>, a: seq<T>, b: seq<T>)
    ensures multiset(Merge(compare, a, b)) == multiset(a) + multiset(b)
  {
    if a != [] && b != [] {
      assert a == [a[0]] + a[1..] && b == [b[0]] + b[1..];
      if Before(compare, a[0], b[0]) {
        MergePermutes(compare, a[1..], b);
      } else {
        MergePermutes(compare, a, b[1..]);
      }
    }
  }

  lemma {:induction false} MergeLowerBound<T>(compare: Comparison<T>, x: T, a: seq<T>, b: seq<T>)
    requires LowerBound(compare, x, a) && LowerBound(compare, x, b)
    ensures LowerBound(compare, x, Merge(compare, a, b))
  {
    if a != [] && b != [] {
      if Before(compare, a[0], b[0]) {
        MergeLowerBound(compare, x, a[1..], b);
      } else {
        MergeLowerBound(compare, x, a, b[1..]);
      }
    }
  }

  /** Everything in a sorted sequence is bounded by what bounds its first element. */
  lemma BoundHead<T>(compare: Comparison<T>, u: set<T>, x: T, s: seq<T>)
    requires Preorder(compare, u) && Within(s, u) && x in u
    requires Sorted(compare, s) && (s != [] ==> Before(compare, x, s[0]))
    ensures LowerBound(compare, x, s)
  {
    forall i | 0 <= i < |s| ensures Before(compare, x, s[i]) {
      assert Before(compare, s[0], s[i]);
    }
  }

  lemma SortedCons<T>(compare: Comparison<T>, x: T, s: seq<T>)
    requires Sorted(compare, s) && LowerBound(compare, x, s) && Before(compare, x, x)
    ensures Sorted(compare, [x] + s)
  {}

  lemma {:induction false} MergeSorts<T>(compare: Comparison<T>, u: set<T>, a: seq<T>, b: seq<T>)
    requires Preorder(compare, u) && Within(a, u) && Within(b, u)
    requires Sorted(compare, a) && Sorted(compare, b)
    ensures Sorted(compare, Merge(compare, a, b))
  {
    if a != [] && b != [] {
      var left := Before(compare, a[0], b[0]);
      var x, a', b' := if left then a[0] else b[0], if left then a[1..] else a, if left then b else b[1..];
      Smaller(compare, u, a[0], b[0]);
      assert LowerBound(compare, x, a') && LowerBound(compare, x, b') by {
        BoundHead(compare, u, x, a);
        BoundHead(compare, u, x, b);
      }
      hide Preorder;
      MergeSorts(compare, u, a', b');
      MergeLowerBound(compare, x, a', b');
      SortedCons(compare, x, Merge(compare, a', b'));
    }
  }

  lemma Smaller<T>(compare: Comparison<T>, u: set<T>, x: T, y: T)
    requires Preorder(compare, u) && x in u && y in u
    ensures Before(compare, x, y) || Before(compare, y, x)
    ensures Before(compare, x, x) && Before(compare, y, y)
  {}

  lemma {:induction false} ClassConcat<T>(compare: Comparison<T>, x: T, a: seq<T>, b: seq<T>)
    ensures Class(compare, x, a + b) == Class(compare, x, a) + Class(compare, x, b)
  {
    if a == [] {
      assert a + b == b;
    } else {
      assert (a + b)[1..] == a[1..] + b;
      ClassConcat(compare, x, a[1..], b);
    }
  }

  /** What is strictly before all of `a` is in a class none of `a` is in. */
  lemma {:induction false} ClassEmpty<T>(compare: Comparison<T>, u: set<T>, x: T, y: T, a: seq<T>)
    requires Preorder(compare, u) && Within(a, u) && x in u && y in u
    requires Before(compare, x, y) && Before(compare, y, x)
    requires forall i :: 0 <= i < |a| ==> !Before(compare, a[i], y)
    ensures Class(compare, x, a) == []
  {
    if a != [] {
      ClassEmpty(compare, u, x, y, a[1..]);
      assert !Before(compare, a[0], y);
    }
  }

  /** If merging takes `y` from the right, no element of the left is in its class. */
  lemma LeftHasNone<T>(compare: Comparison<T>, u: set<T>, x: T, a: seq<T>, y: T)
    requires Preorder(compare, u) && Within(a, u) && x in u && y in u
    requires Sorted(compare, a) && a != [] && !Before(compare, a[0], y)
    requires Before(compare, x, y) && Before(compare, y, x)
    ensures Class(compare, x, a) == []
  {
    forall i | 0 <= i < |a| ensures !Before(compare, a[i], y) {
      assert Before(compare, a[0], a[i]);
    }
    ClassEmpty(compare, u, x, y, a);
  }

  lemma MergeHead<T>(compare: Comparison<T>, a: seq<T>, b: seq<T>)
    requires a != [] && b != []
    ensures Merge(compare, a, b) == if Before(compare, a[0], b[0]) then [a[0]] + Merge(compare, a[1..], b)
                                    else [b[0]] + Merge(compare, a, b[1..])
  {}

  lemma ClassHead<T>(compare: Comparison<T>, x: T, y: T, s: seq<T>)
    ensures Class(compare, x, [y] + s) ==
            (if Before(compare, x, y) && Before(compare, y, x) then [y] else []) + Class(compare, x, s)
  {
    assert ([y] + s)[1..] == s;
  }

  lemma {:induction false} MergeStable<T>(compare: Comparison<T>, u: set<T>, x: T, a: seq<T>, b: seq<T>)
    requires Preorder(compare, u) && Within(a, u) && Within(b, u) && x in u
    requires Sorted(compare, a) && Sorted(compare, b)
    ensures Class(compare, x, Merge(compare, a, b)) == Class(compare, x, a) + Class(compare, x, b)
  {
    if a == [] || b == [] {
      ClassOfEmpty(compare, x);
      assert Merge(compare, a, b) == a + b;
    } else {
      hide Preorder, Sorted, Before, Merge, Class;
      MergeHead(compare, a, b);
      var a', b' := a[1..], b[1..];
      assert a == [a[0]] + a' && b == [b[0]] + b';
      if Before(compare, a[0], b[0]) {
        SortedTail(compare, a);
        MergeStable(compare, u, x, a', b);
        HeadFromLeft(compare, x, a[0], a', b, Merge(compare, a', b));
      } else {
        SortedTail(compare, b);
        MergeStable(compare, u, x, a, b');
        if Before(compare, x, b[0]) && Before(compare, b[0], x) {
          LeftHasNone(compare, u, x, a, b[0]);
        }
        HeadFromRight(compare, x, b[0], a, b', Merge(compare, a, b'));
      }
    }
  }

  lemma HeadFromLeft<T>(compare: Comparison<T>, x: T, y: T, a: seq<T>, b: seq<T>, merged: seq<T>)
    requires Class(compare, x, merged) == Class(compare, x, a) + Class(compare, x, b)
    ensures Class(compare, x, [y] + merged) == Class(compare, x, [y] + a) + Class(compare, x, b)
  {
    hide Class, Before;
    ClassHead(compare, x, y, merged);
    ClassHead(compare, x, y, a);
    var head: seq<T> := if Before(compare, x, y) && Before(compare, y, x) then [y] else [];
    Associative(head, Class(compare, x, a), Class(compare, x, b));
  }

  lemma Associative<T>(p: seq<T>, q: seq<T>, r: seq<T>)
    ensures p + (q + r) == p + q + r
  {}

  lemma HeadFromRight<T>(compare: Comparison<T>, x: T, y: T, a: seq<T>, b: seq<T>, merged: seq<T>)
    requires Class(compare, x, merged) == Class(compare, x, a) + Class(compare, x, b)
    requires Before(compare, x, y) && Before(compare, y, x) ==> Class(compare, x, a) == []
    ensures Class(compare, x, [y] + merged) == Class(compare, x, a) + Class(compare, x, [y] + b)
  {
    hide Class, Before;
    ClassHead(compare, x, y, merged);
    ClassHead(compare, x, y, b);
    if Class(compare, x, a) == [] {
      assert Class(compare, x, merged) == Class(compare, x, b);
    } else {
      assert Class(compare, x, [y] + b) == Class(compare, x, b);
    }
  }

  lemma ClassOfEmpty<T>(compare: Comparison<T>, x: T)
    ensures Class(compare, x, []) == []
  {}

  lemma SortedTail<T>(compare: Comparison<T>, s: seq<T>)
    requires s != [] && Sorted(compare, s)
    ensures Sorted(compare, s[1..])
  {}

  lemma {:induction false} MergeSortPermutes<T>(compare: Comparison<T>, s: seq<T>)
    ensures multiset(MergeSort(compare, s)) == multiset(s)
    decreases |s|
  {
    if |s| > 1 {
      hide Merge;
      var m := (|s| - 1) / 2 + 1;
      var a, b := s[..m], s[m..];
      assert s == a + b;
      MergeSortPermutes(compare, a);
      MergeSortPermutes(compare, b);
      MergePermutes(compare, MergeSort(compare, a), MergeSort(compare, b));
    }
  }

  lemma WithinOf<T>(s: seq<T>, t: seq<T>, u: set<T>)
    requires multiset(s) == multiset(t) && Within(t, u)
    ensures Within(s, u)
  {
    forall i | 0 <= i < |s| ensures s[i] in u {
      assert s[i] in multiset(s);
    }
  }

  lemma {:induction false} MergeSortSorts<T>(compare: Comparison<T>, u: set<T>, s: seq<T>)
    requires Preorder(compare, u) && Within(s, u)
    ensures Sorted(compare, MergeSort(compare, s)) && Within(MergeSort(compare, s), u)
    decreases |s|
  {
    MergeSortPermutes(compare, s);
    WithinOf(MergeSort(compare, s), s, u);
    if |s| <= 1 {
      AtMostOneSorts(compare, u, s);
    } else {
      hide Preorder, Sorted, Merge, Within;
      var m := (|s| - 1) / 2 + 1;
      WithinParts(s, m, u);
      MergeSortSorts(compare, u, s[..m]);
      MergeSortSorts(compare, u, s[m..]);
      MergeSorts(compare, u, MergeSort(compare, s[..m]), MergeSort(compare, s[m..]));
    }
  }

  lemma AtMostOneSorts<T>(compare: Comparison<T>, u: set<T>, s: seq<T>)
    requires Preorder(compare, u) && Within(s, u) && |s| <= 1
    ensures Sorted(compare, s)
  {
    if s != [] { Smaller(compare, u, s[0], s[0]); }
  }

  lemma WithinParts<T>(s: seq<T>, m: nat, u: set<T>)
    requires Within(s, u) && m <= |s|
    ensures Within(s[..m], u) && Within(s[m..], u)
  {}

  lemma {:induction false} MergeSortStable<T>(compare: Comparison<T>, u: set<T>, x: T, s: seq<T>)
    requires Preorder(compare, u) && Within(s, u) && x in u
    ensures Class(compare, x, MergeSort(compare, s)) == Class(compare, x, s)
    decreases |s|
  {
    if |s| > 1 {
      hide Preorder, Sorted, Class;
      var m := (|s| - 1) / 2 + 1;
      var a, b := s[..m], s[m..];
      assert s == a + b;
      MergeSortStable(compare, u, x, a);
      MergeSortStable(compare, u, x, b);
      MergeSortSorts(compare, u, a);
      MergeSortSorts(compare, u, b);
      MergeStable(compare, u, x, MergeSort(compare, a), MergeSort(compare, b));
      ClassConcat(compare, x, a, b);
    }
  }
}
