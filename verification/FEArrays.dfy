/** The growable array of the emulator and its in-place merge sort. */
module FEArrays {
  import opened Words
  import opened MergeSortSpec

  class FEArray<T(0)> {
    var p: array<T>
    var size: nat
    var capacity: nat

    ghost predicate Valid()
      reads this
    {
      size <= capacity == p.Length
    }

    ghost function Elements(): (s: seq<T>)
      requires Valid()
      reads this, p
      ensures |s| == size
    {
      p[..size]
    }

    constructor (capacity: nat)
      ensures Valid() && fresh(p)
      ensures size == 0 && this.capacity == capacity
    {
      p := new T[capacity];
      this.capacity := capacity;
      size := 0;
    }

    method Append(element: T)
      requires Valid()
      modifies this, p
      ensures Valid()
      ensures p == old(p) || fresh(p)
      ensures Elements() == old(Elements()) + [element]
    {
      if size >= capacity {
        var grown := new T[capacity * 3 / 2 + 1];
        forall i | 0 <= i < size {
          grown[i] := p[i];
        }
        p, capacity := grown, grown.Length;
      }
      p[size] := element;
      size := size + 1;
    }

    /** Removes the element at `index`; out of range, nothing happens. */
    method RemoveIndex(index: nat) returns (done: bool)
      requires Valid()
      modifies this`size, p
      ensures Valid()
      ensures done == (index < old(size))
      ensures Elements() == if done then old(Elements())[..index] + old(Elements())[index + 1..] else old(Elements())
    {
      if index >= size {
        return false;
      }
      if size - 1 > index {
        forall i | index <= i < size - 1 {
          p[i] := p[i + 1];
        }
      }
      size := size - 1;
      return true;
    }

    /** Sorts the elements in place; of an empty array, the last index is the int -1. */
    method MergeSort(compare: Comparison<T>)
      requires Valid() && size < 0x8000_0000
      modifies p
      ensures Valid() && Elements() == MergeSortSpec.MergeSort(compare, old(Elements()))
    {
      hide Wrap32, ToInt32, MergeSortSpec.MergeSort;
      LastIndex(size);
      assert p[0..size] == p[..size];
      SortRange(0, ToInt32(Wrap32(size - 1)), compare);
      assert p[0..size] == p[..size];
    }

    /** Sorts `p[l..r + 1]` and leaves the rest alone. */
    method SortRange(l: int, r: int, compare: Comparison<T>)
      requires 0 <= l <= r + 1 <= p.Length
      modifies p
      ensures p[l..r + 1] == MergeSortSpec.MergeSort(compare, old(p[l..r + 1]))
      ensures forall i :: 0 <= i < p.Length && !(l <= i <= r) ==> p[i] == old(p[i])
      decreases r - l
    {
      hide MergeSortSpec.MergeSort;
      ghost var s := p[l..r + 1];
      if l < r {
        var m := l + (r - l) / 2;
        ghost var a, b := p[l..m + 1], p[m + 1..r + 1];
        assert s == a + b;
        SortRange(l, m, compare);
        assert p[m + 1..r + 1] == b;
        ghost var a' := p[l..m + 1];
        SortRange(m + 1, r, compare);
        assert p[l..m + 1] == a';
        MergeRange(l, m, r, compare);
        SortTwo(compare, a, b);
      } else {
        SortShort(compare, s);
      }
    }

    /** Merges the sorted halves `p[l..m + 1]` and `p[m + 1..r + 1]`; nothing outside
        `p[l..r + 1]` is written. */
    method MergeRange(l: int, m: int, r: int, compare: Comparison<T>)
      requires 0 <= l <= m < r < p.Length
      modifies p
      ensures p[l..r + 1] == Merge(compare, old(p[l..m + 1]), old(p[m + 1..r + 1]))
      ensures forall i :: 0 <= i < p.Length && !(l <= i <= r) ==> p[i] == old(p[i])
    {
      hide Merge;
      var L := CopyOf(l, m - l + 1);
      var R := CopyOf(m + 1, r - m);
      MergeInto(l, L, R, compare);
    }

    /** Writes the merge of the two copies to `p[l..]`. */
    method MergeInto(l: int, L: array<T>, R: array<T>, compare: Comparison<T>)
      requires 0 <= l <= l + L.Length + R.Length <= p.Length && L != p && R != p
      modifies p
      ensures p[l..l + L.Length + R.Length] == Merge(compare, L[..], R[..])
      ensures forall i :: 0 <= i < p.Length && !(l <= i < l + L.Length + R.Length) ==> p[i] == old(p[i])
    {
      hide Merge;
      var n1, n2 := L.Length, R.Length;
      ghost var a, b := L[..], R[..];
      ghost var merged := Merge(compare, a, b);

      var i, j, k := 0, 0, l;
      assert a[0..] == a && b[0..] == b && merged[0..] == merged;
      while i < n1 && j < n2
        invariant 0 <= i <= n1 && 0 <= j <= n2 && k == l + i + j
        invariant merged[k - l..] == Merge(compare, a[i..], b[j..])
        invariant forall x :: l <= x < k ==> p[x] == merged[x - l]
        invariant forall x :: 0 <= x < p.Length && !(l <= x < k) ==> p[x] == old(p[x])
        modifies p
      {
        MergeStep(compare, merged, k - l, a, b, i, j);
        var comparison := compare(L[i], R[j]);
        if comparison == Ascendent || comparison == Same {
          p[k] := L[i];
          i := i + 1;
        } else {
          p[k] := R[j];
          j := j + 1;
        }
        k := k + 1;
      }

      // One of the two is used up; what the other has left follows in order.
      MergeEnd(compare, merged, k - l, a, b, i, j);
      CopyRest(L, i, k);
      CopyRest(R, j, k + n1 - i);
    }

    /** Copies `src[from..]` to `p[k..]`. */
    method CopyRest(src: array<T>, from: int, k: int)
      requires 0 <= from <= src.Length && 0 <= k <= k + src.Length - from <= p.Length && src != p
      modifies p
      ensures forall x :: k <= x < k + src.Length - from ==> p[x] == src[x - k + from]
      ensures forall x :: 0 <= x < p.Length && !(k <= x < k + src.Length - from) ==> p[x] == old(p[x])
    {
      var i := from;
      while i < src.Length
        invariant from <= i <= src.Length
        invariant forall x :: k <= x < k + i - from ==> p[x] == src[x - k + from]
        invariant forall x :: 0 <= x < p.Length && !(k <= x < k + i - from) ==> p[x] == old(p[x])
        modifies p
      {
        p[k + i - from] := src[i];
        i := i + 1;
      }
    }

    /** A temporary array holding `p[from..from + n]`. */
    method CopyOf(from: int, n: int) returns (t: array<T>)
      requires 0 <= from <= from + n <= p.Length
      ensures fresh(t) && t[..] == p[from..from + n]
    {
      t := new T[n];
      forall i | 0 <= i < n {
        t[i] := p[from + i];
      }
    }
  }

  lemma LastIndex(size: nat)
    requires size < 0x8000_0000
    ensures ToInt32(Wrap32(size - 1)) == size - 1
  {}

  lemma SortShort<T>(compare: Comparison<T>, s: seq<T>)
    requires |s| <= 1
    ensures MergeSortSpec.MergeSort(compare, s) == s
  {}

  lemma SortTwo<T>(compare: Comparison<T>, a: seq<T>, b: seq<T>)
    requires |a| == (|a| + |b| - 1) / 2 + 1 && b != []
    ensures MergeSortSpec.MergeSort(compare, a + b) ==
            Merge(compare, MergeSortSpec.MergeSort(compare, a), MergeSortSpec.MergeSort(compare, b))
  {
    var s := a + b;
    assert s[..|a|] == a && s[|a|..] == b;
  }

  lemma MergeStep<T>(compare: Comparison<T>, merged: seq<T>, k: nat, a: seq<T>, b: seq<T>, i: nat, j: nat)
    requires i < |a| && j < |b| && k <= |merged|
    requires merged[k..] == Merge(compare, a[i..], b[j..])
    ensures k < |merged|
    ensures Before(compare, a[i], b[j]) ==>
              merged[k] == a[i] && merged[k + 1..] == Merge(compare, a[i + 1..], b[j..])
    ensures !Before(compare, a[i], b[j]) ==>
              merged[k] == b[j] && merged[k + 1..] == Merge(compare, a[i..], b[j + 1..])
  {
    assert a[i..][1..] == a[i + 1..] && b[j..][1..] == b[j + 1..];
    assert merged[k] == merged[k..][0] && merged[k + 1..] == merged[k..][1..];
  }

  lemma MergeEnd<T>(compare: Comparison<T>, merged: seq<T>, k: nat, a: seq<T>, b: seq<T>, i: nat, j: nat)
    requires k <= |merged| && i <= |a| && j <= |b| && (i == |a| || j == |b|)
    requires merged[k..] == Merge(compare, a[i..], b[j..])
    ensures |merged| == k + (|a| - i) + (|b| - j)
    ensures forall x :: k <= x < k + |a| - i ==> merged[x] == a[x - k + i]
    ensures forall x :: k + |a| - i <= x < |merged| ==> merged[x] == b[x - k - (|a| - i) + j]
  {
    var rest := a[i..] + b[j..];
    assert merged[k..] == rest;
    forall x | k <= x < |merged| ensures merged[x] == rest[x - k] { assert merged[x] == merged[k..][x - k]; }
  }
}
