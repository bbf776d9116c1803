/** Heap sort over an array of `cnt` elements of `size` bytes each, swapped byte by byte. */
module HeapSort {
  import opened Common

  type Elem = seq<Byte>
  type Compare = (Elem, Elem) -> int

  ghost predicate Sorted(compare: Compare, s: seq<Elem>) {
    forall i, j :: 0 <= i < j < |s| ==> compare(s[i], s[j]) <= 0
  }

  // ---------- the byte array as a sequence of elements ----------

  lemma Fits(i: nat, cnt: nat, size: nat)
    requires i < cnt
    ensures i * size + size <= cnt * size
  {
    assert (i + 1) * size <= cnt * size;
  }

  lemma Apart(i: nat, j: nat, size: nat)
    requires i < j
    ensures i * size + size <= j * size
  {
    Fits(i, j, size);
  }

  /** The element with 0-based index `i`. */
  function At(bytes: seq<Byte>, i: nat, size: nat): Elem
    requires i * size + size <= |bytes|
  {
    bytes[i * size..i * size + size]
  }

  ghost function Elems(bytes: seq<Byte>, cnt: nat, size: nat): (s: seq<Elem>)
    requires |bytes| == cnt * size
    ensures |s| == cnt
    ensures forall i :: 0 <= i < cnt ==> i * size + size <= |bytes| && s[i] == At(bytes, i, size)
  {
    forall i | 0 <= i < cnt ensures i * size + size <= |bytes| { Fits(i, cnt, size); }
    seq(cnt, i requires 0 <= i < cnt => At(bytes, i, size))
  }

  /** Swaps 1-based elements `aIdx` and `bIdx`. */
  method DoSwap(a: array<Byte>, aIdx: nat, bIdx: nat, size: nat, ghost cnt: nat)
    requires a.Length == cnt * size && 1 <= aIdx <= cnt && 1 <= bIdx <= cnt
    modifies a
    ensures Elems(a[..], cnt, size) == Swap(old(Elems(a[..], cnt, size)), aIdx, bIdx)
  {
    hide Elems;
    Fits(aIdx - 1, cnt, size);
    Fits(bIdx - 1, cnt, size);
    if aIdx < bIdx { Apart(aIdx - 1, bIdx - 1, size); }
    if bIdx < aIdx { Apart(bIdx - 1, aIdx - 1, size); }
    ghost var was := a[..];
    var p, q := (aIdx - 1) * size, (bIdx - 1) * size;
    SwapBytes(a, p, q, size);
    SwappedElems(was, a[..], aIdx - 1, bIdx - 1, p, q, cnt, size);
  }

  ghost predicate SwappedBytes(was: seq<Byte>, now: seq<Byte>, p: nat, q: nat, size: nat) {
    && |now| == |was| && p + size <= |was| && q + size <= |was|
    && now[p..p + size] == was[q..q + size] && now[q..q + size] == was[p..p + size]
    && (forall k :: 0 <= k < |was| && !(p <= k < p + size) && !(q <= k < q + size) ==> now[k] == was[k])
  }

  /** The byte loop of do_swap, for two places that coincide or do not overlap. */
  method SwapBytes(a: array<Byte>, p: nat, q: nat, size: nat)
    requires p + size <= a.Length && q + size <= a.Length && (p == q || p + size <= q || q + size <= p)
    modifies a
    ensures SwappedBytes(old(a[..]), a[..], p, q, size)
  {
    hide SwappedBytes;
    for i := 0 to size
      invariant forall k :: p <= k < p + i ==> a[k] == old(a[k - p + q])
      invariant forall k :: q <= k < q + i ==> a[k] == old(a[k - q + p])
      invariant forall k :: 0 <= k < a.Length && !(p <= k < p + i) && !(q <= k < q + i) ==> a[k] == old(a[k])
    {
      var t := a[p + i];
      a[p + i] := a[q + i];
      a[q + i] := t;
    }
    SlicesSwapped(old(a[..]), a[..], p, q, size);
  }

  lemma SlicesSwapped(was: seq<Byte>, now: seq<Byte>, p: nat, q: nat, size: nat)
    requires |now| == |was| && p + size <= |was| && q + size <= |was|
    requires forall k :: p <= k < p + size ==> now[k] == was[k - p + q]
    requires forall k :: q <= k < q + size ==> now[k] == was[k - q + p]
    requires forall k :: 0 <= k < |was| && !(p <= k < p + size) && !(q <= k < q + size) ==> now[k] == was[k]
    ensures SwappedBytes(was, now, p, q, size)
  {
  }

  method DoCompare(a: array<Byte>, aIdx: nat, bIdx: nat, size: nat, compare: Compare, ghost cnt: nat) returns (r: int)
    requires a.Length == cnt * size && 1 <= aIdx <= cnt && 1 <= bIdx <= cnt
    ensures var s := Elems(a[..], cnt, size); r == compare(s[aIdx - 1], s[bIdx - 1])
  {
    hide Elems;
    Fits(aIdx - 1, cnt, size);
    Fits(bIdx - 1, cnt, size);
    var p, q := (aIdx - 1) * size, (bIdx - 1) * size;
    assert a[p..p + size] == At(a[..], aIdx - 1, size) && a[q..q + size] == At(a[..], bIdx - 1, size);
    r := compare(a[p..p + size], a[q..q + size]);
  }

  lemma SwappedElems(was: seq<Byte>, now: seq<Byte>, i: nat, j: nat, p: nat, q: nat, cnt: nat, size: nat)
    requires |was| == |now| == cnt * size && i < cnt && j < cnt && p == i * size && q == j * size
    requires SwappedBytes(was, now, p, q, size)
    ensures Elems(now, cnt, size) == Swap(Elems(was, cnt, size), i + 1, j + 1)
  {
    var s, t := Elems(was, cnt, size), Elems(now, cnt, size);
    forall m | 0 <= m < cnt ensures t[m] == Swap(s, i + 1, j + 1)[m] {
      Fits(m, cnt, size);
      if m != i && m != j {
        if m < i { Apart(m, i, size); } else { Apart(i, m, size); }
        if m < j { Apart(m, j, size); } else { Apart(j, m, size); }
        Outside(was, now, p, q, m * size, size);
      }
    }
  }

  lemma Outside(was: seq<Byte>, now: seq<Byte>, p: nat, q: nat, r: nat, size: nat)
    requires |was| == |now| && r + size <= |was|
    requires (r + size <= p || p + size <= r) && (r + size <= q || q + size <= r)
    requires forall k :: 0 <= k < |was| && !(p <= k < p + size) && !(q <= k < q + size) ==> now[k] == was[k]
    ensures now[r..r + size] == was[r..r + size]
  {
  }

  // ---------- heaps ----------

  /** Every element with parent at 1-based index `lo` or above, within the first `n`, is at most its parent. */
  ghost predicate HeapFrom(compare: Compare, s: seq<Elem>, lo: nat, n: nat)
    requires n <= |s|
  {
    forall c :: 2 <= c <= n && lo <= c / 2 ==> compare(s[c - 1], s[c / 2 - 1]) <= 0
  }

  /** The heap property with `i` still to be floated down: `i`'s children are at most `i`'s parent. */
  ghost predicate HeapExcept(compare: Compare, s: seq<Elem>, lo: nat, n: nat, i: nat)
    requires n <= |s|
  {
    && (forall c :: 2 <= c <= n && lo <= c / 2 && c / 2 != i ==> compare(s[c - 1], s[c / 2 - 1]) <= 0)
    && (forall c :: 2 <= c <= n && c / 2 == i && 1 <= i / 2 && lo <= i / 2 ==> compare(s[c - 1], s[i / 2 - 1]) <= 0)
  }

  ghost function Swap(s: seq<Elem>, i: nat, j: nat): (r: seq<Elem>)
    requires 1 <= i <= |s| && 1 <= j <= |s|
    ensures |r| == |s|
  {
    s[i - 1 := s[j - 1]][j - 1 := s[i - 1]]
  }

  /** One step down: `max` is the child of `i` that no other child exceeds. */
  lemma FloatDown(compare: Compare, s: seq<Elem>, lo: nat, n: nat, i: nat, max: nat)
    requires n <= |s| && 1 <= lo <= i <= n && max <= n
    requires max == 2 * i || max == 2 * i + 1
    requires HeapExcept(compare, s, lo, n, i)
    requires compare(s[i - 1], s[max - 1]) <= 0
    requires forall c :: 2 <= c <= n && c / 2 == i ==> compare(s[c - 1], s[max - 1]) <= 0
    ensures HeapExcept(compare, Swap(s, i, max), lo, n, max)
  {
    var t := Swap(s, i, max);
    forall c | 2 <= c <= n && lo <= c / 2 && c / 2 != max ensures compare(t[c - 1], t[c / 2 - 1]) <= 0 {
      if c == i {
        assert max / 2 == i && lo <= i / 2;
        assert compare(s[max - 1], s[i / 2 - 1]) <= 0;
      } else if c == max {
        assert compare(s[i - 1], s[max - 1]) <= 0;
      } else if c / 2 == i {
        assert compare(s[c - 1], s[max - 1]) <= 0;
      } else {
        assert compare(s[c - 1], s[c / 2 - 1]) <= 0;
      }
    }
    forall c | 2 <= c <= n && c / 2 == max ensures compare(t[c - 1], t[i - 1]) <= 0 {
      assert compare(s[c - 1], s[c / 2 - 1]) <= 0;
    }
  }

  /** The index that the two comparisons of one round of heapify select. */
  ghost function MaxOf3(compare: Compare, s: seq<Elem>, i: nat, n: nat): (max: nat)
    requires 1 <= i <= n <= |s|
    ensures i <= max <= n && (max == i || max == 2 * i || max == 2 * i + 1)
  {
    var max := if 2 * i <= n && compare(s[2 * i - 1], s[i - 1]) > 0 then 2 * i else i;
    if 2 * i + 1 <= n && compare(s[2 * i], s[max - 1]) > 0 then 2 * i + 1 else max
  }

  lemma MaxIsGreatest(compare: Compare, s: seq<Elem>, i: nat, n: nat)
    requires TotalPreorder(compare) && 1 <= i <= n <= |s|
    ensures var max := MaxOf3(compare, s, i, n);
      && compare(s[i - 1], s[max - 1]) <= 0
      && (forall c :: 2 <= c <= n && c / 2 == i ==> compare(s[c - 1], s[max - 1]) <= 0)
  {
    var max := MaxOf3(compare, s, i, n);
    assert compare(s[i - 1], s[i - 1]) <= 0;
    if 2 * i + 1 <= n {
      assert compare(s[2 * i], s[max - 1]) <= 0 by { assert compare(s[max - 1], s[max - 1]) <= 0; }
    }
    forall c | 2 <= c <= n && c / 2 == i ensures compare(s[c - 1], s[max - 1]) <= 0 {
      assert c == 2 * i || c == 2 * i + 1;
      assert compare(s[c - 1], s[c - 1]) <= 0;
    }
  }

  /** If nothing moves, the heap is complete; otherwise the element moves to `max`. */
  lemma Round(compare: Compare, s: seq<Elem>, lo: nat, n: nat, i: nat)
    requires TotalPreorder(compare) && 1 <= lo <= i <= n <= |s| && HeapExcept(compare, s, lo, n, i)
    ensures var max := MaxOf3(compare, s, i, n);
      if max == i then HeapFrom(compare, s, lo, n) else HeapExcept(compare, Swap(s, i, max), lo, n, max)
  {
    MaxIsGreatest(compare, s, i, n);
    var max := MaxOf3(compare, s, i, n);
    if max != i {
      FloatDown(compare, s, lo, n, i, max);
    }
  }

  /** A permutation of the first `n` elements that leaves the rest, and everything before `lo`, alone. */
  ghost predicate Permutes(s: seq<Elem>, t: seq<Elem>, lo: nat, n: nat)
    requires n <= |s|
  {
    && |t| == |s|
    && multiset(t[..n]) == multiset(s[..n])
    && t[n..] == s[n..]
    && (forall k :: 0 <= k < lo - 1 && k < |s| ==> t[k] == s[k])
  }

  lemma SwapPerm(s: seq<Elem>, i: nat, j: nat)
    requires 1 <= i <= |s| && 1 <= j <= |s|
    ensures multiset(Swap(s, i, j)) == multiset(s)
  {
  }

  lemma SwapPermutes(r: seq<Elem>, s: seq<Elem>, lo: nat, n: nat, i: nat, j: nat)
    requires n <= |r| && Permutes(r, s, lo, n) && 1 <= lo <= i <= n && lo <= j <= n
    ensures Permutes(r, Swap(s, i, j), lo, n)
  {
    var t := Swap(s, i, j);
    assert t[..n] == s[..n][i - 1 := s[..n][j - 1]][j - 1 := s[..n][i - 1]];
    assert t[n..] == s[n..];
  }

  /** What heapify does to the elements, whether or not `compare` is an order. */
  ghost predicate Heapified(compare: Compare, s: seq<Elem>, t: seq<Elem>, i: nat, n: nat)
    requires n <= |s|
  {
    && Permutes(s, t, i, n)
    && (TotalPreorder(compare) && HeapFrom(compare, s, i + 1, n) ==> HeapFrom(compare, t, i, n))
  }

  /** The index of the largest element among `i` and its children, if any. */
  method LargestOf3(a: array<Byte>, i: nat, n: nat, size: nat, compare: Compare, ghost cnt: nat) returns (max: nat)
    requires size > 0 && a.Length == cnt * size && 1 <= i <= n <= cnt
    ensures max == MaxOf3(compare, Elems(a[..], cnt, size), i, n)
  {
    hide Elems;
    var left, right := 2 * i, 2 * i + 1;
    max := i;
    if left <= n {
      var c := DoCompare(a, left, max, size, compare, cnt);
      if c > 0 {
        max := left;
      }
    }
    if right <= n {
      var c := DoCompare(a, right, max, size, compare, cnt);
      if c > 0 {
        max := right;
      }
    }
  }

  /** "Float down" the element with 1-based index `i0`. */
  method Heapify(a: array<Byte>, i0: nat, n: nat, size: nat, compare: Compare, ghost cnt: nat)
    requires size > 0 && a.Length == cnt * size && 1 <= i0 <= n <= cnt
    modifies a
    ensures Heapified(compare, old(Elems(a[..], cnt, size)), Elems(a[..], cnt, size), i0, n)
  {
    hide Elems, HeapExcept, HeapFrom, TotalPreorder, Permutes, Swap, MaxOf3;
    var i := i0;
    ghost var was := Elems(a[..], cnt, size);
    ghost var s := was;
    StartRound(compare, s, i0, n);
    while true
      invariant i0 <= i <= n && |s| == cnt && s == Elems(a[..], cnt, size)
      invariant Permutes(was, s, i0, n)
      invariant TotalPreorder(compare) && HeapFrom(compare, was, i0 + 1, n) ==> HeapExcept(compare, s, i0, n, i)
      decreases n - i
    {
      var max := LargestOf3(a, i, n, size, compare, cnt);
      if TotalPreorder(compare) && HeapFrom(compare, was, i0 + 1, n) {
        Round(compare, s, i0, n, i);
      }
      if max == i {
        break;
      }
      DoSwap(a, i, max, size, cnt);
      SwapPermutes(was, s, i0, n, i, max);
      s := Swap(s, i, max);
      i := max;
    }
  }

  lemma StartRound(compare: Compare, s: seq<Elem>, i: nat, n: nat)
    requires 1 <= i <= n <= |s|
    ensures HeapFrom(compare, s, i + 1, n) ==> HeapExcept(compare, s, i, n, i)
    ensures Permutes(s, s, i, n)
  {
  }

  // ---------- sort ----------

  lemma {:induction false} RootIsGreatest(compare: Compare, s: seq<Elem>, n: nat, j: nat)
    requires TotalPreorder(compare) && 1 <= j <= n <= |s| && HeapFrom(compare, s, 1, n)
    ensures compare(s[j - 1], s[0]) <= 0
  {
    if j > 1 {
      RootIsGreatest(compare, s, n, j / 2);
      assert compare(s[j - 1], s[j / 2 - 1]) <= 0;
    }
  }

  /** The first `i` elements are a heap, the others sorted and at least as great as all of those. */
  ghost predicate SortedSuffix(compare: Compare, s: seq<Elem>, i: nat)
    requires i <= |s|
  {
    && HeapFrom(compare, s, 1, i)
    && Sorted(compare, s[i..])
    && (forall x, y :: 0 <= x < i <= y < |s| ==> compare(s[x], s[y]) <= 0)
  }

  lemma ExtractHeap(compare: Compare, s: seq<Elem>, i: nat)
    requires 2 <= i <= |s| && HeapFrom(compare, s, 1, i)
    ensures HeapFrom(compare, Swap(s, 1, i), 2, i - 1)
  {
    forall c | 2 <= c <= i - 1 && 2 <= c / 2 ensures compare(Swap(s, 1, i)[c - 1], Swap(s, 1, i)[c / 2 - 1]) <= 0 {
      assert compare(s[c - 1], s[c / 2 - 1]) <= 0;
    }
  }

  lemma ExtractSorted(compare: Compare, s: seq<Elem>, t: seq<Elem>, i: nat)
    requires 2 <= i <= |s| && SortedSuffix(compare, s, i) && |t| == |s| && t[i - 1..] == Swap(s, 1, i)[i - 1..]
    ensures t[i - 1..] == [s[0]] + s[i..] && Sorted(compare, t[i - 1..])
  {
    hide HeapFrom;
    assert Swap(s, 1, i)[i - 1..] == [s[0]] + s[i..];
    forall y | 0 <= y < |s| - i ensures compare(s[0], s[i..][y]) <= 0 {
      assert s[i..][y] == s[i + y];
    }
  }

  /** Each element that stays in the heap was in it before, so the old root bounds it. */
  lemma ExtractBound(compare: Compare, s: seq<Elem>, t: seq<Elem>, i: nat, x: nat)
    requires TotalPreorder(compare) && 2 <= i <= |s| && HeapFrom(compare, s, 1, i)
    requires Permutes(Swap(s, 1, i), t, 1, i - 1) && x < i - 1
    ensures exists k :: 0 <= k < i && t[x] == s[k] && compare(s[k], s[0]) <= 0
  {
    hide HeapFrom, TotalPreorder;
    var m := Swap(s, 1, i);
    assert t[x] == t[..i - 1][x];
    assert t[x] in multiset(t[..i - 1]);
    assert t[x] in m[..i - 1];
    var k :| 0 <= k < i - 1 && m[..i - 1][k] == t[x];
    var k' := if k == 0 then i - 1 else k;
    assert s[k'] == t[x];
    RootIsGreatest(compare, s, i, k' + 1);
  }

  /** Swapping the root behind the heap and restoring the heap extends the sorted suffix. */
  lemma Extract(compare: Compare, s: seq<Elem>, t: seq<Elem>, i: nat)
    requires TotalPreorder(compare) && 2 <= i <= |s| && SortedSuffix(compare, s, i)
    requires Heapified(compare, Swap(s, 1, i), t, 1, i - 1)
    ensures SortedSuffix(compare, t, i - 1)
  {
    hide HeapFrom, TotalPreorder, Sorted;
    ExtractHeap(compare, s, i);
    ExtractSorted(compare, s, t, i);
    forall x, y | 0 <= x < i - 1 <= y < |t| ensures compare(t[x], t[y]) <= 0 {
      ExtractBound(compare, s, t, i, x);
      assert t[y] == t[i - 1..][y - (i - 1)] == if y == i - 1 then s[0] else s[y];
    }
  }

  /** One round of the second loop of sort. */
  method ExtractMax(a: array<Byte>, i: nat, size: nat, compare: Compare, ghost cnt: nat)
    requires size > 0 && a.Length == cnt * size && 2 <= i <= cnt
    modifies a
    ensures multiset(Elems(a[..], cnt, size)) == multiset(old(Elems(a[..], cnt, size)))
    ensures TotalPreorder(compare) && SortedSuffix(compare, old(Elems(a[..], cnt, size)), i)
        ==> SortedSuffix(compare, Elems(a[..], cnt, size), i - 1)
  {
    hide Elems, HeapFrom, TotalPreorder, SortedSuffix, Heapified, Swap;
    ghost var s := Elems(a[..], cnt, size);
    DoSwap(a, 1, i, size, cnt);
    ghost var m := Swap(s, 1, i);
    SwapPerm(s, 1, i);
    Heapify(a, 1, i - 1, size, compare, cnt);
    ghost var t := Elems(a[..], cnt, size);
    HeapifiedPerm(compare, m, t, 1, i - 1);
    if TotalPreorder(compare) && SortedSuffix(compare, s, i) {
      Extract(compare, s, t, i);
    }
  }

  /** The array is permuted whatever `compare` is, and sorted if it is a total preorder. */
  method Sort(a: array<Byte>, cnt: nat, size: nat, compare: Compare)
    requires size > 0 && a.Length == cnt * size
    modifies a
    ensures multiset(Elems(a[..], cnt, size)) == multiset(old(Elems(a[..], cnt, size)))
    ensures TotalPreorder(compare) ==> Sorted(compare, Elems(a[..], cnt, size))
  {
    hide Elems, HeapFrom, TotalPreorder, SortedSuffix, Heapified, Sorted;
    ghost var was := Elems(a[..], cnt, size);
    NoChildren(compare, was);
    var i := cnt / 2;
    while i > 0
      invariant 0 <= i <= cnt / 2
      invariant multiset(Elems(a[..], cnt, size)) == multiset(was)
      invariant TotalPreorder(compare) ==> HeapFrom(compare, Elems(a[..], cnt, size), i + 1, cnt)
    {
      ghost var s := Elems(a[..], cnt, size);
      Heapify(a, i, cnt, size, compare, cnt);
      HeapifiedPerm(compare, s, Elems(a[..], cnt, size), i, cnt);
      i := i - 1;
    }
    i := cnt;
    StartExtraction(compare, Elems(a[..], cnt, size));
    while i > 1
      invariant 0 <= i <= cnt
      invariant multiset(Elems(a[..], cnt, size)) == multiset(was)
      invariant TotalPreorder(compare) ==> SortedSuffix(compare, Elems(a[..], cnt, size), i)
    {
      ExtractMax(a, i, size, compare, cnt);
      i := i - 1;
    }
    if TotalPreorder(compare) {
      SuffixSorted(compare, Elems(a[..], cnt, size), i);
    }
  }

  lemma NoChildren(compare: Compare, s: seq<Elem>)
    ensures HeapFrom(compare, s, |s| / 2 + 1, |s|)
  {
  }

  lemma HeapifiedPerm(compare: Compare, s: seq<Elem>, t: seq<Elem>, i: nat, n: nat)
    requires n <= |s| && Heapified(compare, s, t, i, n)
    ensures multiset(t) == multiset(s) && |t| == |s|
    ensures TotalPreorder(compare) && HeapFrom(compare, s, i + 1, n) ==> HeapFrom(compare, t, i, n)
  {
    hide TotalPreorder, HeapFrom;
    assert s == s[..n] + s[n..] && t == t[..n] + t[n..];
  }

  lemma StartExtraction(compare: Compare, s: seq<Elem>)
    ensures HeapFrom(compare, s, 1, |s|) ==> SortedSuffix(compare, s, |s|)
  {
  }

  lemma SuffixSorted(compare: Compare, s: seq<Elem>, i: nat)
    requires i <= |s| && i <= 1 && SortedSuffix(compare, s, i)
    ensures Sorted(compare, s)
  {
    forall x, y | 0 <= x < y < |s| ensures compare(s[x], s[y]) <= 0 {
      if x >= i {
        assert s[x] == s[i..][x - i] && s[y] == s[i..][y - i];
      }
    }
  }
}
