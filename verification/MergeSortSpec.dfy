/** Bottom-up merge sort as a function on node sequences, with its correctness theorems. */
module MergeSortSpec {
  import opened Common
  import opened LinkedLists

  ghost predicate Sorted<T>(cmp: (T, T) -> int, s: seq<Node<T>>) {
    forall i, j :: 0 <= i < j < |s| ==> cmp(s[i].item, s[j].item) <= 0
  }

  predicate Equivalent<T>(cmp: (T, T) -> int, a: T, b: T) {
    cmp(a, b) <= 0 && cmp(b, a) <= 0
  }

  /** The nodes that compare equal to `e`, in their order in `s`. */
  function Class<T>(cmp: (T, T) -> int, e: T, s: seq<Node<T>>): seq<Node<T>> {
    if s == [] then []
    else (if Equivalent(cmp, s[0].item, e) then [s[0]] else []) + Class(cmp, e, s[1..])
  }

  /** Merges two runs, preferring the left one on ties. */
  function Merge<T>(cmp: (T, T) -> int, p: seq<Node<T>>, q: seq<Node<T>>): seq<Node<T>>
    decreases |p| + |q|
  {
    if p == [] then q
    else if q == [] then p
    else if cmp(p[0].item, q[0].item) <= 0 then [p[0]] + Merge(cmp, p[1..], q)
    else [q[0]] + Merge(cmp, p, q[1..])
  }

  /** One pass: merges each pair of adjacent runs of `k` nodes. */
  function Pass<T>(cmp: (T, T) -> int, s: seq<Node<T>>, k: nat): seq<Node<T>>
    requires k > 0
    decreases |s|
  {
    if s == [] then []
    else
      var m := Min(k, |s|);
      var n := Min(2 * k, |s|);
      Merge(cmp, s[..m], s[m..n]) + Pass(cmp, s[n..], k)
  }

  /** Passes with doubling run length until a pass has at most one merge left to do. */
  function Sort<T>(cmp: (T, T) -> int, s: seq<Node<T>>, k: nat): (r: seq<Node<T>>)
    requires k > 0
    decreases if k < |s| then |s| - k else 0
  {
    if |s| <= 2 * k then Pass(cmp, s, k)
    else PassLength(cmp, s, k); Sort(cmp, Pass(cmp, s, k), 2 * k)
  }

  // ---------- permutation ----------

  lemma {:induction false} MergePerm<T>(cmp: (T, T) -> int, p: seq<Node<T>>, q: seq<Node<T>>)
    ensures multiset(Merge(cmp, p, q)) == multiset(p) + multiset(q)
    ensures |Merge(cmp, p, q)| == |p| + |q|
    decreases |p| + |q|
  {
    if p == [] || q == [] {
    } else if cmp(p[0].item, q[0].item) <= 0 {
      assert p == [p[0]] + p[1..];
      MergePerm(cmp, p[1..], q);
    } else {
      assert q == [q[0]] + q[1..];
      MergePerm(cmp, p, q[1..]);
    }
  }

  lemma Parts<T>(s: seq<Node<T>>, m: nat, n: nat)
    requires m <= n <= |s|
    ensures multiset(s) == multiset(s[..m]) + multiset(s[m..n]) + multiset(s[n..])
  {
    assert s == s[..m] + s[m..n] + s[n..];
  }

  lemma PassUnfold<T>(cmp: (T, T) -> int, s: seq<Node<T>>, k: nat, m: nat, n: nat)
    requires k > 0 && s != [] && m == Min(k, |s|) && n == Min(2 * k, |s|)
    ensures Pass(cmp, s, k) == Merge(cmp, s[..m], s[m..n]) + Pass(cmp, s[n..], k)
  {
  }

  lemma {:induction false} PassPerm<T>(cmp: (T, T) -> int, s: seq<Node<T>>, k: nat)
    requires k > 0
    ensures multiset(Pass(cmp, s, k)) == multiset(s)
    decreases |s|
  {
    hide Merge;
    if s != [] {
      var m, n := Min(k, |s|), Min(2 * k, |s|);
      MergePerm(cmp, s[..m], s[m..n]);
      PassPerm(cmp, s[n..], k);
      PassUnfold(cmp, s, k, m, n);
      Parts(s, m, n);
    }
  }

  lemma PassLength<T>(cmp: (T, T) -> int, s: seq<Node<T>>, k: nat)
    requires k > 0
    ensures |Pass(cmp, s, k)| == |s|
  {
    PassPerm(cmp, s, k);
    assert |multiset(Pass(cmp, s, k))| == |multiset(s)|;
  }

  lemma {:induction false} SortPerm<T>(cmp: (T, T) -> int, s: seq<Node<T>>, k: nat)
    requires k > 0
    ensures multiset(Sort(cmp, s, k)) == multiset(s)
    decreases if k < |s| then |s| - k else 0
  {
    PassPerm(cmp, s, k);
    PassLength(cmp, s, k);
    if |s| > 2 * k {
      SortPerm(cmp, Pass(cmp, s, k), 2 * k);
    }
  }

  // ---------- sortedness ----------

  /** Every run of `k` nodes that starts at a multiple of `k` is sorted. */
  ghost predicate Runs<T>(cmp: (T, T) -> int, s: seq<Node<T>>, k: nat)
    requires k > 0
    decreases |s|
  {
    s == [] || (Sorted(cmp, s[..Min(k, |s|)]) && Runs(cmp, s[Min(k, |s|)..], k))
  }

  lemma {:induction false} MergeSorted<T(!new)>(cmp: (T, T) -> int, p: seq<Node<T>>, q: seq<Node<T>>)
    requires TotalPreorder(cmp) && Sorted(cmp, p) && Sorted(cmp, q)
    ensures Sorted(cmp, Merge(cmp, p, q))
    decreases |p| + |q|
  {
    if p == [] || q == [] {
    } else if cmp(p[0].item, q[0].item) <= 0 {
      MergeSorted(cmp, p[1..], q);
      ConsSorted(cmp, p[0], Merge(cmp, p[1..], q), p[1..], q);
    } else {
      MergeSorted(cmp, p, q[1..]);
      ConsSorted(cmp, q[0], Merge(cmp, p, q[1..]), p, q[1..]);
    }
  }

  /** A lower bound of `p` and `q` may be put before any merge `r` of them. */
  lemma ConsSorted<T(!new)>(cmp: (T, T) -> int, x: Node<T>, r: seq<Node<T>>, p: seq<Node<T>>, q: seq<Node<T>>)
    requires TotalPreorder(cmp) && Sorted(cmp, p) && Sorted(cmp, q) && Sorted(cmp, r)
    requires r == Merge(cmp, p, q)
    requires p != [] ==> cmp(x.item, p[0].item) <= 0
    requires q != [] ==> cmp(x.item, q[0].item) <= 0
    ensures Sorted(cmp, [x] + r)
  {
    hide Merge;
    MergePerm(cmp, p, q);
    forall i | 0 <= i < |r| ensures cmp(x.item, r[i].item) <= 0 {
      assert r[i] in multiset(r);
      if r[i] in p {
        var j :| 0 <= j < |p| && p[j] == r[i];
      } else {
        assert r[i] in q;
        var j :| 0 <= j < |q| && q[j] == r[i];
      }
    }
  }

  lemma {:induction false} PassRuns<T(!new)>(cmp: (T, T) -> int, s: seq<Node<T>>, k: nat)
    requires k > 0 && TotalPreorder(cmp) && Runs(cmp, s, k)
    ensures Runs(cmp, Pass(cmp, s, k), 2 * k)
    decreases |s|
  {
    if s != [] {
      var m, n := Min(k, |s|), Min(2 * k, |s|);
      RunsPair(cmp, s, k);
      var head, rest := Merge(cmp, s[..m], s[m..n]), Pass(cmp, s[n..], k);
      MergeSorted(cmp, s[..m], s[m..n]);
      MergePerm(cmp, s[..m], s[m..n]);
      PassRuns(cmp, s[n..], k);
      PassLength(cmp, s[n..], k);
      assert (head + rest)[..Min(2 * k, |head + rest|)] == head;
      assert (head + rest)[Min(2 * k, |head + rest|)..] == rest;
    }
  }

  lemma RunsPair<T(!new)>(cmp: (T, T) -> int, s: seq<Node<T>>, k: nat)
    requires k > 0 && s != [] && Runs(cmp, s, k)
    ensures Sorted(cmp, s[..Min(k, |s|)]) && Sorted(cmp, s[Min(k, |s|)..Min(2 * k, |s|)])
    ensures Runs(cmp, s[Min(2 * k, |s|)..], k)
  {
    var m, n := Min(k, |s|), Min(2 * k, |s|);
    var t := s[m..];
    assert t[..Min(k, |t|)] == s[m..n];
    assert t[Min(k, |t|)..] == s[n..];
  }

  lemma {:induction false} SortSortedFrom<T(!new)>(cmp: (T, T) -> int, s: seq<Node<T>>, k: nat)
    requires k > 0 && TotalPreorder(cmp) && Runs(cmp, s, k)
    ensures Sorted(cmp, Sort(cmp, s, k))
    decreases if k < |s| then |s| - k else 0
  {
    var t := Pass(cmp, s, k);
    PassRuns(cmp, s, k);
    PassLength(cmp, s, k);
    if |s| <= 2 * k {
      assert t[..Min(2 * k, |t|)] == t;
    } else {
      SortSortedFrom(cmp, t, 2 * k);
    }
  }

  lemma {:induction false} SingletonRuns<T>(cmp: (T, T) -> int, s: seq<Node<T>>)
    ensures Runs(cmp, s, 1)
    decreases |s|
  {
    if s != [] {
      SingletonRuns(cmp, s[1..]);
    }
  }

  // ---------- stability ----------

  lemma ClassCons<T>(cmp: (T, T) -> int, e: T, x: Node<T>, s: seq<Node<T>>)
    ensures Class(cmp, e, [x] + s) == Share(cmp, e, x) + Class(cmp, e, s)
  {
    hide Equivalent;
    assert ([x] + s)[1..] == s;
  }

  /** The part of one node in Class. */
  function Share<T>(cmp: (T, T) -> int, e: T, x: Node<T>): seq<Node<T>> {
    if Equivalent(cmp, x.item, e) then [x] else []
  }

  lemma {:induction false} ClassAppend<T>(cmp: (T, T) -> int, e: T, s: seq<Node<T>>, t: seq<Node<T>>)
    ensures Class(cmp, e, s + t) == Class(cmp, e, s) + Class(cmp, e, t)
    decreases |s|
  {
    if s == [] {
      assert s + t == t;
    } else {
      var x, s' := s[0], s[1..];
      assert s == [x] + s' && s + t == [x] + (s' + t);
      hide Class, Share;
      ClassAppend(cmp, e, s', t);
      ClassCons(cmp, e, x, s');
      ClassCons(cmp, e, x, s' + t);
      Assoc(Share(cmp, e, x), Class(cmp, e, s'), Class(cmp, e, t));
    }
  }

  lemma ClassSplit<T>(cmp: (T, T) -> int, e: T, s: seq<Node<T>>, m: nat, n: nat)
    requires m <= n <= |s|
    ensures Class(cmp, e, s) == Class(cmp, e, s[..m]) + Class(cmp, e, s[m..n]) + Class(cmp, e, s[n..])
  {
    ClassAppend(cmp, e, s[..m], s[m..n]);
    ClassAppend(cmp, e, s[..n], s[n..]);
    assert s[..n] == s[..m] + s[m..n] && s == s[..n] + s[n..];
  }

  /** A class none of whose members occurs in `s` contributes nothing. */
  lemma {:induction false} ClassAbsent<T>(cmp: (T, T) -> int, e: T, s: seq<Node<T>>)
    requires forall i :: 0 <= i < |s| ==> !Equivalent(cmp, s[i].item, e)
    ensures Class(cmp, e, s) == []
    decreases |s|
  {
    if s != [] {
      ClassAbsent(cmp, e, s[1..]);
    }
  }

  /** A node that goes strictly before an ordered run has no equal in it. */
  lemma NoEqualBehind<T(!new)>(cmp: (T, T) -> int, e: T, x: Node<T>, p: seq<Node<T>>)
    requires TotalPreorder(cmp) && Sorted(cmp, p) && p != [] && cmp(p[0].item, x.item) > 0
    ensures Share(cmp, e, x) == [] || Class(cmp, e, p) == []
  {
    if Equivalent(cmp, x.item, e) {
      forall i | 0 <= i < |p| ensures !Equivalent(cmp, p[i].item, e) {
        assert i == 0 || cmp(p[0].item, p[i].item) <= 0;
      }
      ClassAbsent(cmp, e, p);
    }
  }

  lemma Exchange<T>(a: seq<T>, b: seq<T>, c: seq<T>)
    requires a == [] || b == []
    ensures a + (b + c) == b + (a + c)
  {
  }

  lemma {:induction false} MergeStable<T(!new)>(cmp: (T, T) -> int, e: T, p: seq<Node<T>>, q: seq<Node<T>>)
    requires TotalPreorder(cmp) && Sorted(cmp, p)
    ensures Class(cmp, e, Merge(cmp, p, q)) == Class(cmp, e, p) + Class(cmp, e, q)
    decreases |p| + |q|
  {
    hide TotalPreorder, Equivalent, Share;
    if p == [] || q == [] {
    } else if cmp(p[0].item, q[0].item) <= 0 {
      var m := Merge(cmp, p[1..], q);
      assert Merge(cmp, p, q) == [p[0]] + m && p == [p[0]] + p[1..];
      assert Sorted(cmp, p[1..]);
      hide Merge, Class, Sorted;
      MergeStable(cmp, e, p[1..], q);
      ClassCons(cmp, e, p[0], m);
      ClassCons(cmp, e, p[0], p[1..]);
      Assoc(Share(cmp, e, p[0]), Class(cmp, e, p[1..]), Class(cmp, e, q));
    } else {
      var m := Merge(cmp, p, q[1..]);
      assert Merge(cmp, p, q) == [q[0]] + m && q == [q[0]] + q[1..];
      hide Merge, Class, Sorted;
      MergeStable(cmp, e, p, q[1..]);
      ClassCons(cmp, e, q[0], m);
      ClassCons(cmp, e, q[0], q[1..]);
      NoEqualBehind(cmp, e, q[0], p);
      Exchange(Share(cmp, e, q[0]), Class(cmp, e, p), Class(cmp, e, q[1..]));
    }
  }

  lemma {:induction false} PassStable<T(!new)>(cmp: (T, T) -> int, e: T, s: seq<Node<T>>, k: nat)
    requires k > 0 && TotalPreorder(cmp) && Runs(cmp, s, k)
    ensures Class(cmp, e, Pass(cmp, s, k)) == Class(cmp, e, s)
    decreases |s|
  {
    if s != [] {
      var m, n := Min(k, |s|), Min(2 * k, |s|);
      RunsPair(cmp, s, k);
      MergeStable(cmp, e, s[..m], s[m..n]);
      PassStable(cmp, e, s[n..], k);
      ClassAppend(cmp, e, Merge(cmp, s[..m], s[m..n]), Pass(cmp, s[n..], k));
      ClassSplit(cmp, e, s, m, n);
    }
  }

  lemma {:induction false} SortStableFrom<T(!new)>(cmp: (T, T) -> int, e: T, s: seq<Node<T>>, k: nat)
    requires k > 0 && TotalPreorder(cmp) && Runs(cmp, s, k)
    ensures Class(cmp, e, Sort(cmp, s, k)) == Class(cmp, e, s)
    decreases if k < |s| then |s| - k else 0
  {
    PassStable(cmp, e, s, k);
    PassRuns(cmp, s, k);
    PassLength(cmp, s, k);
    if |s| > 2 * k {
      SortStableFrom(cmp, e, Pass(cmp, s, k), 2 * k);
    }
  }

  // ---------- the theorem ----------

  /** `r` is the stable sort of `s`: ordered, the same nodes, ties in their old order. */
  ghost predicate StableSortOf<T(!new)>(cmp: (T, T) -> int, r: seq<Node<T>>, s: seq<Node<T>>) {
    && Sorted(cmp, r)
    && multiset(r) == multiset(s)
    && (forall e :: Class(cmp, e, r) == Class(cmp, e, s))
  }

  lemma SortCorrect<T(!new)>(cmp: (T, T) -> int, s: seq<Node<T>>)
    requires TotalPreorder(cmp)
    ensures StableSortOf(cmp, Sort(cmp, s, 1), s)
  {
    SingletonRuns(cmp, s);
    SortSortedFrom(cmp, s, 1);
    SortPerm(cmp, s, 1);
    forall e ensures Class(cmp, e, Sort(cmp, s, 1)) == Class(cmp, e, s) {
      SortStableFrom(cmp, e, s, 1);
    }
  }

  /** There is only one stable sort, so the specification fixes the result completely. */
  lemma {:induction false} StableSortUnique<T(!new)>(cmp: (T, T) -> int, r: seq<Node<T>>, t: seq<Node<T>>)
    requires TotalPreorder(cmp)
    requires Sorted(cmp, r) && Sorted(cmp, t)
    requires forall e :: Class(cmp, e, r) == Class(cmp, e, t)
    ensures r == t
    decreases |r|
  {
    if r == [] {
      if t != [] {
        HeadIsLeast(cmp, t, r);
      }
    } else {
      HeadIsLeast(cmp, r, t);
      HeadIsLeast(cmp, t, r);
      var e := r[0].item;
      assert Class(cmp, e, r) == Class(cmp, e, t);
      assert Equivalent(cmp, t[0].item, e);
      assert r[0] == Class(cmp, e, r)[0] == Class(cmp, e, t)[0] == t[0];
      hide Class, TotalPreorder, Equivalent;
      forall f ensures Class(cmp, f, r[1..]) == Class(cmp, f, t[1..]) {
        assert Class(cmp, f, r) == Class(cmp, f, t);
        TailClass(cmp, f, r, t);
      }
      StableSortUnique(cmp, r[1..], t[1..]);
      assert r == [r[0]] + r[1..] && t == [t[0]] + t[1..];
    }
  }

  lemma TailClass<T>(cmp: (T, T) -> int, e: T, r: seq<Node<T>>, t: seq<Node<T>>)
    requires r != [] && t != [] && r[0] == t[0] && Class(cmp, e, r) == Class(cmp, e, t)
    ensures Class(cmp, e, r[1..]) == Class(cmp, e, t[1..])
  {
    hide Equivalent;
    var first := if Equivalent(cmp, r[0].item, e) then [r[0]] else [];
    assert Class(cmp, e, r) == first + Class(cmp, e, r[1..]);
    assert Class(cmp, e, t) == first + Class(cmp, e, t[1..]);
    hide Class;
    assert Class(cmp, e, r)[|first|..] == Class(cmp, e, r[1..]);
    assert Class(cmp, e, t)[|first|..] == Class(cmp, e, t[1..]);
  }

  /** Each head is bounded by the other: its class is represented in both sequences. */
  lemma HeadIsLeast<T(!new)>(cmp: (T, T) -> int, r: seq<Node<T>>, t: seq<Node<T>>)
    requires TotalPreorder(cmp) && r != [] && Sorted(cmp, t)
    requires forall e :: Class(cmp, e, r) == Class(cmp, e, t)
    ensures t != [] && cmp(t[0].item, r[0].item) <= 0
  {
    var e := r[0].item;
    assert cmp(e, e) <= 0;
    assert r[0] in Class(cmp, e, r);
    assert Class(cmp, e, r) == Class(cmp, e, t);
    ClassMember(cmp, e, t, r[0]);
  }

  lemma {:induction false} ClassMember<T>(cmp: (T, T) -> int, e: T, s: seq<Node<T>>, x: Node<T>)
    requires x in Class(cmp, e, s)
    ensures x in s && Equivalent(cmp, x.item, e)
    decreases |s|
  {
    if x != s[0] || !Equivalent(cmp, s[0].item, e) {
      ClassMember(cmp, e, s[1..], x);
    }
  }
}
