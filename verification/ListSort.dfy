/** LL_SORT and DL_SORT: bottom-up merge sort that relinks the nodes in place. */
module ListSort {
  import opened Common
  import opened LinkedLists
  import opened MergeSortSpec

  // The ghost sequence `all` lists every node of the list being sorted: the output built so
  // far (`all[..a]`), what is left of the left run (`all[a..b]`), and the rest (`all[b..]`).

  /** All links are in order, except those that lead to the seams `a`, `c` and `b`. */
  ghost predicate Links<T>(all: seq<Node<T>>, a: nat, c: nat, b: nat)
    reads all
  {
    && NoDup(all)
    && a <= b <= |all|
    && (forall i {:trigger all[i].next} :: 0 <= i < |all| - 1 && i + 1 != a && i + 1 != b && i + 1 != c ==> all[i].next == all[i + 1])
    && (b < |all| ==> all[|all| - 1].next == null)
  }

  ghost predicate Shape<T>(all: seq<Node<T>>, a: nat, b: nat)
    reads all
  {
    Links(all, a, a, b)
  }

  /** Each node but the first points back to its predecessor. */
  ghost predicate BackLinks<T>(s: seq<Node<T>>)
    reads s
  {
    forall i {:trigger s[i].prev} :: 1 <= i < |s| ==> s[i].prev == s[i - 1]
  }

  /** `head` and `tail` delimit the output built so far; for DL_SORT its back links are in place. */
  ghost predicate Output<T>(dl: bool, head: Node?<T>, tail: Node?<T>, all: seq<Node<T>>, a: nat)
    requires a <= |all|
    reads all
  {
    head == First(all[..a]) && tail == Last(all[..a]) && (dl ==> BackLinks(all[..a]))
  }

  /** What the pass will return if it goes on from here. */
  ghost function Pending<T>(cmp: (T, T) -> int, all: seq<Node<T>>, a: nat, b: nat, qsize: nat, k: nat): seq<Node<T>>
    requires a <= b <= |all| && k > 0
  {
    var n := b + Min(qsize, |all| - b);
    all[..a] + Merge(cmp, all[a..b], all[b..n]) + Pass(cmp, all[n..], k)
  }

  /** Takes the node at `b` out and puts it at `a`. */
  ghost function MoveTo<T>(s: seq<Node<T>>, a: nat, b: nat): seq<Node<T>>
    requires a <= b < |s|
  {
    s[..a] + [s[b]] + s[a..b] + s[b + 1..]
  }

  /** The index in `s` of the node that MoveTo(s, a, b) has at `i`. */
  ghost function Origin(a: nat, b: nat, i: nat): nat
    requires a <= b
  {
    if i == a then b else if a < i <= b then i - 1 else i
  }

  lemma MoveToAt<T>(s: seq<Node<T>>, a: nat, b: nat, i: nat)
    requires a <= b < |s| && i < |s|
    ensures |MoveTo(s, a, b)| == |s| && MoveTo(s, a, b)[i] == s[Origin(a, b, i)]
  {
  }

  lemma MoveToPerm<T>(s: seq<Node<T>>, a: nat, b: nat)
    requires a <= b < |s|
    ensures multiset(MoveTo(s, a, b)) == multiset(s)
  {
    assert s == s[..a] + s[a..b] + [s[b]] + s[b + 1..];
  }

  lemma MoveToLinks<T>(s: seq<Node<T>>, a: nat, b: nat)
    requires a <= b < |s| && Shape(s, a, b)
    ensures Links(MoveTo(s, a, b), a, a + 1, b + 1)
  {
    MoveToPerm(s, a, b);
    var m := MoveTo(s, a, b);
    forall i | 0 <= i < |m| - 1 && i + 1 != a && i + 1 != a + 1 && i + 1 != b + 1 ensures m[i].next == m[i + 1] {
      MoveToAt(s, a, b, i);
      MoveToAt(s, a, b, i + 1);
      assert Origin(a, b, i + 1) == Origin(a, b, i) + 1;
    }
  }

  lemma MoveToSlices<T>(s: seq<Node<T>>, a: nat, b: nat, n: nat)
    requires a <= b < n <= |s|
    ensures |MoveTo(s, a, b)| == |s|
    ensures MoveTo(s, a, b)[..a + 1] == s[..a] + [s[b]]
    ensures MoveTo(s, a, b)[a + 1..b + 1] == s[a..b]
    ensures MoveTo(s, a, b)[b + 1..n] == s[b..n][1..]
    ensures MoveTo(s, a, b)[n..] == s[n..]
  {
  }

  lemma StartRun<T>(cmp: (T, T) -> int, all: seq<Node<T>>, a: nat, b: nat, k: nat)
    requires k > 0 && a < |all| && b == a + Min(k, |all| - a)
    ensures Pending(cmp, all, a, b, k, k) == all[..a] + Pass(cmp, all[a..], k)
  {
    hide Merge, Pass;
    var s := all[a..];
    var m, n := Min(k, |s|), Min(2 * k, |s|);
    PassUnfold(cmp, s, k, m, n);
    assert b + Min(k, |all| - b) == a + n;
    assert s[..m] == all[a..b] && s[m..n] == all[b..a + n] && s[n..] == all[a + n..];
  }

  lemma EndRun<T>(cmp: (T, T) -> int, all: seq<Node<T>>, a: nat, qsize: nat, k: nat)
    requires k > 0 && a <= |all| && (qsize == 0 || a == |all|)
    ensures Pending(cmp, all, a, a, qsize, k) == all[..a] + Pass(cmp, all[a..], k)
  {
  }

  lemma EndPass<T>(cmp: (T, T) -> int, all: seq<Node<T>>, k: nat)
    requires k > 0
    ensures all[..|all|] + Pass(cmp, all[|all|..], k) == all
  {
  }

  lemma TakeLeft<T>(cmp: (T, T) -> int, all: seq<Node<T>>, a: nat, b: nat, qsize: nat, k: nat)
    requires k > 0 && a < b <= |all|
    requires qsize == 0 || b == |all| || cmp(all[a].item, all[b].item) <= 0
    ensures Pending(cmp, all, a + 1, b, qsize, k) == Pending(cmp, all, a, b, qsize, k)
  {
    hide Merge, Pass;
    var n := b + Min(qsize, |all| - b);
    var p, q := all[a..b], all[b..n];
    assert p[1..] == all[a + 1..b] && all[..a + 1] == all[..a] + [p[0]];
    MergeLeft(cmp, p, q);
  }

  lemma MergeLeft<T>(cmp: (T, T) -> int, p: seq<Node<T>>, q: seq<Node<T>>)
    requires p != [] && (q == [] || cmp(p[0].item, q[0].item) <= 0)
    ensures Merge(cmp, p, q) == [p[0]] + Merge(cmp, p[1..], q)
  {
    if q == [] {
      assert Merge(cmp, p[1..], q) == p[1..];
    }
  }

  lemma TakeRight<T>(cmp: (T, T) -> int, all: seq<Node<T>>, a: nat, b: nat, qsize: nat, k: nat)
    requires k > 0 && a <= b < |all| && qsize > 0
    requires a == b || cmp(all[a].item, all[b].item) > 0
    ensures Pending(cmp, MoveTo(all, a, b), a + 1, b + 1, qsize - 1, k) == Pending(cmp, all, a, b, qsize, k)
  {
    var n := b + Min(qsize, |all| - b);
    MoveToSlices(all, a, b, n);
    TakeRightFrom(cmp, all, a, b, n, MoveTo(all, a, b), k);
    assert b + 1 + Min(qsize - 1, |all| - (b + 1)) == n;
  }

  lemma TakeRightFrom<T>(cmp: (T, T) -> int, all: seq<Node<T>>, a: nat, b: nat, n: nat, moved: seq<Node<T>>, k: nat)
    requires k > 0 && a <= b < n <= |all| == |moved|
    requires a == b || cmp(all[a].item, all[b].item) > 0
    requires moved[..a + 1] == all[..a] + [all[b]] && moved[a + 1..b + 1] == all[a..b]
    requires moved[b + 1..n] == all[b..n][1..] && moved[n..] == all[n..]
    ensures moved[..a + 1] + Merge(cmp, moved[a + 1..b + 1], moved[b + 1..n]) + Pass(cmp, moved[n..], k)
         == all[..a] + Merge(cmp, all[a..b], all[b..n]) + Pass(cmp, all[n..], k)
  {
    MergeRight(cmp, all[a..b], all[b..n]);
    assert all[b..n][0] == all[b];
    assert all[..a] + ([all[b]] + Merge(cmp, all[a..b], all[b..n][1..]))
        == all[..a] + [all[b]] + Merge(cmp, all[a..b], all[b..n][1..]);
  }

  lemma MergeRight<T>(cmp: (T, T) -> int, p: seq<Node<T>>, q: seq<Node<T>>)
    requires q != [] && (p == [] || cmp(p[0].item, q[0].item) > 0)
    ensures Merge(cmp, p, q) == [q[0]] + Merge(cmp, p, q[1..])
  {
  }

  /** The ghost state after one node is taken from the left run or from the right one. */
  lemma Take<T>(cmp: (T, T) -> int, all: seq<Node<T>>, a: nat, b: nat, qsize: nat, k: nat, fromQ: bool)
    returns (moved: seq<Node<T>>, b': nat)
    requires k > 0 && Shape(all, a, b)
    requires if fromQ then b < |all| && qsize > 0 && (a == b || cmp(all[a].item, all[b].item) > 0)
             else a < b && (qsize == 0 || b == |all| || cmp(all[a].item, all[b].item) <= 0)
    ensures b' == (if fromQ then b + 1 else b) && a < b' <= |moved| == |all|
    ensures Links(moved, a, a + 1, b')
    ensures multiset(moved) == multiset(all)
    ensures moved[..a] == all[..a] && moved[a] == (if fromQ then all[b] else all[a])
    ensures a + 1 < b' ==> moved[a + 1] == (if fromQ then all[a] else all[a + 1])
    ensures moved[b'..] == all[b'..]
    ensures Pending(cmp, moved, a + 1, b', if fromQ then qsize - 1 else qsize, k) == Pending(cmp, all, a, b, qsize, k)
  {
    if fromQ {
      TakeRight(cmp, all, a, b, qsize, k);
      MoveToPerm(all, a, b);
      MoveToLinks(all, a, b);
      moved, b' := MoveTo(all, a, b), b + 1;
      MoveToAt(all, a, b, a);
      if a + 1 < b' {
        MoveToAt(all, a, b, a + 1);
      }
      assert moved[..a] == all[..a];
    } else {
      TakeLeft(cmp, all, a, b, qsize, k);
      moved, b' := all, b;
    }
  }

  /** The scan that finds where the left run ends: at most `insize` nodes from `p`. */
  method ScanRun<T>(p: Node<T>, insize: Int32, ghost all: seq<Node<T>>, ghost a: nat)
    returns (q: Node?<T>, psize: Int32)
    requires Shape(all, a, a) && a < |all| < 0x8000_0000 && p == all[a] && 0 < insize
    ensures psize == Min(insize, |all| - a) && q == First(all[a + psize..])
  {
    q := p;
    psize := 0;
    var i: Int32 := 0;
    while i < insize
      invariant 0 <= i == psize <= insize && a + i < |all| && q == all[a + i]
    {
      assert a + i + 1 < |all| ==> all[a + i].next == all[a + i + 1];
      psize := psize + 1;
      q := q.next;
      if q == null {
        break;
      }
      i := i + 1;
    }
  }

  /** Puts `e` at the end of the output: the assignments that end each step of the merge. */
  method Append<T>(dl: bool, list0: Node?<T>, tail0: Node?<T>, e: Node<T>, ghost all: seq<Node<T>>, ghost a: nat, ghost b: nat)
    returns (list: Node?<T>, tail: Node<T>)
    requires a < b <= |all| && e == all[a]
    requires Links(all, a, a + 1, b) && Output(dl, list0, tail0, all, a)
    modifies e, if tail0 == null then {} else {tail0}
    ensures Shape(all, a + 1, b) && Output(dl, list, tail, all, a + 1)
  {
    list := list0;
    NoDupAt(all, a);
    if tail0 != null {
      NoDupAt(all, a - 1);
      tail0.next := e;
    } else {
      list := e;
    }
    if dl {
      e.prev := tail0;
    }
    tail := e;
    assert all[..a + 1] == all[..a] + [e];
  }

  /** The local variables of the merge loop agree with the ghost state. */
  ghost predicate Cursor<T>(dl: bool, list: Node?<T>, tail: Node?<T>, p: Node?<T>, q: Node?<T>, psize: int,
                            all: seq<Node<T>>, a: nat, b: nat)
    reads all
  {
    && Shape(all, a, b)
    && Output(dl, list, tail, all, a)
    && psize == b - a
    && (psize > 0 ==> p == all[a])
    && q == First(all[b..])
  }

  /** Takes the next node of the merge from the run at `p` or the run at `q`. */
  method Choose<T>(p0: Node?<T>, q0: Node?<T>, psize0: Int32, qsize0: Int32, cmp: (T, T) -> int,
                   ghost all: seq<Node<T>>, ghost a: nat, ghost b: nat, ghost k: nat)
    returns (e: Node<T>, p: Node?<T>, q: Node?<T>, psize: Int32, qsize: Int32, ghost all': seq<Node<T>>, ghost b': nat)
    requires Shape(all, a, b) && psize0 == b - a && qsize0 >= 0 && k > 0
    requires (psize0 > 0 ==> p0 == all[a]) && q0 == First(all[b..])
    requires psize0 > 0 || (qsize0 > 0 && q0 != null)
    ensures a < b' <= |all'| == |all| && multiset(all') == multiset(all)
    ensures Links(all', a, a + 1, b') && all'[..a] == all[..a] && e == all'[a]
    ensures psize == b' - a - 1 && (psize > 0 ==> p == all'[a + 1]) && q == First(all'[b'..])
    ensures 0 <= qsize <= qsize0 && psize + qsize < psize0 + qsize0
    ensures b' + Min(qsize, |all| - b') == b + Min(qsize0, |all| - b)
    ensures Pending(cmp, all', a + 1, b', qsize, k) == Pending(cmp, all, a, b, qsize0, k)
  {
    hide Merge, Pass;
    p, q, psize, qsize := p0, q0, psize0, qsize0;
    ghost var fromQ := psize == 0 || (qsize > 0 && q != null && cmp(p.item, q.item) > 0);
    if psize == 0 {
      e, q, qsize := q, q.next, qsize - 1;
    } else if qsize == 0 || q == null {
      e, p, psize := p, p.next, psize - 1;
    } else if cmp(p.item, q.item) <= 0 {
      e, p, psize := p, p.next, psize - 1;
    } else {
      e, q, qsize := q, q.next, qsize - 1;
    }
    all', b' := Take(cmp, all, a, b, qsize0, k, fromQ);
  }

  /** One iteration of the inner `while`: moves the smaller of `p` and `q` to the output. */
  method MergeStep<T>(dl: bool, list0: Node?<T>, tail0: Node?<T>, p0: Node?<T>, q0: Node?<T>, psize0: Int32, qsize0: Int32,
                      cmp: (T, T) -> int, ghost all: seq<Node<T>>, ghost a: nat, ghost b: nat, ghost k: nat,
                      ghost nodes: seq<Node<T>>)
    returns (list: Node?<T>, tail: Node?<T>, p: Node?<T>, q: Node?<T>, psize: Int32, qsize: Int32,
             ghost all': seq<Node<T>>, ghost b': nat)
    requires Cursor(dl, list0, tail0, p0, q0, psize0, all, a, b) && qsize0 >= 0 && k > 0
    requires psize0 > 0 || (qsize0 > 0 && q0 != null)
    requires multiset(all) == multiset(nodes)
    modifies nodes
    ensures a < b' <= |all'| == |all| && Cursor(dl, list, tail, p, q, psize, all', a + 1, b')
    ensures multiset(all') == multiset(all)
    ensures 0 <= qsize <= qsize0 && psize + qsize < psize0 + qsize0
    ensures b' + Min(qsize, |all| - b') == b + Min(qsize0, |all| - b)
    ensures Pending(cmp, all', a + 1, b', qsize, k) == Pending(cmp, all, a, b, qsize0, k)
  {
    hide Merge, Pass;
    var e;
    e, p, q, psize, qsize, all', b' := Choose(p0, q0, psize0, qsize0, cmp, all, a, b, k);
    assert e in multiset(all') && (tail0 != null ==> tail0 in multiset(all));
    list, tail := Append(dl, list0, tail0, e, all', a, b');
  }

  /** The inner `while`: merges the run at `p` with the run at `q`. */
  method MergeRuns<T>(dl: bool, list0: Node?<T>, tail0: Node?<T>, p0: Node<T>, q0: Node?<T>, psize0: Int32, insize: Int32,
                        cmp: (T, T) -> int, ghost all0: seq<Node<T>>, ghost a0: nat, ghost nodes: seq<Node<T>>)
    returns (list: Node?<T>, tail: Node?<T>, q: Node?<T>, ghost all: seq<Node<T>>, ghost a: nat)
    requires 0 < insize && a0 < |all0| < 0x8000_0000 && psize0 == Min(insize, |all0| - a0)
    requires Shape(all0, a0, a0) && Output(dl, list0, tail0, all0, a0)
    requires p0 == all0[a0] && q0 == First(all0[a0 + psize0..])
    requires multiset(all0) == multiset(nodes)
    modifies nodes
    ensures Shape(all, a, a) && Output(dl, list, tail, all, a) && q == First(all[a..])
    ensures multiset(all) == multiset(nodes) && |all| == |all0|
    ensures a0 < a <= a0 + 2 * insize && (a < |all| ==> a == a0 + 2 * insize)
    ensures all[..a] + Pass(cmp, all[a..], insize) == Pending(cmp, all0, a0, a0 + psize0, insize, insize)
  {
    hide Merge, Pass, Pending, Output, BackLinks;
    list, tail, q, all, a := list0, tail0, q0, all0, a0;
    var p: Node?<T> := p0;
    var psize, qsize: Int32 := psize0, insize;
    ghost var b := a + psize;
    ghost var target, end := Pending(cmp, all, a, b, qsize, insize), b + Min(qsize, |all| - b);
    assert end == a0 + Min(2 * insize, |all| - a0);
    while psize > 0 || (qsize > 0 && q != null)
      invariant 0 <= psize && 0 <= qsize && a <= b <= |all| == |all0|
      invariant b + Min(qsize, |all| - b) == end
      invariant Cursor(dl, list, tail, p, q, psize, all, a, b)
      invariant multiset(all) == multiset(nodes)
      invariant Pending(cmp, all, a, b, qsize, insize) == target
      decreases psize + qsize
    {
      list, tail, p, q, psize, qsize, all, b := MergeStep(dl, list, tail, p, q, psize, qsize, cmp, all, a, b, insize, nodes);
      a := a + 1;
    }
    assert b == a && (qsize == 0 || a == |all|);
    EndRun(cmp, all, a, qsize, insize);
  }

  /** Closes the list: the assignments that end each pass. */
  method Terminate<T>(dl: bool, list: Node<T>, tail: Node<T>, ghost all: seq<Node<T>>)
    requires all != [] && Shape(all, |all|, |all|) && Output(dl, list, tail, all, |all|)
    modifies list, tail
    ensures IsList(list, all) && (dl ==> IsDList(list, all))
  {
    NoDupAt(all, |all| - 1);
    NoDupAt(all, 0);
    assert all[..|all|] == all;
    if dl {
      list.prev := tail;
    }
    tail.next := null;
  }

  /** One iteration of the outer `while (looping)`: one pass over the list. */
  method SortPass<T>(dl: bool, head: Node<T>, cmp: (T, T) -> int, insize: Int32, ghost s: seq<Node<T>>, ghost nodes: seq<Node<T>>)
    returns (list: Node?<T>, nmerges: Int32)
    requires s != [] && IsList(head, s) && multiset(s) == multiset(nodes)
    requires 0 < insize && |s| < 0x8000_0000
    modifies nodes
    ensures IsList(list, Pass(cmp, s, insize)) && (dl ==> IsDList(list, Pass(cmp, s, insize)))
    ensures nmerges <= 1 <==> |s| <= 2 * insize
  {
    hide Merge, Pass;
    var p: Node?<T> := head;
    list := null;
    var tail: Node?<T> := null;
    nmerges := 0;
    ghost var all, a, target := s, 0, Pass(cmp, s, insize);
    while p != null
      invariant Shape(all, a, a) && Output(dl, list, tail, all, a) && p == First(all[a..])
      invariant multiset(all) == multiset(nodes) && |all| == |s|
      invariant all[..a] + Pass(cmp, all[a..], insize) == target
      invariant 0 <= nmerges <= a && (a == 0 <==> nmerges == 0)
      invariant nmerges <= 1 ==> a <= 2 * insize
      invariant nmerges == 1 && a < |s| ==> a == 2 * insize
      invariant nmerges > 1 ==> a > 2 * insize
      decreases |s| - a
    {
      nmerges := nmerges + 1;
      var q, psize := ScanRun(p, insize, all, a);
      StartRun(cmp, all, a, a + psize, insize);
      list, tail, q, all, a := MergeRuns(dl, list, tail, p, q, psize, insize, cmp, all, a, nodes);
      p := q;
    }
    assert a == |s|;
    EndPass(cmp, all, insize);
    assert tail in multiset(all) && list in multiset(all);
    Terminate(dl, list, tail, all);
  }

  lemma SortUnfold<T>(cmp: (T, T) -> int, s: seq<Node<T>>, k: nat)
    requires k > 0
    ensures Sort(cmp, s, k) == if |s| <= 2 * k then Pass(cmp, s, k) else Sort(cmp, Pass(cmp, s, k), 2 * k)
    ensures s == [] ==> Sort(cmp, s, k) == []
  {
  }

  /** The outer `while (looping)`. The bound on the length keeps the doubling of `insize` within an `int`. */
  method SortList<T>(dl: bool, list0: Node?<T>, cmp: (T, T) -> int, ghost nodes: seq<Node<T>>) returns (list: Node?<T>)
    requires IsList(list0, nodes) && |nodes| <= 0x4000_0000
    modifies nodes
    ensures IsList(list, Sort(cmp, nodes, 1)) && (dl ==> IsDList(list, Sort(cmp, nodes, 1)))
  {
    hide Merge, Pass, Sort;
    list := list0;
    SortUnfold(cmp, nodes, 1);
    if list != null {
      var insize: Int32 := 1;
      var looping := true;
      ghost var s, target := nodes, Sort(cmp, nodes, 1);
      while looping
        invariant 0 < insize && |s| == |nodes| > 0 && multiset(s) == multiset(nodes)
        invariant looping ==> (insize == 1 || insize < |nodes|) && IsList(list, s) && Sort(cmp, s, insize) == target
        invariant !looping ==> IsList(list, target) && (dl ==> IsDList(list, target))
        decreases looping, 2 * |nodes| - insize
      {
        PassPerm(cmp, s, insize);
        PassLength(cmp, s, insize);
        SortUnfold(cmp, s, insize);
        var nmerges;
        list, nmerges := SortPass(dl, list, cmp, insize, s, nodes);
        s := Pass(cmp, s, insize);
        if nmerges <= 1 {
          looping := false;
        }
        insize := insize * 2;
      }
    }
  }

  /** LL_SORT: the list that starts at the result is the stable sort of the list passed in. */
  method LLSort<T(!new)>(list0: Node?<T>, cmp: (T, T) -> int, ghost nodes: seq<Node<T>>)
    returns (list: Node?<T>, ghost sorted: seq<Node<T>>)
    requires IsList(list0, nodes) && |nodes| <= 0x4000_0000
    modifies nodes
    ensures IsList(list, sorted) && multiset(sorted) == multiset(nodes)
    ensures TotalPreorder(cmp) ==> StableSortOf(cmp, sorted, nodes)
  {
    list := SortList(false, list0, cmp, nodes);
    sorted := Sort(cmp, nodes, 1);
    SortPerm(cmp, nodes, 1);
    if TotalPreorder(cmp) {
      SortCorrect(cmp, nodes);
    }
  }

  /** DL_SORT: in addition every `prev` is set, whatever it was before, and the head's is the new tail. */
  method DLSort<T(!new)>(list0: Node?<T>, cmp: (T, T) -> int, ghost nodes: seq<Node<T>>)
    returns (list: Node?<T>, ghost sorted: seq<Node<T>>)
    requires IsList(list0, nodes) && |nodes| <= 0x4000_0000
    modifies nodes
    ensures IsDList(list, sorted) && multiset(sorted) == multiset(nodes)
    ensures TotalPreorder(cmp) ==> StableSortOf(cmp, sorted, nodes)
  {
    list := SortList(true, list0, cmp, nodes);
    sorted := Sort(cmp, nodes, 1);
    SortPerm(cmp, nodes, 1);
    if TotalPreorder(cmp) {
      SortCorrect(cmp, nodes);
    }
  }
}
