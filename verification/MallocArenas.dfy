/** The arenas, blocks and pages behind malloc and free, as values: layout, invariant, and the effect of each
    elementary operation on it. */
module MallocArenas {
  import opened Common

  // ---------- layout ----------

  /** The block sizes 16, 32, ..., 1024 of the seven descriptors. */
  function SizeOf(d: nat): (bs: nat)
    requires d < 7
    ensures 16 <= bs <= 1024
    ensures d < 6 ==> bs <= 512
  {
    if d == 0 then 16 else if d == 1 then 32 else if d == 2 then 64 else if d == 3 then 128
    else if d == 4 then 256 else if d == 5 then 512 else 1024
  }

  /** The number of blocks that fit behind the 12-byte header of an arena. */
  function PerArena(bs: nat): (n: nat)
    requires 0 < bs
    ensures n * bs <= 4084 < (n + 1) * bs
  {
    (4096 - 12) / bs
  }

  function PageOf(x: nat): nat { x / 4096 }

  function BlockAt(p: nat, bs: nat, i: nat): nat { p * 4096 + 12 + i * bs }

  /** The addresses at which an arena's blocks of `bs` bytes start. */
  predicate IsBlock(x: nat, bs: nat)
    requires 0 < bs
  {
    12 <= x % 4096 && (x % 4096 - 12) % bs == 0 && (x % 4096 - 12) / bs < PerArena(bs)
  }

  function IndexOf(x: nat, bs: nat): nat
    requires 0 < bs && IsBlock(x, bs)
  {
    (x % 4096 - 12) / bs
  }

  lemma MulDiv(i: nat, bs: nat)
    requires 0 < bs
    ensures (i * bs) / bs == i && (i * bs) % bs == 0
  {
    var q, r := (i * bs) / bs, (i * bs) % bs;
    assert i * bs == q * bs + r;
    if q < i {
      MulLe(q + 1, i, bs);
    } else if q > i {
      MulLe(i + 1, q, bs);
    }
  }

  /** block_to_arena undoes arena_to_block, and the block lies in the page, behind the header. */
  lemma BlockAtInverse(p: nat, bs: nat, i: nat)
    requires 0 < bs && i < PerArena(bs)
    ensures PageOf(BlockAt(p, bs, i)) == p
    ensures IsBlock(BlockAt(p, bs, i), bs) && IndexOf(BlockAt(p, bs, i), bs) == i
    ensures BlockAt(p, bs, i) + bs <= (p + 1) * 4096
  {
    var n, o := PerArena(bs), i * bs;
    assert n * bs <= 4084;
    assert o + bs <= 4084 by {
      MulLe(i + 1, n, bs);
      assert (i + 1) * bs == o + bs;
    }
    MulDiv(i, bs);
    assert o / bs == i && o % bs == 0;
    var x := BlockAt(p, bs, i);
    assert x == p * 4096 + 12 + o;
    hide PerArena, BlockAt;
    assert x / 4096 == p && x % 4096 == 12 + o;
  }

  lemma BlockAtIndex(x: nat, bs: nat)
    requires 0 < bs && IsBlock(x, bs)
    ensures BlockAt(PageOf(x), bs, IndexOf(x, bs)) == x
  {
    var o := x % 4096 - 12;
    assert o == o / bs * bs;
  }

  /** Two blocks of one arena do not overlap. */
  lemma BlocksApart(x: nat, y: nat, bs: nat)
    requires 0 < bs && IsBlock(x, bs) && IsBlock(y, bs) && PageOf(x) == PageOf(y) && x < y
    ensures x + bs <= y
  {
    BlockAtIndex(x, bs);
    BlockAtIndex(y, bs);
    var i, j := IndexOf(x, bs), IndexOf(y, bs);
    if j <= i {
      MulLe(j, i, bs);
      assert false;
    }
    MulLe(i + 1, j, bs);
    assert (i + 1) * bs == i * bs + bs;
  }

  /** The first `n` blocks of arena `p`, in the order in which they join the free list. */
  function Blocks(p: nat, bs: nat, n: nat): (s: seq<nat>)
    ensures |s| == n
  {
    seq(n, i requires 0 <= i < n => BlockAt(p, bs, i))
  }

  ghost function AllBlocks(p: nat, bs: nat): set<nat>
    requires 0 < bs
  {
    set i: nat | 0 <= i < PerArena(bs) :: BlockAt(p, bs, i)
  }

  lemma {:induction false} BlocksAreMany(p: nat, bs: nat, n: nat)
    requires 0 < bs && n <= PerArena(bs)
    ensures |set i: nat | 0 <= i < n :: BlockAt(p, bs, i)| == n
  {
    var s := set i: nat | 0 <= i < n :: BlockAt(p, bs, i);
    if n == 0 {
      assert s == {};
    } else {
      BlocksAreMany(p, bs, n - 1);
      var t := set i: nat | 0 <= i < n - 1 :: BlockAt(p, bs, i);
      var x := BlockAt(p, bs, n - 1);
      assert s == t + {x};
      forall i: nat | i < n - 1 ensures BlockAt(p, bs, i) != x {
        BlockAtInverse(p, bs, i);
        BlockAtInverse(p, bs, n - 1);
      }
      assert x !in t;
    }
  }

  lemma AllBlocksIff(p: nat, bs: nat, x: nat)
    requires 0 < bs
    ensures x in AllBlocks(p, bs) <==> IsBlock(x, bs) && PageOf(x) == p
  {
    if x in AllBlocks(p, bs) {
      var i: nat :| i < PerArena(bs) && x == BlockAt(p, bs, i);
      BlockAtInverse(p, bs, i);
    }
    if IsBlock(x, bs) && PageOf(x) == p {
      BlockAtIndex(x, bs);
    }
  }

  // ---------- the state ----------

  datatype Desc = Desc(blockSize: nat, blocksPerArena: nat, freeList: seq<nat>)

  /** An arena header; `desc` is None for a big block, whose `freeCnt` counts its pages. */
  datatype Arena = Arena(desc: Option<nat>, freeCnt: nat)

  /** The descriptors, the header at the start of each arena's first page, the free pages of the pool, and
      the requested size of every block in use. */
  datatype State = State(descs: seq<Desc>, arenas: map<nat, Arena>, pages: set<nat>, live: map<nat, nat>)

  predicate NoDup(s: seq<nat>) { forall i, j :: 0 <= i < j < |s| ==> s[i] != s[j] }

  predicate DescsOk(s: State) {
    |s.descs| == 7
    && forall d :: 0 <= d < 7 ==> s.descs[d].blockSize == SizeOf(d) && s.descs[d].blocksPerArena == PerArena(SizeOf(d))
  }

  predicate Small(s: State, p: nat, d: nat) { p in s.arenas && s.arenas[p].desc == Some(d) }

  predicate Big(s: State, p: nat) { p in s.arenas && s.arenas[p].desc.None? }

  /** Each block on a free list lies in an arena of that list, once. */
  predicate ListOk(s: State, d: nat)
    requires d < 7 && |s.descs| == 7
  {
    NoDup(s.descs[d].freeList)
    && forall x :: x in s.descs[d].freeList ==> Small(s, PageOf(x), d) && IsBlock(x, SizeOf(d))
  }

  ghost function FreeOf(list: seq<nat>, p: nat): set<nat> { set x | x in list && PageOf(x) == p }

  /** An arena counts its free blocks; each of its blocks is free or in use, and not both. */
  ghost predicate ArenaOk(s: State, p: nat, d: nat)
    requires d < 7 && |s.descs| == 7 && p in s.arenas
  {
    s.arenas[p].freeCnt == |FreeOf(s.descs[d].freeList, p)|
    && forall x :: PageOf(x) == p && IsBlock(x, SizeOf(d)) ==> (x in s.descs[d].freeList <==> x !in s.live)
  }

  predicate BigOk(s: State, p: nat)
    requires p in s.arenas
  {
    s.arenas[p].freeCnt >= 1 && p * 4096 + 12 in s.live
  }

  /** The bytes of block `x`, as the static function block_size computes them. */
  function BlockSize(s: State, x: nat): nat
    requires DescsOk(s) && PageOf(x) in s.arenas
  {
    var a := s.arenas[PageOf(x)];
    if a.desc.Some? then (if a.desc.value < 7 then s.descs[a.desc.value].blockSize else 0)
    else if 4096 * a.freeCnt >= x % 4096 then 4096 * a.freeCnt - x % 4096 else 0
  }

  /** A block in use starts where a block of its arena may start, and is large enough for its request unless
      the computation of the number of pages overflowed. */
  predicate LiveOk(s: State, x: nat)
    requires DescsOk(s) && x in s.live
  {
    && PageOf(x) in s.arenas
    && (match s.arenas[PageOf(x)].desc
        case Some(d) => d < 7 && IsBlock(x, SizeOf(d))
        case None => x == PageOf(x) * 4096 + 12)
    && (s.live[x] <= 0xFFFF_FFF4 ==> s.live[x] <= BlockSize(s, x))
  }

  function PageCnt(a: Arena): nat { if a.desc.Some? then 1 else a.freeCnt }

  predicate Covers(arenas: map<nat, Arena>, p: nat, q: nat) {
    p in arenas && p <= q < p + PageCnt(arenas[p])
  }

  ghost predicate Owned(arenas: map<nat, Arena>, q: nat) { exists p :: Covers(arenas, p, q) }

  /** Every page of the pool is free or belongs to an arena. */
  ghost predicate PagesShared(s: State, pool: set<nat>) {
    && s.pages <= pool
    && forall q :: q in pool ==> (q in s.pages <==> !Owned(s.arenas, q))
  }

  /** Arenas have pages of the pool, at least one each, and do not overlap. */
  ghost predicate PagesApart(arenas: map<nat, Arena>, pool: set<nat>) {
    && (forall p :: p in arenas ==> PageCnt(arenas[p]) >= 1)
    && (forall p, q :: Covers(arenas, p, q) ==> q in pool)
    && (forall p, r, q :: Covers(arenas, p, q) && Covers(arenas, r, q) ==> p == r)
  }

  ghost predicate PagesOk(s: State, pool: set<nat>) { PagesShared(s, pool) && PagesApart(s.arenas, pool) }

  ghost predicate ListsOk(s: State)
    requires |s.descs| == 7
  {
    forall d :: 0 <= d < 7 ==> ListOk(s, d)
  }

  ghost predicate ArenasOk(s: State)
    requires |s.descs| == 7
  {
    && (forall p :: p in s.arenas && s.arenas[p].desc.Some? ==> s.arenas[p].desc.value < 7)
    && (forall p, d :: 0 <= d < 7 && Small(s, p, d) ==> ArenaOk(s, p, d))
    && (forall p :: Big(s, p) ==> BigOk(s, p))
  }

  ghost predicate Inv(s: State, pool: set<nat>) {
    && DescsOk(s) && ListsOk(s) && ArenasOk(s)
    && (forall x :: x in s.live ==> LiveOk(s, x))
    && PagesOk(s, pool)
  }

  /** No arena of small blocks is entirely free, except perhaps that of page `but`. */
  predicate Tidy(s: State, but: Option<nat>)
    requires DescsOk(s)
  {
    forall p :: p in s.arenas && s.arenas[p].desc.Some? && s.arenas[p].desc.value < 7 && but != Some(p) ==>
      s.arenas[p].freeCnt < s.descs[s.arenas[p].desc.value].blocksPerArena
  }

  // ---------- the steps ----------

  function SetList(s: State, d: nat, list: seq<nat>): State
    requires d < |s.descs|
  {
    s.(descs := s.descs[d := s.descs[d].(freeList := list)])
  }

  function SetCnt(s: State, p: nat, n: nat): State
    requires p in s.arenas
  {
    s.(arenas := s.arenas[p := s.arenas[p].(freeCnt := n)])
  }

  /** A page becomes an arena of descriptor `d`, and its blocks join the free list at the end. */
  function NewArena(s: State, d: nat, p: nat): State
    requires d < |s.descs| && 0 < s.descs[d].blockSize
  {
    var l := s.descs[d];
    SetList(s, d, l.freeList + Blocks(p, l.blockSize, l.blocksPerArena))
      .(pages := s.pages - {p}, arenas := s.arenas[p := Arena(Some(d), l.blocksPerArena)])
  }

  /** The first free block of descriptor `d` is handed out for a request of `size` bytes. */
  function Take(s: State, d: nat, size: nat): State
    requires d < |s.descs| && s.descs[d].freeList != []
  {
    var x := s.descs[d].freeList[0];
    var t := SetList(s, d, s.descs[d].freeList[1..]).(live := s.live[x := size]);
    if PageOf(x) in t.arenas && t.arenas[PageOf(x)].freeCnt > 0
    then SetCnt(t, PageOf(x), t.arenas[PageOf(x)].freeCnt - 1) else t
  }

  /** A block in use comes back to the front of its descriptor's free list. */
  function Put(s: State, d: nat, x: nat): State
    requires d < |s.descs| && PageOf(x) in s.arenas
  {
    SetCnt(SetList(s, d, [x] + s.descs[d].freeList), PageOf(x), s.arenas[PageOf(x)].freeCnt + 1).(live := s.live - {x})
  }

  /** `list` without the blocks of page `p`. */
  function WithoutPage(list: seq<nat>, p: nat): seq<nat> {
    if list == [] then []
    else if PageOf(list[0]) == p then WithoutPage(list[1..], p)
    else [list[0]] + WithoutPage(list[1..], p)
  }

  /** An unused arena's blocks leave the free list and its page goes back to the pool. */
  function Release(s: State, d: nat, p: nat): State
    requires d < |s.descs|
  {
    SetList(s, d, WithoutPage(s.descs[d].freeList, p)).(arenas := s.arenas - {p}, pages := s.pages + {p})
  }

  function Run(p: nat, n: nat): (r: set<nat>)
    ensures forall q :: q in r <==> p <= q < p + n
  {
    if n == 0 then {} else Run(p, n - 1) + {p + n - 1}
  }

  function TakeBig(s: State, p: nat, n: nat, size: nat): State {
    s.(arenas := s.arenas[p := Arena(None, n)], pages := s.pages - Run(p, n), live := s.live[p * 4096 + 12 := size])
  }

  function PutBig(s: State, x: nat): State
    requires PageOf(x) in s.arenas
  {
    var p := PageOf(x);
    s.(arenas := s.arenas - {p}, pages := s.pages + Run(p, s.arenas[p].freeCnt), live := s.live - {x})
  }

  // ---------- the invariant is kept ----------

  lemma BlocksAreAll(p: nat, bs: nat)
    requires 0 < bs
    ensures NoDup(Blocks(p, bs, PerArena(bs)))
    ensures forall x :: x in Blocks(p, bs, PerArena(bs)) <==> IsBlock(x, bs) && PageOf(x) == p
  {
    var b := Blocks(p, bs, PerArena(bs));
    forall i | 0 <= i < |b| ensures PageOf(b[i]) == p && IsBlock(b[i], bs) && IndexOf(b[i], bs) == i {
      BlockAtInverse(p, bs, i);
    }
    forall x | IsBlock(x, bs) && PageOf(x) == p ensures x in b {
      BlockAtIndex(x, bs);
      assert b[IndexOf(x, bs)] == x;
    }
  }

  /** The free blocks of an arena are at most all its blocks; if they are as many, they are all of them. */
  lemma FreeOfBounded(list: seq<nat>, p: nat, bs: nat)
    requires 0 < bs && forall x :: x in list && PageOf(x) == p ==> IsBlock(x, bs)
    ensures |FreeOf(list, p)| <= PerArena(bs)
    ensures |FreeOf(list, p)| == PerArena(bs) <==> forall x :: IsBlock(x, bs) && PageOf(x) == p ==> x in list
  {
    var f, all := FreeOf(list, p), AllBlocks(p, bs);
    assert |all| == PerArena(bs) by {
      BlocksAreMany(p, bs, PerArena(bs));
    }
    forall x ensures x in all <==> IsBlock(x, bs) && PageOf(x) == p {
      AllBlocksIff(p, bs, x);
    }
    hide AllBlocks, IsBlock, PageOf, PerArena;
    assert f <= all;
    SubsetCard(f, all);
    if |f| == |all| {
      assert f == all;
    }
    if forall x :: IsBlock(x, bs) && PageOf(x) == p ==> x in list {
      assert f == all;
    }
  }

  lemma FreshPage(s: State, pool: set<nat>, p: nat)
    requires Inv(s, pool) && p in s.pages
    ensures p !in s.arenas
    ensures forall d, x :: 0 <= d < 7 && x in s.descs[d].freeList ==> PageOf(x) != p
    ensures forall x :: x in s.live ==> PageOf(x) != p
  {
    hide IsBlock, PageOf, SizeOf, PerArena, FreeOf;
    assert p in s.arenas ==> Covers(s.arenas, p, p);
    forall d, x | 0 <= d < 7 && x in s.descs[d].freeList ensures PageOf(x) != p {
      assert ListOk(s, d);
    }
    forall x | x in s.live ensures PageOf(x) != p {
      assert LiveOk(s, x);
    }
  }

  lemma NewArenaLists(s: State, pool: set<nat>, d: nat, p: nat)
    requires Inv(s, pool) && d < 7 && p in s.pages
    ensures ListsOk(NewArena(s, d, p))
  {
    FreshPage(s, pool, p);
    var s', bs := NewArena(s, d, p), SizeOf(d);
    BlocksAreAll(p, bs);
    var l, b := s.descs[d].freeList, Blocks(p, bs, PerArena(bs));
    hide IsBlock, PageOf, Blocks, AllBlocks, PerArena, SizeOf, ArenasOk, PagesOk, LiveOk;
    assert s'.descs[d].freeList == l + b;
    assert NoDup(l + b) by {
      assert ListOk(s, d);
      assert forall i, j :: 0 <= i < |l| && 0 <= j < |b| ==> PageOf(l[i]) != p && PageOf(b[j]) == p;
    }
    hide NoDup;
    forall e | 0 <= e < 7 ensures ListOk(s', e) {
      assert ListOk(s, e) && ListOk(s, d);
    }
  }

  lemma NewArenaCounts(s: State, pool: set<nat>, d: nat, p: nat)
    requires Inv(s, pool) && d < 7 && p in s.pages
    ensures ArenasOk(NewArena(s, d, p))
  {
    FreshPage(s, pool, p);
    var s', bs := NewArena(s, d, p), SizeOf(d);
    var l, l' := s.descs[d].freeList, s'.descs[d].freeList;
    BlocksAreAll(p, bs);
    assert forall x :: x in l' <==> x in l || (IsBlock(x, bs) && PageOf(x) == p);
    FreeOfBounded(l', p, bs);
    hide IsBlock, PageOf, Blocks, AllBlocks, PerArena, SizeOf, ListsOk, PagesOk, LiveOk;
    forall q, e | 0 <= e < 7 && Small(s', q, e) ensures ArenaOk(s', q, e) {
      if q != p {
        assert ArenaOk(s, q, e);
        assert FreeOf(s'.descs[e].freeList, q) == FreeOf(s.descs[e].freeList, q);
      }
    }
    forall q | Big(s', q) ensures BigOk(s', q) {
      assert Big(s, q);
    }
  }

  /** Adding an arena on free pages takes exactly those. */
  lemma AddPages(s: State, s': State, pool: set<nat>, p: nat, a: Arena)
    requires PagesOk(s, pool) && p !in s.arenas && s'.arenas == s.arenas[p := a]
    requires Run(p, PageCnt(a)) <= s.pages && s'.pages == s.pages - Run(p, PageCnt(a)) && PageCnt(a) >= 1
    ensures PagesOk(s', pool)
  {
    var n := PageCnt(a);
    assert forall q: nat, r: nat :: Covers(s'.arenas, r, q) <==> (Covers(s.arenas, r, q) || (r == p && p <= q < p + n));
    assert Run(p, n) <= pool;
    hide Covers, PageCnt, Run;
    forall q: nat ensures Owned(s'.arenas, q) <==> Owned(s.arenas, q) || p <= q < p + n {
      if Owned(s.arenas, q) {
        var b: nat :| Covers(s.arenas, b, q);
        assert Covers(s'.arenas, b, q);
      }
      if p <= q < p + n {
        assert Covers(s'.arenas, p, q);
      }
      if Owned(s'.arenas, q) {
        var b: nat :| Covers(s'.arenas, b, q);
      }
    }
    forall q: nat, r: nat | Covers(s.arenas, r, q) ensures !(p <= q < p + n) {
      assert Owned(s.arenas, q);
    }
    hide Owned;
  }

  /** Dropping an arena frees exactly its pages. */
  lemma DropPages(s: State, s': State, pool: set<nat>, p: nat)
    requires PagesOk(s, pool) && p in s.arenas && s'.arenas == s.arenas - {p}
    requires s'.pages == s.pages + Run(p, PageCnt(s.arenas[p]))
    ensures PagesOk(s', pool)
  {
    var n := PageCnt(s.arenas[p]);
    assert forall q: nat, r: nat :: Covers(s'.arenas, r, q) <==> Covers(s.arenas, r, q) && r != p;
    assert forall q: nat :: Covers(s.arenas, p, q) <==> p <= q < p + n;
    hide Covers, PageCnt, Run;
    forall q: nat ensures Owned(s'.arenas, q) <==> Owned(s.arenas, q) && !(p <= q < p + n) {
      if Owned(s.arenas, q) && !(p <= q < p + n) {
        var b: nat :| Covers(s.arenas, b, q);
        assert Covers(s'.arenas, b, q);
      }
      if Owned(s'.arenas, q) {
        var b: nat :| Covers(s'.arenas, b, q);
        assert Covers(s.arenas, b, q) && !Covers(s.arenas, p, q);
      }
    }
    forall q: nat | p <= q < p + n ensures q in pool && Owned(s.arenas, q) {
      assert Covers(s.arenas, p, q);
    }
    hide Owned;
  }

  lemma NewArenaPages(s: State, pool: set<nat>, d: nat, p: nat)
    requires Inv(s, pool) && d < 7 && p in s.pages
    ensures PagesOk(NewArena(s, d, p), pool)
  {
    FreshPage(s, pool, p);
    var s' := NewArena(s, d, p);
    hide ListsOk, ArenasOk, LiveOk, DescsOk, PagesOk;
    assert Run(p, 1) == {p};
    AddPages(s, s', pool, p, s'.arenas[p]);
  }

  lemma NewArenaInv(s: State, pool: set<nat>, d: nat, p: nat)
    requires Inv(s, pool) && Tidy(s, None) && d < 7 && p in s.pages
    ensures Inv(NewArena(s, d, p), pool) && Tidy(NewArena(s, d, p), Some(p))
  {
    var s' := NewArena(s, d, p);
    FreshPage(s, pool, p);
    NewArenaLists(s, pool, d, p);
    NewArenaCounts(s, pool, d, p);
    NewArenaPages(s, pool, d, p);
    hide IsBlock, PageOf, Blocks, PerArena, SizeOf, ListsOk, ArenasOk, PagesOk;
    forall x | x in s'.live ensures LiveOk(s', x) {
      assert LiveOk(s, x);
    }
  }

  /** The first block of a free list is not in use, and its arena has a free block. */
  lemma HeadIsFree(s: State, pool: set<nat>, d: nat)
    requires Inv(s, pool) && d < 7 && s.descs[d].freeList != []
    ensures var x := s.descs[d].freeList[0];
            Small(s, PageOf(x), d) && IsBlock(x, SizeOf(d)) && x !in s.live && s.arenas[PageOf(x)].freeCnt > 0
  {
    var l, x := s.descs[d].freeList, s.descs[d].freeList[0];
    assert ListOk(s, d) && x in l;
    hide IsBlock, PageOf, PerArena, SizeOf, PagesOk, LiveOk;
    assert ArenaOk(s, PageOf(x), d);
    assert x in FreeOf(l, PageOf(x));
  }

  lemma TakeLists(s: State, pool: set<nat>, d: nat, size: nat)
    requires Inv(s, pool) && d < 7 && s.descs[d].freeList != []
    ensures ListsOk(Take(s, d, size))
  {
    var s', l := Take(s, d, size), s.descs[d].freeList;
    hide IsBlock, PageOf, PerArena, SizeOf, PagesOk, LiveOk, ArenasOk;
    assert ListOk(s, d);
    assert forall y :: y in l[1..] ==> y in l;
    forall e | 0 <= e < 7 ensures ListOk(s', e) {
      assert ListOk(s, e);
    }
  }

  lemma WithoutHead(l: seq<nat>)
    requires NoDup(l) && l != []
    ensures forall y :: y in l[1..] <==> y in l && y != l[0]
    ensures FreeOf(l[1..], PageOf(l[0])) == FreeOf(l, PageOf(l[0])) - {l[0]} && l[0] in FreeOf(l, PageOf(l[0]))
    ensures forall q :: q != PageOf(l[0]) ==> FreeOf(l[1..], q) == FreeOf(l, q)
  {
    assert l == [l[0]] + l[1..];
    hide PageOf;
  }

  lemma TakeArenaAt(s: State, pool: set<nat>, d: nat, size: nat, q: nat, e: nat)
    requires Inv(s, pool) && d < 7 && s.descs[d].freeList != [] && e < 7 && Small(s, q, e)
    ensures |Take(s, d, size).descs| == 7 && Small(Take(s, d, size), q, e) && ArenaOk(Take(s, d, size), q, e)
  {
    HeadIsFree(s, pool, d);
    assert ListOk(s, d) && ArenaOk(s, q, e);
    WithoutHead(s.descs[d].freeList);
    hide IsBlock, PageOf, PerArena, SizeOf, ListsOk, ListOk, ArenasOk, PagesOk, LiveOk, FreeOf, NoDup;
  }

  lemma TakeArenas(s: State, pool: set<nat>, d: nat, size: nat)
    requires Inv(s, pool) && d < 7 && s.descs[d].freeList != []
    ensures ArenasOk(Take(s, d, size))
  {
    HeadIsFree(s, pool, d);
    var s' := Take(s, d, size);
    hide IsBlock, PageOf, PerArena, SizeOf, ListsOk, PagesOk, LiveOk, ArenaOk;
    forall q, e | 0 <= e < 7 && Small(s', q, e) ensures ArenaOk(s', q, e) {
      assert Small(s, q, e);
      TakeArenaAt(s, pool, d, size, q, e);
    }
    forall q | Big(s', q) ensures BigOk(s', q) {
      assert Big(s, q);
    }
  }

  lemma TakeLive(s: State, pool: set<nat>, d: nat, size: nat, y: nat)
    requires Inv(s, pool) && d < 7 && s.descs[d].freeList != [] && 0 < size <= s.descs[d].blockSize
    requires y in Take(s, d, size).live
    ensures DescsOk(Take(s, d, size)) && LiveOk(Take(s, d, size), y)
  {
    HeadIsFree(s, pool, d);
    var x := s.descs[d].freeList[0];
    assert y != x ==> LiveOk(s, y);
    hide IsBlock, PageOf, PerArena, SizeOf, ListsOk, ArenasOk, PagesOk;
  }

  lemma TakeInv(s: State, pool: set<nat>, d: nat, size: nat)
    requires Inv(s, pool) && d < 7 && s.descs[d].freeList != []
    requires 0 < size <= s.descs[d].blockSize
    requires Tidy(s, Some(PageOf(s.descs[d].freeList[0])))
    ensures Inv(Take(s, d, size), pool) && Tidy(Take(s, d, size), None)
  {
    HeadIsFree(s, pool, d);
    TakeLists(s, pool, d, size);
    TakeArenas(s, pool, d, size);
    var s', l, x := Take(s, d, size), s.descs[d].freeList, s.descs[d].freeList[0];
    var p := PageOf(x);
    assert s.arenas[p].freeCnt <= s.descs[d].blocksPerArena by {
      assert ListOk(s, d) && ArenaOk(s, p, d);
      FreeOfBounded(l, p, SizeOf(d));
    }
    hide IsBlock, PageOf, PerArena, SizeOf, ListsOk, ArenasOk, LiveOk;
    forall y | y in s'.live ensures LiveOk(s', y) {
      TakeLive(s, pool, d, size, y);
    }
    SamePages(s, s', pool);
    hide PagesOk;
  }

  /** Moving blocks within small arenas leaves the pages alone. */
  lemma SamePages(s: State, s': State, pool: set<nat>)
    requires PagesOk(s, pool) && s'.pages == s.pages && s'.arenas.Keys == s.arenas.Keys
    requires forall p :: p in s.arenas ==> PageCnt(s'.arenas[p]) == PageCnt(s.arenas[p])
    ensures PagesOk(s', pool)
  {
    assert forall q: nat, r: nat :: Covers(s'.arenas, r, q) <==> Covers(s.arenas, r, q);
    hide Covers, PageCnt;
    assert forall q: nat :: Owned(s'.arenas, q) == Owned(s.arenas, q);
  }

  lemma PutArenaAt(s: State, pool: set<nat>, d: nat, x: nat, q: nat, e: nat)
    requires Inv(s, pool) && d < 7 && x in s.live && Small(s, PageOf(x), d) && e < 7 && Small(s, q, e)
    ensures |Put(s, d, x).descs| == 7 && Small(Put(s, d, x), q, e) && ArenaOk(Put(s, d, x), q, e)
  {
    var s', l := Put(s, d, x), s.descs[d].freeList;
    assert ArenaOk(s, q, e) && ArenaOk(s, PageOf(x), d) && LiveOk(s, x);
    hide IsBlock, PageOf, PerArena, SizeOf, ListsOk, ArenasOk, PagesOk, LiveOk;
    assert x !in l;
    assert forall y :: y in [x] + l <==> y in l || y == x;
    if q == PageOf(x) {
      assert FreeOf([x] + l, q) == FreeOf(l, q) + {x};
      assert x !in FreeOf(l, q);
    } else {
      assert FreeOf(s'.descs[e].freeList, q) == FreeOf(s.descs[e].freeList, q);
    }
  }

  lemma PutArenas(s: State, pool: set<nat>, d: nat, x: nat)
    requires Inv(s, pool) && d < 7 && x in s.live && Small(s, PageOf(x), d)
    ensures ListsOk(Put(s, d, x)) && ArenasOk(Put(s, d, x))
  {
    var s', l := Put(s, d, x), s.descs[d].freeList;
    assert LiveOk(s, x) && ListOk(s, d) && ArenaOk(s, PageOf(x), d);
    assert x !in l;
    assert IsBlock(x, SizeOf(d));
    hide IsBlock, PageOf, PerArena, SizeOf, PagesOk, LiveOk, ArenaOk;
    forall e | 0 <= e < 7 ensures ListOk(s', e) {
      assert ListOk(s, e);
    }
    hide ListsOk, ListOk;
    forall q, e | 0 <= e < 7 && Small(s', q, e) ensures ArenaOk(s', q, e) {
      assert Small(s, q, e);
      PutArenaAt(s, pool, d, x, q, e);
    }
    forall q | Big(s', q) ensures BigOk(s', q) {
      assert Big(s, q);
      BigBlock(s, pool, q);
    }
  }

  /** The block of a big arena is not a block of a small one. */
  lemma BigBlock(s: State, pool: set<nat>, q: nat)
    requires Inv(s, pool) && Big(s, q)
    ensures PageOf(q * 4096 + 12) == q && q * 4096 + 12 in s.live && s.arenas[q].freeCnt >= 1
  {
    hide ListsOk, PagesOk, LiveOk, ArenaOk;
    assert BigOk(s, q);
  }

  lemma PutInv(s: State, pool: set<nat>, d: nat, x: nat)
    requires Inv(s, pool) && Tidy(s, None) && d < 7 && x in s.live && Small(s, PageOf(x), d)
    ensures Inv(Put(s, d, x), pool) && Tidy(Put(s, d, x), Some(PageOf(x)))
    ensures Put(s, d, x).arenas[PageOf(x)].freeCnt <= s.descs[d].blocksPerArena
  {
    var s' := Put(s, d, x);
    PutArenas(s, pool, d, x);
    hide IsBlock, PageOf, PerArena, SizeOf, ListsOk, ArenasOk;
    forall y | y in s'.live ensures LiveOk(s', y) {
      assert LiveOk(s, y);
    }
    SamePages(s, s', pool);
    hide PagesOk, LiveOk;
    assert s.arenas[PageOf(x)].freeCnt < s.descs[d].blocksPerArena;
  }

  lemma {:induction false} WithoutPageIs(list: seq<nat>, p: nat)
    requires NoDup(list)
    ensures NoDup(WithoutPage(list, p))
    ensures forall x :: x in WithoutPage(list, p) <==> x in list && PageOf(x) != p
  {
    hide PageOf;
    if list != [] {
      assert list == [list[0]] + list[1..];
      WithoutPageIs(list[1..], p);
    }
  }

  /** An arena whose blocks are all free has no block in use. */
  lemma UnusedArena(s: State, pool: set<nat>, d: nat, p: nat)
    requires Inv(s, pool) && d < 7 && Small(s, p, d) && s.arenas[p].freeCnt >= s.descs[d].blocksPerArena
    ensures s.arenas[p].freeCnt == s.descs[d].blocksPerArena
    ensures forall x :: x in s.live ==> PageOf(x) != p
  {
    assert ListOk(s, d) && ArenaOk(s, p, d);
    FreeOfBounded(s.descs[d].freeList, p, SizeOf(d));
    hide IsBlock, PageOf, PerArena, SizeOf, ListsOk, ArenasOk, PagesOk;
    forall x | x in s.live ensures PageOf(x) != p {
      assert LiveOk(s, x);
    }
  }

  lemma ReleaseArenas(s: State, pool: set<nat>, d: nat, p: nat)
    requires Inv(s, pool) && d < 7 && Small(s, p, d) && s.arenas[p].freeCnt >= s.descs[d].blocksPerArena
    ensures ListsOk(Release(s, d, p)) && ArenasOk(Release(s, d, p))
  {
    var s', l := Release(s, d, p), s.descs[d].freeList;
    hide IsBlock, PageOf, PerArena, SizeOf, PagesOk, LiveOk;
    assert ListOk(s, d);
    WithoutPageIs(l, p);
    hide WithoutPage;
    forall e | 0 <= e < 7 ensures ListOk(s', e) {
      assert ListOk(s, e);
    }
    hide ListsOk;
    forall q, e | 0 <= e < 7 && Small(s', q, e) ensures ArenaOk(s', q, e) {
      assert Small(s, q, e) && ArenaOk(s, q, e);
      assert FreeOf(s'.descs[e].freeList, q) == FreeOf(s.descs[e].freeList, q);
    }
    forall q | Big(s', q) ensures BigOk(s', q) {
      assert Big(s, q);
    }
  }

  lemma ReleaseInv(s: State, pool: set<nat>, d: nat, p: nat)
    requires Inv(s, pool) && d < 7 && Small(s, p, d) && s.arenas[p].freeCnt >= s.descs[d].blocksPerArena
    requires Tidy(s, Some(p))
    ensures Inv(Release(s, d, p), pool) && Tidy(Release(s, d, p), None)
  {
    var s' := Release(s, d, p);
    ReleaseArenas(s, pool, d, p);
    UnusedArena(s, pool, d, p);
    hide IsBlock, PageOf, PerArena, SizeOf, ListsOk, ArenasOk, PagesOk, WithoutPage;
    forall y | y in s'.live ensures LiveOk(s', y) {
      assert LiveOk(s, y);
    }
    hide LiveOk;
    assert Run(p, 1) == {p};
    DropPages(s, s', pool, p);
  }

  lemma TakeBigArenas(s: State, pool: set<nat>, p: nat, n: nat, size: nat)
    requires Inv(s, pool) && n >= 1 && Run(p, n) <= s.pages
    ensures ListsOk(TakeBig(s, p, n, size)) && ArenasOk(TakeBig(s, p, n, size))
  {
    var s' := TakeBig(s, p, n, size);
    FreshPage(s, pool, p);
    var x := p * 4096 + 12;
    assert PageOf(x) == p;
    hide IsBlock, PageOf, PerArena, SizeOf, PagesOk, LiveOk, FreeOf, NoDup;
    forall e | 0 <= e < 7 ensures ListOk(s', e) {
      assert ListOk(s, e);
    }
    hide ListsOk, ListOk;
    forall q, e | 0 <= e < 7 && Small(s', q, e) ensures ArenaOk(s', q, e) {
      assert Small(s, q, e) && ArenaOk(s, q, e);
    }
    forall q | Big(s', q) ensures BigOk(s', q) {
      assert q != p ==> Big(s, q);
    }
  }

  lemma TakeBigInv(s: State, pool: set<nat>, p: nat, n: nat, size: nat)
    requires Inv(s, pool) && Tidy(s, None) && n >= 1 && Run(p, n) <= s.pages
    requires size <= 0xFFFF_FFF4 ==> size + 12 <= 4096 * n
    ensures Inv(TakeBig(s, p, n, size), pool) && Tidy(TakeBig(s, p, n, size), None)
    ensures p * 4096 + 12 !in s.live
  {
    var s' := TakeBig(s, p, n, size);
    TakeBigArenas(s, pool, p, n, size);
    FreshPage(s, pool, p);
    var x := p * 4096 + 12;
    assert PageOf(x) == p && x % 4096 == 12;
    AddPages(s, s', pool, p, Arena(None, n));
    hide IsBlock, PageOf, PerArena, SizeOf, ListsOk, ArenasOk, PagesOk;
    forall y | y in s'.live ensures LiveOk(s', y) {
      assert y != x ==> LiveOk(s, y);
    }
    hide LiveOk;
  }

  lemma PutBigArenas(s: State, pool: set<nat>, x: nat)
    requires Inv(s, pool) && x in s.live && Big(s, PageOf(x))
    ensures x == PageOf(x) * 4096 + 12
    ensures forall y :: y in s.live && y != x ==> PageOf(y) != PageOf(x)
    ensures ListsOk(PutBig(s, x)) && ArenasOk(PutBig(s, x))
  {
    var s', p := PutBig(s, x), PageOf(x);
    assert LiveOk(s, x) && x == p * 4096 + 12;
    assert forall y :: y in s.live && PageOf(y) == p ==> LiveOk(s, y) && y == x;
    hide PagesOk, LiveOk;
    forall q | Big(s', q) ensures BigOk(s', q) {
      assert Big(s, q);
      BigBlock(s, pool, q);
    }
    hide IsBlock, PerArena, SizeOf, FreeOf, NoDup;
    forall e | 0 <= e < 7 ensures ListOk(s', e) {
      assert ListOk(s, e);
    }
    hide ListsOk, ListOk;
    forall q, e | 0 <= e < 7 && Small(s', q, e) ensures ArenaOk(s', q, e) {
      assert Small(s, q, e) && ArenaOk(s, q, e);
    }
  }

  lemma PutBigInv(s: State, pool: set<nat>, x: nat)
    requires Inv(s, pool) && Tidy(s, None) && x in s.live && Big(s, PageOf(x))
    ensures Inv(PutBig(s, x), pool) && Tidy(PutBig(s, x), None)
  {
    var s', p := PutBig(s, x), PageOf(x);
    PutBigArenas(s, pool, x);
    DropPages(s, s', pool, p);
    hide IsBlock, PerArena, SizeOf, ListsOk, ArenasOk, PagesOk, PageOf;
    forall y | y in s'.live ensures LiveOk(s', y) {
      assert LiveOk(s, y);
    }
  }

  // ---------- what the invariant promises ----------

  /** Blocks in use never overlap. */
  lemma LiveDisjoint(s: State, pool: set<nat>, x: nat, y: nat)
    requires Inv(s, pool) && x in s.live && y in s.live && x < y
    ensures PageOf(x) in s.arenas && x + BlockSize(s, x) <= y
  {
    assert LiveOk(s, x) && LiveOk(s, y);
    var p, q := PageOf(x), PageOf(y);
    assert p <= q;
    if p == q {
      var d := s.arenas[p].desc;
      assert d.Some?;
      BlocksApart(x, y, SizeOf(d.value));
    } else {
      WithinArena(s, pool, x);
      assert Covers(s.arenas, p, q) ==> Covers(s.arenas, q, q);
      hide IsBlock, PerArena, SizeOf, ListsOk, ArenasOk, LiveOk;
    }
  }

  /** A block in use lies behind the header of its arena and within the arena's pages. */
  lemma WithinArena(s: State, pool: set<nat>, x: nat)
    requires Inv(s, pool) && x in s.live
    ensures PageOf(x) in s.arenas && PageOf(x) * 4096 + 12 <= x
    ensures x + BlockSize(s, x) <= (PageOf(x) + PageCnt(s.arenas[PageOf(x)])) * 4096
  {
    assert LiveOk(s, x);
    hide ListsOk, ArenasOk, PagesOk;
    match s.arenas[PageOf(x)].desc {
      case Some(d) =>
        BlockAtIndex(x, SizeOf(d));
        BlockAtInverse(PageOf(x), SizeOf(d), IndexOf(x, SizeOf(d)));
      case None =>
    }
  }

  /** Every arena has a block in use: a page goes back as soon as its last block does. */
  lemma ArenaInUse(s: State, pool: set<nat>, p: nat)
    requires Inv(s, pool) && Tidy(s, None) && p in s.arenas
    ensures exists x :: x in s.live && PageOf(x) == p
  {
    match s.arenas[p].desc {
      case Some(d) =>
        assert ListOk(s, d) && Small(s, p, d) && ArenaOk(s, p, d);
        FreeOfBounded(s.descs[d].freeList, p, SizeOf(d));
      case None =>
        assert Big(s, p);
        BigBlock(s, pool, p);
    }
  }
}
