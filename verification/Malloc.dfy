/** malloc and free: size-class free lists over pages. */
module Malloc {
  import opened Common
  import opened MallocArenas

  // ---------- requests ----------

  /** The smallest descriptor whose blocks hold `size` bytes; 7 if there is none. */
  function DescFor(size: nat): nat {
    if size <= 16 then 0 else if size <= 32 then 1 else if size <= 64 then 2 else if size <= 128 then 3
    else if size <= 256 then 4 else if size <= 512 then 5 else if size <= 1024 then 6 else 7
  }

  lemma DescForIsSmallest(size: nat)
    ensures var d := DescFor(size);
            && (d < 7 ==> size <= SizeOf(d))
            && (forall e :: 0 <= e < 7 && e < d ==> SizeOf(e) < size)
            && (d == 7 <==> size > 1024) && d <= 7
  {
  }

  /** DIV_ROUND_UP (size + sizeof *a, PGSIZE) on the 32-bit size_t. */
  function PageCount(size: nat): nat {
    ((size + 12) % 0x1_0000_0000 + 4096 - 1) % 0x1_0000_0000 / 4096
  }

  /** The pages hold the header and the request unless the sum overflows; then malloc fails, or, for the eleven
      largest requests, settles for one page. */
  lemma PageCountCovers(size: nat)
    requires 1024 < size < 0x1_0000_0000
    ensures size < 0xFFFF_EFF5 ==> PageCount(size) >= 1 && 4096 * (PageCount(size) - 1) < size + 12 <= 4096 * PageCount(size)
    ensures 0xFFFF_EFF5 <= size <= 0xFFFF_FFF4 ==> PageCount(size) == 0
    ensures size > 0xFFFF_FFF4 ==> PageCount(size) == 1
  {
    if size > 0xFFFF_FFF4 {
      assert (size + 12) % 0x1_0000_0000 == size - 0xFFFF_FFF4;
    }
  }

  // ---------- loops over the blocks of an arena ----------

  lemma MoreBlocks(p: nat, bs: nat, i: nat)
    ensures Blocks(p, bs, i + 1) == Blocks(p, bs, i) + [BlockAt(p, bs, i)]
  {
  }

  /** list_remove */
  function Remove(s: seq<nat>, x: nat): seq<nat> {
    if s == [] then [] else if s[0] == x then s[1..] else [s[0]] + Remove(s[1..], x)
  }

  predicate Kept(x: nat, p: nat, bs: nat, i: nat)
    requires 0 < bs
  {
    PageOf(x) != p || (IsBlock(x, bs) && IndexOf(x, bs) >= i)
  }

  /** `list` without the first `i` blocks of page `p`. */
  function Without(list: seq<nat>, p: nat, bs: nat, i: nat): seq<nat>
    requires 0 < bs
  {
    if list == [] then []
    else if Kept(list[0], p, bs, i) then [list[0]] + Without(list[1..], p, bs, i)
    else Without(list[1..], p, bs, i)
  }

  lemma {:induction false} WithoutEnds(list: seq<nat>, p: nat, bs: nat)
    requires 0 < bs && forall x :: x in list && PageOf(x) == p ==> IsBlock(x, bs)
    ensures Without(list, p, bs, 0) == list
    ensures Without(list, p, bs, PerArena(bs)) == WithoutPage(list, p)
  {
    if list != [] {
      assert list == [list[0]] + list[1..];
      WithoutEnds(list[1..], p, bs);
    }
  }

  lemma {:induction false} WithoutMembers(list: seq<nat>, p: nat, bs: nat, i: nat)
    requires 0 < bs
    ensures forall x :: x in Without(list, p, bs, i) <==> x in list && Kept(x, p, bs, i)
  {
    hide Kept;
    if list != [] {
      assert list == [list[0]] + list[1..];
      WithoutMembers(list[1..], p, bs, i);
    }
  }

  lemma {:induction false} RemoveOne(list: seq<nat>, p: nat, bs: nat, i: nat)
    requires 0 < bs && i < PerArena(bs) && NoDup(list)
    requires forall x :: x in list && PageOf(x) == p ==> IsBlock(x, bs)
    ensures Remove(Without(list, p, bs, i), BlockAt(p, bs, i)) == Without(list, p, bs, i + 1)
  {
    var x := BlockAt(p, bs, i);
    if list != [] {
      assert list == [list[0]] + list[1..];
      OnlyOneDiffers(list[0], p, bs, i);
      RemoveOne(list[1..], p, bs, i);
      if list[0] == x {
        SameWithout(list[1..], p, bs, i);
      }
    }
  }

  lemma OnlyOneDiffers(y: nat, p: nat, bs: nat, i: nat)
    requires 0 < bs && i < PerArena(bs)
    ensures Kept(BlockAt(p, bs, i), p, bs, i) && !Kept(BlockAt(p, bs, i), p, bs, i + 1)
    ensures y != BlockAt(p, bs, i) ==> Kept(y, p, bs, i) == Kept(y, p, bs, i + 1)
  {
    BlockAtInverse(p, bs, i);
    if IsBlock(y, bs) {
      BlockAtIndex(y, bs);
    }
  }

  lemma {:induction false} SameWithout(list: seq<nat>, p: nat, bs: nat, i: nat)
    requires 0 < bs && i < PerArena(bs) && BlockAt(p, bs, i) !in list
    ensures Without(list, p, bs, i) == Without(list, p, bs, i + 1)
  {
    if list != [] {
      assert list == [list[0]] + list[1..];
      OnlyOneDiffers(list[0], p, bs, i);
      SameWithout(list[1..], p, bs, i);
    }
  }

  // ---------- the effect of the calls ----------

  /** The 32-bit address space. */
  type Memory = m: seq<Byte> | |m| == 0x1_0000_0000 witness seq(0x1_0000_0000, _ => 0)

  /** memset; the part of a write beyond the address space is lost. */
  function Filled(m: Memory, p: nat, value: Byte, n: nat): (m': Memory)
    ensures forall a :: 0 <= a < 0x1_0000_0000 ==> m'[a] == if p <= a < p + n then value else m[a]
  {
    seq(0x1_0000_0000, a requires 0 <= a < 0x1_0000_0000 => if p <= a < p + n then value else m[a])
  }

  /** memcpy */
  function Copied(m: Memory, dst: nat, src: nat, n: nat): (m': Memory)
    ensures forall a :: 0 <= a < 0x1_0000_0000 ==>
      m'[a] == if dst <= a < dst + n && a - dst + src < 0x1_0000_0000 then m[a - dst + src] else m[a]
  {
    seq(0x1_0000_0000, a requires 0 <= a < 0x1_0000_0000 =>
      if dst <= a < dst + n && a - dst + src < 0x1_0000_0000 then m[a - dst + src] else m[a])
  }

  ghost predicate SameBytes(m: Memory, m': Memory, lo: nat, n: nat) {
    forall a :: 0 <= a < 0x1_0000_0000 && lo <= a < lo + n ==> m'[a] == m[a]
  }

  /** The blocks in use keep their bytes. */
  ghost predicate LiveBytesKept(s: State, live: map<nat, nat>, m: Memory, m': Memory) {
    forall x :: x in live && DescsOk(s) && PageOf(x) in s.arenas ==> SameBytes(m, m', x, BlockSize(s, x))
  }

  /** A request of `size` bytes was given block `x`. */
  function Malloced(s: State, size: nat, x: nat): State
    requires DescsOk(s)
  {
    var d := DescFor(size);
    if d == 7 then TakeBig(s, PageOf(x), PageCount(size), size)
    else if s.descs[d].freeList != [] then Take(s, d, size)
    else
      var t := NewArena(s, d, PageOf(x));
      if t.descs[d].freeList != [] then Take(t, d, size) else t
  }

  /** Block `x` was freed. */
  function Freed(s: State, x: nat): State
    requires DescsOk(s) && PageOf(x) in s.arenas
  {
    match s.arenas[PageOf(x)].desc
    case None => PutBig(s, x)
    case Some(d) =>
      if d >= 7 then s
      else
        var t := Put(s, d, x);
        if t.arenas[PageOf(x)].freeCnt >= t.descs[d].blocksPerArena then Release(t, d, PageOf(x)) else t
  }

  /** The 32-bit product that calloc computes. */
  function Product(a: nat, b: nat): (n: nat)
    ensures n < 0x1_0000_0000
  {
    a * b % 0x1_0000_0000
  }

  lemma ProductFits(a: nat, b: nat, blockSize: nat)
    requires blockSize < 0x1_0000_0000
    requires Product(a, b) <= blockSize <==> Product(a, b) <= 0xFFFF_FFF4
    ensures a * b <= blockSize <==> a * b <= 0xFFFF_FFF4
  {
    if a * b < 0x1_0000_0000 {
      assert Product(a, b) == a * b;
    }
  }

  /** Whether what realloc copies fits in the new block. */
  predicate CopyFits(newSize: nat, oldSize: nat) { newSize <= 0xFFFF_FFF4 || oldSize <= 4084 }

  /** Arenas keep their descriptor, and big ones their pages. */
  predicate OldArenasStay(before: map<nat, Arena>, arenas: map<nat, Arena>) {
    forall p :: p in before ==>
      p in arenas && arenas[p].desc == before[p].desc && (before[p].desc.None? ==> arenas[p] == before[p])
  }

  /** Pages lie in the 32-bit address space, not at the null pointer. */
  ghost predicate PoolOk(pool: set<nat>) { 0 !in pool && forall q :: q in pool ==> q < 0x10_0000 }

  class Heap {
    var descs: seq<Desc>
    var arenas: map<nat, Arena>
    var pages: set<nat>
    var mem: Memory
    ghost var live: map<nat, nat>
    ghost const pool: set<nat>

    ghost function S(): State reads this { State(descs, arenas, pages, live) }

    ghost predicate Valid() reads this { PoolOk(pool) && Inv(S(), pool) && Tidy(S(), None) }

    constructor MallocInit(pages: set<nat>, mem: Memory)
      requires PoolOk(pages)
      ensures Valid() && pool == pages && this.pages == pages && this.mem == mem
      ensures live == map[] && arenas == map[]
    {
      this.arenas, this.pages, this.mem, this.live, this.pool := map[], pages, mem, map[], pages;
      var ds: seq<Desc> := [];
      var blockSize := 16;
      while blockSize < 4096 / 2
        invariant |ds| <= 7
        invariant if |ds| < 7 then blockSize == SizeOf(|ds|) else blockSize == 2048
        invariant forall d :: 0 <= d < |ds| ==> ds[d] == Desc(SizeOf(d), PerArena(SizeOf(d)), [])
        decreases 2048 - blockSize
      {
        ds := ds + [Desc(blockSize, (4096 - 12) / blockSize, [])];
        blockSize := blockSize * 2;
      }
      descs := ds;
    }

    /** palloc_get_multiple: some run of `n` free pages, if there is one. */
    method PallocGetMultiple(n: nat) returns (p: Option<nat>)
      modifies this`pages
      ensures p.None? ==> pages == old(pages) && (n == 0 || forall q :: q in pages ==> !(Run(q, n) <= pages))
      ensures p.Some? ==> n >= 1 && Run(p.value, n) <= old(pages) && pages == old(pages) - Run(p.value, n)
    {
      if n == 0 {
        return None;
      }
      if q :| q in pages && Run(q, n) <= pages {
        pages := pages - Run(q, n);
        return Some(q);
      }
      return None;
    }

    /** palloc_free_multiple: the pages are free again and overwritten. */
    method PallocFreeMultiple(p: nat, n: nat)
      modifies this`pages, this`mem
      ensures pages == old(pages) + Run(p, n)
      ensures mem == Filled(old(mem), p * 4096, 0xcc, n * 4096)
    {
      pages := pages + Run(p, n);
      mem := Filled(mem, p * 4096, 0xcc, n * 4096);
    }

    /** block_to_arena; its assertions are the precondition. */
    function BlockToArena(b: nat): (p: nat)
      requires PageOf(b) in arenas && PageOf(b) != 0
      requires arenas[PageOf(b)].desc.None? ==> b % 4096 == 12
      requires arenas[PageOf(b)].desc.Some? ==>
        arenas[PageOf(b)].desc.value < |descs| && descs[arenas[PageOf(b)].desc.value].blockSize > 0
        && b % 4096 >= 12 && (b % 4096 - 12) % descs[arenas[PageOf(b)].desc.value].blockSize == 0
      reads this
      ensures p == PageOf(b)
    {
      b / 4096
    }

    /** arena_to_block; its assertions are the precondition. */
    function ArenaToBlock(p: nat, i: nat): (b: nat)
      requires p in arenas && p != 0 && arenas[p].desc.Some? && arenas[p].desc.value < |descs|
      requires i < descs[arenas[p].desc.value].blocksPerArena
      reads this
      ensures b == BlockAt(p, descs[arenas[p].desc.value].blockSize, i)
    {
      p * 4096 + 12 + i * descs[arenas[p].desc.value].blockSize
    }

    /** block_size */
    function SizeOfBlock(b: nat): (n: nat)
      requires PoolOk(pool) && Inv(S(), pool) && b in live
      reads this
      ensures DescsOk(S()) && PageOf(b) in arenas && n == BlockSize(S(), b)
    {
      LiveStart(S(), pool, b);
      InvDescs(S(), pool);
      var a := arenas[BlockToArena(b)];
      if a.desc.Some? then descs[a.desc.value].blockSize
      else (BigBlockSize(S(), pool, b); 4096 * a.freeCnt - b % 4096)
    }

    /** The part of malloc that turns a fresh page into blocks. */
    method AddArena(d: nat) returns (p: Option<nat>)
      requires Valid() && d < 7
      modifies this`descs, this`arenas, this`pages
      ensures p.None? ==> S() == old(S()) && pages == {}
      ensures p.Some? ==> p.value in old(pages) && S() == NewArena(old(S()), d, p.value)
    {
      hide Inv, Tidy;
      ghost var s := S();
      InvDescs(s, pool);
      p := PallocGetMultiple(1);
      if p.None? {
        assert forall q: nat :: Run(q, 1) == {q};
        assert pages == {};
        return;
      }
      assert Run(p.value, 1) == {p.value};
      InvPages(s, pool);
      var bs, n := descs[d].blockSize, descs[d].blocksPerArena;
      var list := descs[d].freeList;
      arenas := arenas[p.value := Arena(Some(d), n)];
      var i := 0;
      assert list + Blocks(p.value, bs, 0) == list;
      while i < n
        invariant 0 <= i <= n
        modifies this`descs
        invariant descs == s.descs[d := s.descs[d].(freeList := list + Blocks(p.value, bs, i))]
      {
        MoreBlocks(p.value, bs, i);
        assert list + Blocks(p.value, bs, i + 1) == list + Blocks(p.value, bs, i) + [BlockAt(p.value, bs, i)];
        var b := ArenaToBlock(p.value, i);
        descs := descs[d := descs[d].(freeList := descs[d].freeList + [b])];
        i := i + 1;
      }
    }

    method Malloc(size: nat) returns (r: Option<nat>)
      requires Valid() && size < 0x1_0000_0000
      modifies this`descs, this`arenas, this`pages, this`live
      ensures Valid()
      ensures r.None? ==> S() == old(S())
      ensures r.None? <==> CannotServe(old(S()), size)
      ensures r.Some? ==> r.value !in old(live) && live == old(live)[r.value := size]
      ensures r.Some? ==> DescsOk(old(S())) && S() == Malloced(old(S()), size, r.value)
      ensures r.Some? ==> DescsOk(S()) && PageOf(r.value) in arenas
      ensures r.Some? ==> (size <= BlockSize(S(), r.value) <==> size <= 0xFFFF_FFF4)
      // the smallest size class that fits
      ensures r.Some? && size <= 1024 ==>
        exists d :: 0 <= d < 7 && BlockSize(S(), r.value) == SizeOf(d) && forall e :: 0 <= e < d ==> SizeOf(e) < size
      ensures r.Some? ==> BlockSize(S(), r.value) < 0x1_0000_0000 && (size > 0xFFFF_FFF4 ==> BlockSize(S(), r.value) == 4084)
      ensures r.Some? ==> OldArenasStay(old(arenas), arenas)
    {
      hide Inv, Tidy, Malloced, BlockSize, PageOf, OldArenasStay;
      ghost var s := S();
      InvDescs(s, pool);
      if size == 0 {
        return None;
      }
      var d := 0;
      while d < |descs| && descs[d].blockSize < size
        invariant 0 <= d <= |descs| && d <= DescFor(size)
      {
        d := d + 1;
      }
      assert d == DescFor(size);
      hide DescsOk;
      if d == |descs| {
        PageCountCovers(size);
        hide PageCount;
        r := MallocBig(size);
      } else {
        hide PageCount;
        r := MallocSmall(d, size);
      }
    }

    method MallocBig(size: nat) returns (r: Option<nat>)
      requires Valid() && 1024 < size < 0x1_0000_0000
      modifies this`arenas, this`pages, this`live
      ensures Valid() && DescsOk(S())
      ensures r.None? ==> S() == old(S())
      ensures r.None? <==> NoRun(old(pages), PageCount(size))
      ensures r.Some? ==> r.value !in old(live) && live == old(live)[r.value := size]
      ensures r.Some? ==> DescsOk(old(S())) && S() == Malloced(old(S()), size, r.value)
      ensures r.Some? ==> PageOf(r.value) in arenas && BlockSize(S(), r.value) == 4096 * PageCount(size) - 12
      ensures r.Some? ==> OldArenasStay(old(arenas), arenas)
    {
      hide Inv, Tidy, PageCount, Run, PageOf, BlockSize;
      ghost var s := S();
      InvDescs(s, pool);
      var pageCnt := PageCount(size);
      var p := PallocGetMultiple(pageCnt);
      if p.None? {
        return None;
      }
      hide DescsOk;
      RunStart(p.value, pageCnt);
      BigTaken(s, pool, p.value, size);
      hide TakeBig, OldArenasStay;
      var x := InitBig(s, p.value, pageCnt, size);
      r := Some(x);
    }

    /** The end of malloc for a big block, on pages taken from the pool of `s`. */
    method InitBig(ghost s: State, p: nat, pageCnt: nat, size: nat) returns (x: nat)
      requires S() == s.(pages := s.pages - Run(p, pageCnt))
      modifies this`arenas, this`live
      ensures x == p * 4096 + 12 && S() == TakeBig(s, p, pageCnt, size)
    {
      hide Run;
      arenas := arenas[p := Arena(None, pageCnt)];
      x := p * 4096 + 12;
      live := live[x := size];
    }

    method MallocSmall(d: nat, size: nat) returns (r: Option<nat>)
      requires Valid() && d == DescFor(size) && d < 7 && size > 0
      modifies this`descs, this`arenas, this`pages, this`live
      ensures Valid() && DescsOk(S())
      ensures r.None? ==> S() == old(S())
      ensures r.None? <==> DescsOk(old(S())) && old(descs)[d].freeList == [] && old(pages) == {}
      ensures r.Some? ==> r.value !in old(live) && live == old(live)[r.value := size]
      ensures r.Some? ==> DescsOk(old(S())) && S() == Malloced(old(S()), size, r.value)
      ensures r.Some? ==> PageOf(r.value) in arenas && BlockSize(S(), r.value) == SizeOf(d)
      ensures r.Some? ==> OldArenasStay(old(arenas), arenas)
    {
      hide Inv, Tidy, IsBlock, PageOf;
      ghost var s := S();
      InvDescs(s, pool);
      if descs[d].freeList != [] {
        TidyBut(s, Some(PageOf(s.descs[d].freeList[0])));
      }
      if descs[d].freeList == [] {
        var p := AddArena(d);
        if p.None? {
          return None;
        }
        FreshPage(s, pool, p.value);
        NewArenaInv(s, pool, d, p.value);
        NewArenaHead(s, d, p.value);
        hide NewArena;
      }
      r := TakeHead(d, size);
    }

    /** The end of malloc: the first block of the free list is handed out. */
    method TakeHead(d: nat, size: nat) returns (r: Option<nat>)
      requires PoolOk(pool) && Inv(S(), pool) && d < 7 && 0 < size <= SizeOf(d)
      requires DescsOk(S()) && descs[d].freeList != [] && Tidy(S(), Some(PageOf(descs[d].freeList[0])))
      modifies this`descs, this`arenas, this`live
      ensures Valid() && DescsOk(S())
      ensures r == Some(old(descs)[d].freeList[0])
      ensures r.value !in old(live) && S() == Take(old(S()), d, size)
      ensures PageOf(r.value) in arenas && BlockSize(S(), r.value) == SizeOf(d)
      ensures OldArenasStay(old(arenas), arenas)
    {
      hide Inv, Tidy, PageOf;
      ghost var s := S();
      HeadIsFree(s, pool, d);
      TakeInv(s, pool, d, size);
      var b := descs[d].freeList[0];
      descs := descs[d := descs[d].(freeList := descs[d].freeList[1..])];
      PageZero(s, pool, PageOf(b));
      var a := BlockToArena(b);
      arenas := arenas[a := arenas[a].(freeCnt := arenas[a].freeCnt - 1)];
      live := live[b := size];
      assert S() == Take(s, d, size);
      r := Some(b);
    }

    method Calloc(a: nat, b: nat) returns (r: Option<nat>)
      requires Valid() && a < 0x1_0000_0000 && b < 0x1_0000_0000
      modifies this`descs, this`arenas, this`pages, this`live, this`mem
      ensures Valid()
      ensures r.None? ==> S() == old(S()) && mem == old(mem)
      ensures r.None? <==> Product(a, b) < a || Product(a, b) < b || CannotServe(old(S()), Product(a, b))
      ensures r.Some? ==> r.value !in old(live) && live == old(live)[r.value := Product(a, b)]
      ensures r.Some? ==> DescsOk(S()) && PageOf(r.value) in arenas
      ensures r.Some? ==> (a * b <= BlockSize(S(), r.value) <==> a * b <= 0xFFFF_FFF4)
      ensures r.Some? ==> mem == Filled(old(mem), r.value, 0, Product(a, b))
      ensures Product(a, b) <= 0xFFFF_FFF4 ==> LiveBytesKept(old(S()), old(live), old(mem), mem)
    {
      hide Inv, Tidy, BlockSize, Malloced, CannotServe, LiveBytesKept, Product, OldArenasStay, PageOf, DescsOk;
      ghost var s, m := S(), mem;
      var size := Product(a, b);
      KeptSame(s, live, m);
      if size < a || size < b {
        return None;
      }
      r := Malloc(size);
      if r.Some? {
        ProductFits(a, b, BlockSize(S(), r.value));
        mem := Filled(mem, r.value, 0, size);
        if size <= 0xFFFF_FFF4 {
          FilledBlock(s, S(), pool, r.value, size, m, mem);
        }
      }
    }

    method Realloc(oldBlock: Option<nat>, newSize: nat) returns (r: Option<nat>)
      requires Valid() && newSize < 0x1_0000_0000 && (oldBlock.Some? ==> oldBlock.value in live)
      modifies this`descs, this`arenas, this`pages, this`live, this`mem
      ensures Valid() && DescsOk(old(S()))
      ensures oldBlock.Some? ==> PageOf(oldBlock.value) in old(arenas)
      ensures newSize == 0 ==> r.None? && S() == if oldBlock.Some? then Freed(old(S()), oldBlock.value) else old(S())
      ensures newSize > 0 ==> (r.None? <==> CannotServe(old(S()), newSize))
      ensures newSize > 0 && r.None? ==> S() == old(S()) && mem == old(mem)
      ensures r.Some? && oldBlock.None? ==> S() == Malloced(old(S()), newSize, r.value) && mem == old(mem)
      ensures r.Some? && oldBlock.Some? ==> Malloced(old(S()), newSize, r.value).live == old(live)[r.value := newSize]
      ensures r.Some? && oldBlock.Some? ==> live == old(live)[r.value := newSize] - {oldBlock.value}
      ensures r.Some? && oldBlock.Some? ==>
        var t := Malloced(old(S()), newSize, r.value);
        && DescsOk(t) && PageOf(r.value) in t.arenas
        && PageOf(oldBlock.value) in t.arenas && S() == Freed(t, oldBlock.value)
        && CopyFits(newSize, BlockSize(old(S()), oldBlock.value))
           == (Min(newSize, BlockSize(old(S()), oldBlock.value)) <= BlockSize(t, r.value))
      ensures r.Some? && oldBlock.Some? && CopyFits(newSize, BlockSize(old(S()), oldBlock.value)) ==>
        SameBytes(Copied(old(mem), r.value, oldBlock.value, Min(newSize, BlockSize(old(S()), oldBlock.value))), mem,
                  r.value, Min(newSize, BlockSize(old(S()), oldBlock.value)))
      ensures oldBlock.None? || CopyFits(newSize, BlockSize(old(S()), oldBlock.value)) ==>
        LiveBytesKept(old(S()), if oldBlock.Some? && (newSize == 0 || r.Some?) then old(live) - {oldBlock.value} else old(live),
                      old(mem), mem)
    {
      hide Inv, Tidy, BlockSize, Malloced, CannotServe, LiveBytesKept, Freed;
      ghost var s, m := S(), mem;
      InvDescs(s, pool);
      if oldBlock.Some? {
        LiveStart(s, pool, oldBlock.value);
      }
      KeptSame(s, live, m);
      if newSize == 0 {
        Free(oldBlock);
        r := None;
      } else {
        r := Malloc(newSize);
        if oldBlock.Some? && r.Some? {
          ghost var t := S();
          LiveStart(t, pool, oldBlock.value);
          hide PageOf;
          var oldSize := SizeOfBlock(oldBlock.value);
          var minSize := Min(newSize, oldSize);
          mem := Copied(mem, r.value, oldBlock.value, minSize);
          ghost var m1 := mem;
          Free(oldBlock);
          SameBlockSize(s, t, pool, oldBlock.value);
          if CopyFits(newSize, oldSize) {
            Moved(s, t, pool, oldBlock.value, r.value, minSize, m, m1, mem);
          }
        }
      }
    }

    method Free(p: Option<nat>)
      requires Valid() && (p.Some? ==> p.value in live)
      modifies this`descs, this`arenas, this`pages, this`live, this`mem
      ensures Valid()
      ensures p.None? ==> S() == old(S()) && mem == old(mem)
      ensures p.Some? ==> live == old(live) - {p.value}
      ensures p.Some? ==> DescsOk(old(S())) && PageOf(p.value) in old(arenas) && S() == Freed(old(S()), p.value)
      ensures LiveBytesKept(old(S()), live, old(mem), mem)
    {
      if p.Some? {
        ghost var s := S();
        var b := p.value;
        InvDescs(s, pool);
        LiveStart(s, pool, b);
        hide Inv, Tidy, IsBlock, LiveBytesKept;
        var a := BlockToArena(b);
        if arenas[a].desc.Some? {
          FreeSmall(b, a, arenas[a].desc.value);
        } else {
          PutBigInv(s, pool, b);
          WipedPages(s, pool, a, arenas[a].freeCnt, PutBig(s, b).live);
          PallocFreeMultiple(a, arenas[a].freeCnt);
          arenas := arenas - {a};
          live := live - {b};
          assert S() == PutBig(s, b);
        }
      } else {
        assert LiveBytesKept(S(), live, mem, mem);
      }
    }

    method FreeSmall(b: nat, a: nat, d: nat)
      requires Valid() && b in live && a == PageOf(b) && d < 7 && Small(S(), a, d)
      modifies this`descs, this`arenas, this`pages, this`live, this`mem
      ensures Valid() && live == old(live) - {b}
      ensures DescsOk(old(S())) && S() == Freed(old(S()), b)
      ensures LiveBytesKept(old(S()), live, old(mem), mem)
    {
      hide Inv, Tidy, PageOf, LiveBytesKept;
      ghost var s := S();
      InvDescs(s, pool);
      PutInv(s, pool, d, b);
      WipedBlock(s, pool, d, b);
      mem := Filled(mem, b, 0xcc, descs[d].blockSize);
      ghost var m := mem;
      descs := descs[d := descs[d].(freeList := [b] + descs[d].freeList)];
      arenas := arenas[a := arenas[a].(freeCnt := arenas[a].freeCnt + 1)];
      live := live - {b};
      ghost var t := S();
      assert t == Put(s, d, b);
      assert LiveBytesKept(s, live, old(mem), m);
      InvDescs(t, pool);
      if arenas[a].freeCnt >= descs[d].blocksPerArena {
        assert arenas[a].freeCnt == descs[d].blocksPerArena;
        ReleaseArena(a, d);
        KeptTwice(s, t, pool, live, old(mem), m, mem);
      } else {
        TidyAll(t, a, d);
      }
    }

    /** The end of free: the blocks of an unused arena leave the free list and its page goes back. */
    method ReleaseArena(a: nat, d: nat)
      requires PoolOk(pool) && Inv(S(), pool) && DescsOk(S()) && Tidy(S(), Some(a)) && d < 7 && Small(S(), a, d)
      requires arenas[a].freeCnt >= descs[d].blocksPerArena
      modifies this`descs, this`arenas, this`pages, this`mem
      ensures Valid() && S() == Release(old(S()), d, a)
      ensures LiveBytesKept(old(S()), live, old(mem), mem)
    {
      hide Inv, Tidy, PageOf, LiveBytesKept, IsBlock, Kept, Without;
      ghost var s := S();
      ReleaseInv(s, pool, d, a);
      PageZero(s, pool, a);
      UnusedList(s, pool, d, a);
      var list, bs, n := descs[d].freeList, descs[d].blockSize, descs[d].blocksPerArena;
      WithoutEnds(list, a, bs);
      var i := 0;
      while i < n
        invariant 0 <= i <= n
        modifies this`descs
        invariant descs == s.descs[d := s.descs[d].(freeList := Without(list, a, bs, i))]
      {
        var b := ArenaToBlock(a, i);
        StillListed(list, a, bs, i);
        assert b in descs[d].freeList;
        RemoveOne(list, a, bs, i);
        descs := descs[d := descs[d].(freeList := Remove(descs[d].freeList, b))];
        i := i + 1;
      }
      WipedPages(s, pool, a, 1, live);
      PallocFreeMultiple(a, 1);
      arenas := arenas - {a};
      assert Run(a, 1) == {a};
      assert S() == Release(s, d, a);
    }
  }

  /** No request of `size` bytes can be met. */
  ghost predicate CannotServe(s: State, size: nat) {
    || size == 0
    || (DescsOk(s) && size <= 1024 && s.descs[DescFor(size)].freeList == [] && s.pages == {})
    || (size > 1024 && NoRun(s.pages, PageCount(size)))
  }

  ghost predicate NoRun(pages: set<nat>, n: nat) { n == 0 || forall q :: q in pages ==> !(Run(q, n) <= pages) }

  lemma RunStart(p: nat, n: nat)
    requires n >= 1
    ensures p in Run(p, n)
  {
  }

  lemma InvDescs(s: State, pool: set<nat>)
    requires Inv(s, pool)
    ensures DescsOk(s)
  {
  }

  lemma BigStart(s: State, p: nat, n: nat, size: nat)
    requires DescsOk(s) && n >= 1 && p !in s.arenas
    ensures OldArenasStay(s.arenas, TakeBig(s, p, n, size).arenas)
    ensures PageOf(p * 4096 + 12) == p
    ensures DescsOk(TakeBig(s, p, n, size))
    ensures BlockSize(TakeBig(s, p, n, size), p * 4096 + 12) == 4096 * n - 12
  {
    assert (p * 4096 + 12) / 4096 == p && (p * 4096 + 12) % 4096 == 12;
  }

  lemma BigTaken(s: State, pool: set<nat>, p: nat, size: nat)
    requires Inv(s, pool) && Tidy(s, None) && 1024 < size < 0x1_0000_0000
    requires p in Run(p, PageCount(size)) && PageCount(size) >= 1 && Run(p, PageCount(size)) <= s.pages
    ensures var t, x := TakeBig(s, p, PageCount(size), size), p * 4096 + 12;
            && Inv(t, pool) && Tidy(t, None) && DescsOk(s) && DescsOk(t) && OldArenasStay(s.arenas, t.arenas)
            && x !in s.live && t.live == s.live[x := size]
            && PageOf(x) == p && p in t.arenas && BlockSize(t, x) == 4096 * PageCount(size) - 12
            && Malloced(s, size, x) == t
  {
    PageCountCovers(size);
    hide Inv, Tidy, PageCount, Run, PageOf, BlockSize, OldArenasStay;
    InvDescs(s, pool);
    hide DescsOk;
    FreshPage(s, pool, p);
    TakeBigInv(s, pool, p, PageCount(size), size);
    BigStart(s, p, PageCount(size), size);
  }

  lemma InvPages(s: State, pool: set<nat>)
    requires Inv(s, pool)
    ensures s.pages <= pool
  {
  }

  lemma TidyBut(s: State, but: Option<nat>)
    requires DescsOk(s) && Tidy(s, None)
    ensures Tidy(s, but)
  {
  }

  /** Arenas lie in the pool. */
  lemma PageZero(s: State, pool: set<nat>, p: nat)
    requires Inv(s, pool) && p in s.arenas
    ensures p in pool
  {
    assert Covers(s.arenas, p, p);
  }

  lemma NewArenaHead(s: State, d: nat, p: nat)
    requires DescsOk(s) && d < 7 && s.descs[d].freeList == []
    ensures var l := NewArena(s, d, p).descs[d].freeList;
            l != [] && PageOf(l[0]) == p
  {
    BlockAtInverse(p, SizeOf(d), 0);
  }

  /** The bytes of a block in use lie in the address space. */
  lemma InAddressSpace(s: State, pool: set<nat>, x: nat)
    requires Inv(s, pool) && PoolOk(pool) && x in s.live
    ensures DescsOk(s) && PageOf(x) in s.arenas && x + BlockSize(s, x) <= 0x1_0000_0000
  {
    InvDescs(s, pool);
    WithinArena(s, pool, x);
    var p: nat := PageOf(x);
    assert Covers(s.arenas, p, p);
    var last: nat := p + PageCnt(s.arenas[p]) - 1;
    assert Covers(s.arenas, p, last);
  }

  /** What block_to_arena asserts about a block in use. */
  lemma LiveStart(s: State, pool: set<nat>, x: nat)
    requires Inv(s, pool) && x in s.live
    ensures PageOf(x) in s.arenas && PageOf(x) in pool
    ensures s.arenas[PageOf(x)].desc.None? ==> x % 4096 == 12
    ensures s.arenas[PageOf(x)].desc.Some? ==>
      s.arenas[PageOf(x)].desc.value < 7 && x % 4096 >= 12
      && (x % 4096 - 12) % SizeOf(s.arenas[PageOf(x)].desc.value) == 0
  {
    assert LiveOk(s, x);
    PageZero(s, pool, PageOf(x));
  }

  lemma TidyAll(s: State, p: nat, d: nat)
    requires DescsOk(s) && Tidy(s, Some(p)) && d < 7 && Small(s, p, d)
    requires s.arenas[p].freeCnt < s.descs[d].blocksPerArena
    ensures Tidy(s, None)
  {
  }

  /** Wiping a block in use leaves the other blocks in use alone. */
  lemma WipedBlock(s: State, pool: set<nat>, d: nat, x: nat)
    requires Inv(s, pool) && x in s.live && d < 7 && Small(s, PageOf(x), d)
    ensures DescsOk(s)
    ensures forall m: Memory :: LiveBytesKept(s, s.live - {x}, m, Filled(m, x, 0xcc, s.descs[d].blockSize))
  {
    InvDescs(s, pool);
    forall y | y in s.live && y != x
      ensures PageOf(y) in s.arenas
      ensures y + BlockSize(s, y) <= x || x + s.descs[d].blockSize <= y
    {
      LiveStart(s, pool, y);
      if y < x {
        LiveDisjoint(s, pool, y, x);
      } else {
        LiveDisjoint(s, pool, x, y);
      }
    }
  }

  /** Wiping pages that no block in use reaches leaves the blocks in use alone. */
  lemma WipedPages(s: State, pool: set<nat>, p: nat, n: nat, live: map<nat, nat>)
    requires Inv(s, pool) && p in s.arenas && n == PageCnt(s.arenas[p])
    requires forall x :: x in live ==> x in s.live && PageOf(x) != p
    ensures forall m: Memory :: LiveBytesKept(s, live, m, Filled(m, p * 4096, 0xcc, n * 4096))
  {
    InvDescs(s, pool);
    forall y | y in live
      ensures PageOf(y) in s.arenas
      ensures y + BlockSize(s, y) <= p * 4096 || (p + n) * 4096 <= y
    {
      WithinArena(s, pool, y);
      ArenasApart(s, pool, p, PageOf(y));
    }
  }

  lemma ArenasApart(s: State, pool: set<nat>, p: nat, q: nat)
    requires Inv(s, pool) && p in s.arenas && q in s.arenas && p != q
    ensures p + PageCnt(s.arenas[p]) <= q || q + PageCnt(s.arenas[q]) <= p
  {
    assert Covers(s.arenas, q, q) && Covers(s.arenas, p, p);
    assert !Covers(s.arenas, p, q) && !Covers(s.arenas, q, p);
  }

  lemma KeptTwice(s: State, t: State, pool: set<nat>, live: map<nat, nat>, m0: Memory, m1: Memory, m2: Memory)
    requires Inv(s, pool) && Inv(t, pool)
    requires forall x :: x in live ==> x in s.live && x in t.live
    requires t.arenas.Keys == s.arenas.Keys
    requires forall p :: p in s.arenas ==> t.arenas[p].desc == s.arenas[p].desc
    requires forall p :: p in s.arenas && s.arenas[p].desc.None? ==> t.arenas[p] == s.arenas[p]
    requires LiveBytesKept(s, live, m0, m1) && LiveBytesKept(t, live, m1, m2)
    ensures LiveBytesKept(s, live, m0, m2)
  {
    hide PageOf, PagesOk, ListsOk, ArenasOk;
    forall x | x in live && PageOf(x) in s.arenas
      ensures SameBytes(m0, m2, x, BlockSize(s, x))
    {
      assert BlockSize(t, x) == BlockSize(s, x);
      assert SameBytes(m0, m1, x, BlockSize(s, x)) && SameBytes(m1, m2, x, BlockSize(s, x));
    }
  }

  /** All blocks of an unused arena are on the free list. */
  lemma UnusedList(s: State, pool: set<nat>, d: nat, p: nat)
    requires Inv(s, pool) && d < 7 && Small(s, p, d) && s.arenas[p].freeCnt >= s.descs[d].blocksPerArena
    ensures NoDup(s.descs[d].freeList)
    ensures forall x :: x in s.descs[d].freeList && PageOf(x) == p ==> IsBlock(x, SizeOf(d))
    ensures forall i: nat :: i < PerArena(SizeOf(d)) ==> BlockAt(p, SizeOf(d), i) in s.descs[d].freeList
    ensures forall x :: x in s.live ==> PageOf(x) != p
  {
    assert ListOk(s, d) && ArenaOk(s, p, d);
    UnusedArena(s, pool, d, p);
    FreeOfBounded(s.descs[d].freeList, p, SizeOf(d));
    forall i: nat | i < PerArena(SizeOf(d)) ensures BlockAt(p, SizeOf(d), i) in s.descs[d].freeList {
      BlockAtInverse(p, SizeOf(d), i);
    }
  }

  lemma StillListed(list: seq<nat>, p: nat, bs: nat, i: nat)
    requires 0 < bs && i < PerArena(bs) && BlockAt(p, bs, i) in list
    ensures BlockAt(p, bs, i) in Without(list, p, bs, i)
  {
    OnlyOneDiffers(BlockAt(p, bs, i), p, bs, i);
    WithoutMembers(list, p, bs, i);
  }

  /** A page or run of pages goes back to the pool exactly when its last block in use is freed. */
  lemma FreedPages(s: State, pool: set<nat>, x: nat)
    requires Inv(s, pool) && Tidy(s, None) && x in s.live
    ensures DescsOk(s) && PageOf(x) in s.arenas
    ensures Inv(Freed(s, x), pool) && Tidy(Freed(s, x), None)
    ensures Freed(s, x).live == s.live - {x}
    ensures var p := PageOf(x);
            if exists y :: y in s.live && y != x && PageOf(y) == p
            then Freed(s, x).pages == s.pages && p in Freed(s, x).arenas
            else Freed(s, x).pages == s.pages + Run(p, PageCnt(s.arenas[p])) && p !in Freed(s, x).arenas
  {
    InvDescs(s, pool);
    LiveStart(s, pool, x);
    var p := PageOf(x);
    hide Inv, Tidy, PageOf;
    match s.arenas[p].desc {
      case Some(d) =>
        PutInv(s, pool, d, x);
        var t := Put(s, d, x);
        InvDescs(t, pool);
        if t.arenas[p].freeCnt >= t.descs[d].blocksPerArena {
          UnusedArena(t, pool, d, p);
          ReleaseInv(t, pool, d, p);
          assert Run(p, 1) == {p};
        } else {
          TidyAll(t, p, d);
          ArenaInUse(t, pool, p);
        }
      case None =>
        PutBigInv(s, pool, x);
        PutBigArenas(s, pool, x);
    }
  }

  lemma BigBlockSize(s: State, pool: set<nat>, x: nat)
    requires Inv(s, pool) && x in s.live && Big(s, PageOf(x))
    ensures x % 4096 == 12 && s.arenas[PageOf(x)].freeCnt >= 1
  {
    LiveStart(s, pool, x);
    BigBlock(s, pool, PageOf(x));
  }

  lemma KeptSame(s: State, live: map<nat, nat>, m: Memory)
    ensures LiveBytesKept(s, live, m, m)
  {
  }

  lemma SameBlockSize(s: State, t: State, pool: set<nat>, y: nat)
    requires Inv(s, pool) && Inv(t, pool) && OldArenasStay(s.arenas, t.arenas) && y in s.live
    ensures DescsOk(s) && DescsOk(t) && PageOf(y) in s.arenas && PageOf(y) in t.arenas
    ensures BlockSize(t, y) == BlockSize(s, y)
  {
    InvDescs(s, pool);
    InvDescs(t, pool);
    LiveStart(s, pool, y);
    hide Inv;
  }

  /** Filling a fresh block leaves the older blocks in use alone. */
  lemma FilledBlock(s: State, t: State, pool: set<nat>, x: nat, n: nat, m: Memory, m': Memory)
    requires Inv(s, pool) && Inv(t, pool) && OldArenasStay(s.arenas, t.arenas)
    requires x !in s.live && x in t.live && forall y :: y in s.live ==> y in t.live
    requires DescsOk(t) && PageOf(x) in t.arenas && n <= BlockSize(t, x)
    requires forall a :: 0 <= a < 0x1_0000_0000 && !(x <= a < x + n) ==> m'[a] == m[a]
    ensures LiveBytesKept(s, s.live, m, m')
  {
    hide Inv, DescsOk, PageOf, BlockSize, OldArenasStay;
    forall y | y in s.live && DescsOk(s) && PageOf(y) in s.arenas
      ensures SameBytes(m, m', y, BlockSize(s, y))
    {
      SameBlockSize(s, t, pool, y);
      if y < x {
        LiveDisjoint(t, pool, y, x);
      } else {
        LiveDisjoint(t, pool, x, y);
      }
    }
  }

  /** realloc: `n` bytes of block `x` were copied to the fresh block `z`, then `x` was freed. */
  lemma Moved(s: State, t: State, pool: set<nat>, x: nat, z: nat, n: nat, m: Memory, m1: Memory, m2: Memory)
    requires Inv(s, pool) && Inv(t, pool) && OldArenasStay(s.arenas, t.arenas)
    requires x in s.live && z !in s.live && z in t.live && forall y :: y in t.live <==> y in s.live || y == z
    requires DescsOk(t) && PageOf(z) in t.arenas && n <= BlockSize(t, z)
    requires m1 == Copied(m, z, x, n)
    requires LiveBytesKept(t, t.live - {x}, m1, m2)
    ensures SameBytes(m1, m2, z, n)
    ensures LiveBytesKept(s, s.live - {x}, m, m2)
    ensures DescsOk(s) && PageOf(x) in s.arenas && BlockSize(t, x) == BlockSize(s, x)
  {
    FilledBlock(s, t, pool, z, n, m, m1);
    SameBlockSize(s, t, pool, x);
    assert SameBytes(m1, m2, z, BlockSize(t, z));
    hide Inv, DescsOk, PageOf, BlockSize, OldArenasStay;
    forall y | y in s.live - {x} && DescsOk(s) && PageOf(y) in s.arenas
      ensures SameBytes(m, m2, y, BlockSize(s, y))
    {
      SameBlockSize(s, t, pool, y);
      assert y in t.live - {x};
      assert SameBytes(m, m1, y, BlockSize(s, y)) && SameBytes(m1, m2, y, BlockSize(t, y));
    }
  }

  /** calloc's check lets some products through that do not fit in 32 bits. */
  lemma CallocCheckIsWeak()
    ensures var a, b := 0x1_0001, 0x1_0001;
            a * b > 0xFFFF_FFFF && Product(a, b) == 0x2_0001 && !(Product(a, b) < a || Product(a, b) < b)
  {
  }
}
