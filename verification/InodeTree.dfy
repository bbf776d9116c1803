/** The block tree of an inode as a value: pointers, ownership of sectors, and growth. */
module InodeTree {
  import opened Common
  import opened BufferCache
  import opened Words

  /** The places where a file keeps a sector number: 123 direct pointers, one doubly indirect pointer,
      128 indirect pointers with 128 pointers each, and the sector of the inode itself. */
  datatype Slot = Direct(k: nat) | Leaf(i: nat, j: nat) | Ind(i: nat) | Dbl | Self

  predicate InRange(s: Slot) {
    match s
    case Direct(k) => k < 123
    case Leaf(i, j) => i < 128 && j < 128
    case Ind(i) => i < 128
    case _ => true
  }

  /** The direct pointers, the doubly indirect pointer, and the tables that it leads to. */
  datatype Tree = Tree(direct: seq<U32>, dbl: U32, inds: Table, leaves: seq<Table>)

  /** One file on a device: all sectors, the free map, the file's own sectors and what each is for. */
  datatype FS = FS(disk: seq<Sector>, free: set<nat>, owner: map<nat, Slot>, tree: Tree, self: U32)

  ghost predicate Shaped(g: FS) {
    |g.tree.direct| == 123 && |g.tree.leaves| == 128 && |g.disk| <= UNALLOCATED
  }

  ghost function Ptr(g: FS, s: Slot): U32
    requires Shaped(g) && InRange(s)
  {
    match s
    case Direct(k) => g.tree.direct[k]
    case Leaf(i, j) => g.tree.leaves[i][j]
    case Ind(i) => g.tree.inds[i]
    case Dbl => g.tree.dbl
    case Self => g.self
  }

  predicate IsData(s: Slot) { s.Direct? || s.Leaf? }

  /** The number of the file block that a data slot holds. */
  function BlockNumber(s: Slot): nat
    requires IsData(s)
  {
    match s
    case Direct(k) => k
    case Leaf(i, j) => 123 + 128 * i + j
  }

  /** A file with `nb` data blocks, `ni` indirect blocks and possibly (`nd`) a doubly indirect block uses slot `s`. */
  predicate Uses(s: Slot, nb: nat, ni: nat, nd: bool) {
    match s
    case Ind(i) => i < ni
    case Dbl => nd
    case Self => true
    case _ => BlockNumber(s) < nb
  }

  /** The slots in use own distinct sectors of the device, none of them free, and they own nothing else. */
  ghost predicate Owned(g: FS): (r: bool)
    ensures r ==> Shaped(g)
  {
    && Shaped(g)
    && (forall s :: InRange(s) && Ptr(g, s) != UNALLOCATED ==> Ptr(g, s) in g.owner && g.owner[Ptr(g, s)] == s)
    && (forall b :: b in g.owner ==> InRange(g.owner[b]) && Ptr(g, g.owner[b]) == b && b < |g.disk| && b !in g.free)
    && (forall b :: b in g.free ==> b < |g.disk|)
  }

  ghost predicate Counts(g: FS, nb: nat, ni: nat, nd: bool)
    requires Shaped(g)
  {
    forall s :: InRange(s) ==> (Ptr(g, s) != UNALLOCATED <==> Uses(s, nb, ni, nd))
  }

  /** The index sectors hold the tables, except those still to be written from memory. */
  ghost predicate Stored(g: FS, dirtyDbl: bool, dirtyLeaf: int)
    requires Owned(g)
  {
    && (!dirtyDbl && g.tree.dbl != UNALLOCATED ==> ToTable(SectorOf(g, Dbl)) == g.tree.inds)
    && (forall i :: 0 <= i < 128 && i != dirtyLeaf && Ptr(g, Ind(i)) != UNALLOCATED ==> ToTable(SectorOf(g, Ind(i))) == g.tree.leaves[i])
  }

  ghost function SectorOf(g: FS, s: Slot): Sector
    requires Owned(g) && InRange(s) && Ptr(g, s) != UNALLOCATED
  {
    g.disk[Ptr(g, s)]
  }

  /** A sector of zeros. */
  function Zero(): Sector { seq(512, _ => 0) }

  /** `g` extends `g0`: the first `nb0` data blocks are where and what they were, later ones are zero,
      sectors have moved from the free map to the file, and no other sector has changed. */
  ghost predicate Extends(g0: FS, g: FS, nb0: nat)
    requires Owned(g0) && Owned(g)
  {
    && |g.disk| == |g0.disk| && g.self == g0.self
    && (forall s :: InRange(s) && Ptr(g0, s) != UNALLOCATED ==> Ptr(g, s) == Ptr(g0, s))
    && (forall s :: InRange(s) && IsData(s) && Ptr(g0, s) != UNALLOCATED ==> SectorOf(g, s) == SectorOf(g0, s))
    && (forall s :: InRange(s) && IsData(s) && Ptr(g, s) != UNALLOCATED && BlockNumber(s) >= nb0 ==> SectorOf(g, s) == Zero())
    && g.owner.Keys + g.free == g0.owner.Keys + g0.free
    && g0.owner.Keys <= g.owner.Keys
    && (forall b :: 0 <= b < |g.disk| && b !in g.owner ==> g.disk[b] == g0.disk[b])
  }

  /** `n` pointers to nothing. */
  function NoPointers(n: nat): (s: seq<U32>)
    ensures |s| == n && forall i :: 0 <= i < n ==> s[i] == UNALLOCATED
  {
    seq(n, _ => UNALLOCATED)
  }

  function EmptyTree(): (t: Tree)
    ensures |t.direct| == 123 && |t.leaves| == 128
  {
    Tree(NoPointers(123), UNALLOCATED, NoPointers(128), seq(128, _ => NoPointers(128)))
  }

  // ---------- taking a sector from the free map ----------

  function SetPtr(t: Tree, s: Slot, b: U32): Tree
    requires InRange(s) && |t.direct| == 123 && |t.leaves| == 128
  {
    match s
    case Direct(k) => t.(direct := t.direct[k := b])
    case Leaf(i, j) => t.(leaves := t.leaves[i := t.leaves[i][j := b]])
    case Ind(i) => t.(inds := t.inds[i := b])
    case Dbl => t.(dbl := b)
    case Self => t
  }

  ghost function Alloc(g: FS, s: Slot, b: nat, content: Sector): FS
    requires Owned(g) && InRange(s) && s != Self && b in g.free
  {
    FS(g.disk[b := content], g.free - {b}, g.owner[b := s], SetPtr(g.tree, s, b), g.self)
  }

  lemma AllocPtr(g: FS, s: Slot, b: nat, content: Sector, s': Slot)
    requires Owned(g) && InRange(s) && s != Self && b in g.free && InRange(s')
    ensures Shaped(Alloc(g, s, b, content)) && Ptr(Alloc(g, s, b, content), s') == if s' == s then b else Ptr(g, s')
  {
  }

  lemma AllocOwned(g: FS, s: Slot, b: nat, content: Sector)
    requires Owned(g) && InRange(s) && s != Self && b in g.free && Ptr(g, s) == UNALLOCATED
    ensures Owned(Alloc(g, s, b, content))
  {
    hide Ptr, SetPtr;
    var g' := Alloc(g, s, b, content);
    AllocPtr(g, s, b, content, s);
    forall s' | InRange(s') ensures Ptr(g', s') == if s' == s then b else Ptr(g, s') {
      AllocPtr(g, s, b, content, s');
    }
  }

  lemma AllocCounts(g: FS, s: Slot, b: nat, content: Sector, nb: nat, ni: nat, nd: bool, nb': nat, ni': nat, nd': bool)
    requires Owned(g) && InRange(s) && s != Self && b in g.free && Counts(g, nb, ni, nd)
    requires forall s' :: InRange(s') ==> (Uses(s', nb', ni', nd') <==> s' == s || Uses(s', nb, ni, nd))
    ensures Shaped(Alloc(g, s, b, content)) && Counts(Alloc(g, s, b, content), nb', ni', nd')
  {
    hide Ptr, SetPtr, Uses;
    AllocPtr(g, s, b, content, s);
    forall s' | InRange(s') ensures Ptr(Alloc(g, s, b, content), s') == if s' == s then b else Ptr(g, s') {
      AllocPtr(g, s, b, content, s');
    }
  }

  lemma AllocExtends(g0: FS, g: FS, nb0: nat, s: Slot, b: nat, content: Sector)
    requires Owned(g0) && Owned(g) && Extends(g0, g, nb0)
    requires InRange(s) && s != Self && b in g.free && Ptr(g, s) == UNALLOCATED
    requires IsData(s) ==> BlockNumber(s) >= nb0 && content == Zero()
    ensures Owned(Alloc(g, s, b, content)) && Extends(g0, Alloc(g, s, b, content), nb0)
  {
    hide Ptr, SetPtr;
    var g' := Alloc(g, s, b, content);
    AllocOwned(g, s, b, content);
    forall s' | InRange(s') ensures Ptr(g', s') == if s' == s then b else Ptr(g, s') {
      AllocPtr(g, s, b, content, s');
    }
    assert b !in g.owner;
    assert g'.owner.Keys + g'.free == g.owner.Keys + g.free;
  }

  /** Allocation changes no table but the one that holds slot `s`. */
  lemma AllocStored(g: FS, s: Slot, b: nat, content: Sector, dirtyDbl: bool, dirtyLeaf: int, dirtyDbl': bool, dirtyLeaf': int)
    requires Owned(g) && InRange(s) && s != Self && b in g.free && Ptr(g, s) == UNALLOCATED
    requires Stored(g, dirtyDbl, dirtyLeaf) && (dirtyDbl ==> dirtyDbl') && (dirtyLeaf == dirtyLeaf' || dirtyLeaf == -1)
    requires s.Ind? ==> dirtyDbl' && ToTable(content) == g.tree.leaves[s.i]
    requires s.Leaf? ==> dirtyLeaf' == s.i
    requires s.Dbl? ==> dirtyDbl' || ToTable(content) == g.tree.inds
    ensures Owned(Alloc(g, s, b, content)) && Stored(Alloc(g, s, b, content), dirtyDbl', dirtyLeaf')
  {
    hide SetPtr, ToTable;
    var g' := Alloc(g, s, b, content);
    AllocOwned(g, s, b, content);
    forall s' | InRange(s') ensures Ptr(g', s') == if s' == s then b else Ptr(g, s') {
      AllocPtr(g, s, b, content, s');
    }
    AllocTables(g, s, b, content);
    assert b !in g.owner;
  }

  lemma AllocTables(g: FS, s: Slot, b: nat, content: Sector)
    requires Owned(g) && InRange(s) && s != Self && b in g.free
    ensures var t := Alloc(g, s, b, content).tree;
      && (!s.Ind? ==> t.inds == g.tree.inds)
      && |t.leaves| == 128
      && (forall i :: 0 <= i < 128 && s != Leaf(i, if s.Leaf? then s.j else 0) ==> t.leaves[i] == g.tree.leaves[i])
  {
  }

  // ---------- writing an index sector ----------

  ghost function Write(g: FS, s: Slot, content: Sector): FS
    requires Owned(g) && InRange(s) && Ptr(g, s) != UNALLOCATED
  {
    g.(disk := g.disk[Ptr(g, s) := content])
  }

  lemma WriteOwned(g: FS, s: Slot, content: Sector)
    requires Owned(g) && InRange(s) && Ptr(g, s) != UNALLOCATED
    ensures Owned(Write(g, s, content))
    ensures forall s' :: InRange(s') ==> Ptr(Write(g, s, content), s') == Ptr(g, s')
    ensures forall s' :: InRange(s') && Ptr(g, s') != UNALLOCATED ==>
      SectorOf(Write(g, s, content), s') == if s' == s then content else SectorOf(g, s')
  {
    var g' := Write(g, s, content);
    assert forall s' :: InRange(s') ==> Ptr(g', s') == Ptr(g, s');
  }

  lemma WriteExtends(g0: FS, g: FS, nb0: nat, s: Slot, content: Sector)
    requires Owned(g0) && Owned(g) && Extends(g0, g, nb0) && InRange(s) && !IsData(s) && Ptr(g, s) != UNALLOCATED
    ensures Owned(Write(g, s, content)) && Extends(g0, Write(g, s, content), nb0)
  {
    hide Ptr;
    WriteOwned(g, s, content);
  }

  // ---------- growth, step by step ----------

  /** The state in the middle of inode_extend. */
  ghost predicate Growing(g0: FS, g: FS, nb0: nat, nb: nat, ni: nat, nd: bool, dirtyDbl: bool, dirtyLeaf: int) {
    && Owned(g0) && Owned(g)
    && Extends(g0, g, nb0)
    && Counts(g, nb, ni, nd)
    && Stored(g, dirtyDbl, dirtyLeaf)
  }

  lemma GrowDirect(g0: FS, g: FS, nb0: nat, k: nat, ni: nat, nd: bool, b: nat)
    requires Growing(g0, g, nb0, k, ni, nd, false, -1) && nb0 <= k < 123 && b in g.free
    ensures Growing(g0, Alloc(g, Direct(k), b, Zero()), nb0, k + 1, ni, nd, false, -1)
  {
    hide Ptr, SetPtr, Stored, Extends, ToTable, Owned;
    assert Ptr(g, Direct(k)) == UNALLOCATED;
    AllocExtends(g0, g, nb0, Direct(k), b, Zero());
    AllocCounts(g, Direct(k), b, Zero(), k, ni, nd, k + 1, ni, nd);
    AllocStored(g, Direct(k), b, Zero(), false, -1, false, -1);
  }

  lemma GrowDbl(g0: FS, g: FS, nb0: nat, nb: nat, b: nat, content: Sector)
    requires Growing(g0, g, nb0, nb, 0, false, false, -1) && b in g.free
    ensures Growing(g0, Alloc(g, Dbl, b, content), nb0, nb, 0, true, true, -1)
  {
    hide Ptr, SetPtr, Stored, Extends, ToTable, Owned;
    assert Ptr(g, Dbl) == UNALLOCATED;
    AllocExtends(g0, g, nb0, Dbl, b, content);
    AllocCounts(g, Dbl, b, content, nb, 0, false, nb, 0, true);
    AllocStored(g, Dbl, b, content, false, -1, true, -1);
  }

  lemma GrowInd(g0: FS, g: FS, nb0: nat, nb: nat, i: nat, b: nat, content: Sector)
    requires Growing(g0, g, nb0, nb, i, true, true, -1) && i < 128 && nb <= 123 + 128 * i && b in g.free
    requires ToTable(content) == seq(128, _ => UNALLOCATED)
    ensures Growing(g0, Alloc(g, Ind(i), b, content), nb0, nb, i + 1, true, true, -1)
  {
    hide SetPtr, Stored, Extends, ToTable, Owned;
    assert Ptr(g, Ind(i)) == UNALLOCATED;
    forall j | 0 <= j < 128 ensures g.tree.leaves[i][j] == UNALLOCATED {
      assert Ptr(g, Leaf(i, j)) == UNALLOCATED;
    }
    assert g.tree.leaves[i] == seq(128, _ => UNALLOCATED);
    AllocExtends(g0, g, nb0, Ind(i), b, content);
    AllocCounts(g, Ind(i), b, content, nb, i, true, nb, i + 1, true);
    AllocStored(g, Ind(i), b, content, true, -1, true, -1);
  }

  lemma GrowLeaf(g0: FS, g: FS, nb0: nat, i: nat, j: nat, ni: nat, b: nat)
    requires i < 128 && j < 128
    requires Growing(g0, g, nb0, 123 + 128 * i + j, ni, true, true, i) && nb0 <= 123 + 128 * i + j && b in g.free
    ensures Growing(g0, Alloc(g, Leaf(i, j), b, Zero()), nb0, 123 + 128 * i + j + 1, ni, true, true, i)
  {
    hide Ptr, SetPtr, Stored, Extends, ToTable, Owned;
    var nb := 123 + 128 * i + j;
    assert Ptr(g, Leaf(i, j)) == UNALLOCATED;
    AllocExtends(g0, g, nb0, Leaf(i, j), b, Zero());
    AllocCounts(g, Leaf(i, j), b, Zero(), nb, ni, true, nb + 1, ni, true);
    AllocStored(g, Leaf(i, j), b, Zero(), true, i, true, i);
  }

  lemma StoreLeaf(g0: FS, g: FS, nb0: nat, nb: nat, ni: nat, i: nat)
    requires Growing(g0, g, nb0, nb, ni, true, true, i) && i < 128 && i < ni
    ensures Ptr(g, Ind(i)) != UNALLOCATED
    ensures Growing(g0, Write(g, Ind(i), ToSector(g.tree.leaves[i])), nb0, nb, ni, true, true, -1)
  {
    hide ToTable, ToSector, Extends;
    var content := ToSector(g.tree.leaves[i]);
    assert Ptr(g, Ind(i)) != UNALLOCATED;
    TableRoundTrip(g.tree.leaves[i]);
    WriteExtends(g0, g, nb0, Ind(i), content);
    WriteOwned(g, Ind(i), content);
  }

  lemma StoreDbl(g0: FS, g: FS, nb0: nat, nb: nat, ni: nat)
    requires Growing(g0, g, nb0, nb, ni, true, true, -1)
    ensures Ptr(g, Dbl) != UNALLOCATED
    ensures Growing(g0, Write(g, Dbl, ToSector(g.tree.inds)), nb0, nb, ni, true, false, -1)
  {
    hide ToTable, ToSector, Extends;
    var content := ToSector(g.tree.inds);
    assert Ptr(g, Dbl) != UNALLOCATED;
    TableRoundTrip(g.tree.inds);
    WriteExtends(g0, g, nb0, Dbl, content);
    WriteOwned(g, Dbl, content);
  }

  lemma StoreSelf(g0: FS, g: FS, nb0: nat, nb: nat, ni: nat, nd: bool, content: Sector)
    requires Growing(g0, g, nb0, nb, ni, nd, false, -1)
    ensures Ptr(g, Self) != UNALLOCATED
    ensures Growing(g0, Write(g, Self, content), nb0, nb, ni, nd, false, -1)
  {
    hide ToTable, Extends;
    assert Ptr(g, Self) != UNALLOCATED;
    WriteExtends(g0, g, nb0, Self, content);
    WriteOwned(g, Self, content);
  }

  /** What the code can see of a state in the middle of growth. */
  lemma GrowingFacts(g0: FS, g: FS, nb0: nat, nb: nat, ni: nat, nd: bool, dirtyDbl: bool, dirtyLeaf: int)
    requires Growing(g0, g, nb0, nb, ni, nd, dirtyDbl, dirtyLeaf)
    ensures Owned(g) && Shaped(g) && (forall b :: b in g.free ==> b < |g.disk|)
    ensures forall k :: 0 <= k < 123 ==> (g.tree.direct[k] != UNALLOCATED <==> k < nb)
    ensures forall i :: 0 <= i < 128 ==> (g.tree.inds[i] != UNALLOCATED <==> i < ni)
    ensures forall i :: 0 <= i < 128 && g.tree.inds[i] != UNALLOCATED ==> g.tree.inds[i] < |g.disk|
    ensures g.tree.dbl != UNALLOCATED <==> nd
    ensures nd ==> g.tree.dbl < |g.disk|
    ensures g.self != UNALLOCATED && g.self < |g.disk|
  {
    assert forall k :: 0 <= k < 123 ==> Ptr(g, Direct(k)) == g.tree.direct[k];
    assert forall i :: 0 <= i < 128 ==> Ptr(g, Ind(i)) == g.tree.inds[i];
    assert Ptr(g, Dbl) == g.tree.dbl && Ptr(g, Self) == g.self;
  }

  lemma LeafFacts(g0: FS, g: FS, nb0: nat, nb: nat, ni: nat, nd: bool, dirtyDbl: bool, dirtyLeaf: int, i: nat, j: nat)
    requires Growing(g0, g, nb0, nb, ni, nd, dirtyDbl, dirtyLeaf) && i < 128 && j < 128
    ensures g.tree.leaves[i][j] != UNALLOCATED <==> 123 + 128 * i + j < nb
    ensures dirtyLeaf != i && g.tree.inds[i] != UNALLOCATED ==>
      g.tree.inds[i] < |g.disk| && ToTable(g.disk[g.tree.inds[i]]) == g.tree.leaves[i]
  {
    hide ToTable;
    assert Ptr(g, Leaf(i, j)) == g.tree.leaves[i][j] && Ptr(g, Ind(i)) == g.tree.inds[i];
  }

  lemma DblFacts(g0: FS, g: FS, nb0: nat, nb: nat, ni: nat)
    requires Growing(g0, g, nb0, nb, ni, true, false, -1)
    ensures g.tree.dbl < |g.disk| && ToTable(g.disk[g.tree.dbl]) == g.tree.inds
  {
    hide ToTable;
    assert Ptr(g, Dbl) == g.tree.dbl;
  }

  /** Marking tables as not yet written forgets what the disk holds for them. */
  lemma Weaken(g0: FS, g: FS, nb0: nat, nb: nat, ni: nat, nd: bool, dirtyDbl: bool, dirtyDbl': bool, dirtyLeaf': int)
    requires Growing(g0, g, nb0, nb, ni, nd, dirtyDbl, -1) && (dirtyDbl ==> dirtyDbl')
    ensures Growing(g0, g, nb0, nb, ni, nd, dirtyDbl', dirtyLeaf')
  {
    hide ToTable, Ptr, Extends, Counts;
  }

  // ---------- looking blocks up ----------

  /** The slot of block number `k` of a file. */
  function DataSlot(k: nat): (s: Slot)
    requires k < 16507
    ensures InRange(s) && IsData(s) && BlockNumber(s) == k
  {
    if k < 123 then Direct(k) else Leaf((k - 123) / 128, (k - 123) % 128)
  }

  /** inode_fetch_block: the pointers as the code follows them, from the sectors and the inode's fields. */
  function FetchBlock(disk: seq<Sector>, direct: seq<U32>, dbl: U32, pos: nat): U32
    requires |direct| == 123
  {
    if pos < 62976 then direct[pos / 512]
    else if pos < 8451584 then
      if dbl == UNALLOCATED || dbl >= |disk| then UNALLOCATED
      else
        var ind := ToTable(disk[dbl])[(pos - 62976) / 65536];
        if ind == UNALLOCATED || ind >= |disk| then UNALLOCATED
        else ToTable(disk[ind])[(pos - 62976) % 65536 / 512]
    else UNALLOCATED
  }

  /** The lookup with the position taken apart as the code does it. */
  lemma FetchCases(disk: seq<Sector>, direct: seq<U32>, dbl: U32, pos: nat)
    requires |direct| == 123
    ensures pos < 62976 ==> pos / 512 < 123 && FetchBlock(disk, direct, dbl, pos) == direct[pos / 512]
    ensures pos >= 62976 && (pos >= 8451584 || dbl == UNALLOCATED) ==> FetchBlock(disk, direct, dbl, pos) == UNALLOCATED
    ensures 62976 <= pos < 8451584 && dbl != UNALLOCATED && dbl < |disk| ==>
      var p := pos - 62976; var i := p / 65536; var j := (p - i * 65536) / 512;
      && i < 128 && j < 128
      && var ind := ToTable(disk[dbl])[i];
         FetchBlock(disk, direct, dbl, pos) == if ind == UNALLOCATED || ind >= |disk| then UNALLOCATED else ToTable(disk[ind])[j]
  {
    hide ToTable;
  }

  ghost predicate Complete(g: FS, nb: nat): (r: bool)
    ensures r ==> Shaped(g)
  {
    && Owned(g) && nb <= 16507
    && Counts(g, nb, Indirects(nb), nb > 123)
    && Stored(g, false, -1)
  }

  /** The number of indirect blocks of a file with `nb` data blocks. */
  function Indirects(nb: nat): nat {
    if nb <= 123 then 0 else (nb - 123 + 127) / 128
  }

  ghost function Fetch(g: FS, pos: nat): U32
    requires Shaped(g)
  {
    FetchBlock(g.disk, g.tree.direct, g.tree.dbl, pos)
  }

  /** Within its size limit, a complete file's blocks are found where the tree has them, and past it nowhere. */
  lemma FetchIsPtr(g: FS, nb: nat, pos: nat)
    requires Complete(g, nb)
    ensures Fetch(g, pos) == if pos < 8451584 then Ptr(g, DataSlot(pos / 512)) else UNALLOCATED
  {
    hide ToTable;
    if 62976 <= pos < 8451584 {
      var k := pos / 512;
      var i, j := (k - 123) / 128, (k - 123) % 128;
      assert i == (pos - 62976) / 65536 && j == (pos - 62976) % 65536 / 512;
      assert DataSlot(k) == Leaf(i, j);
      assert Uses(Leaf(i, j), nb, Indirects(nb), nb > 123) ==> Uses(Ind(i), nb, Indirects(nb), nb > 123);
      assert Uses(Ind(i), nb, Indirects(nb), nb > 123) ==> Uses(Dbl, nb, Indirects(nb), nb > 123);
      if Ptr(g, Dbl) == UNALLOCATED {
        assert Ptr(g, Leaf(i, j)) == UNALLOCATED;
      } else {
        assert ToTable(SectorOf(g, Dbl)) == g.tree.inds;
        assert g.tree.inds[i] == Ptr(g, Ind(i));
        if Ptr(g, Ind(i)) == UNALLOCATED {
          assert Ptr(g, Leaf(i, j)) == UNALLOCATED;
        } else {
          assert ToTable(SectorOf(g, Ind(i))) == g.tree.leaves[i];
        }
      }
    }
  }

  /** Every position below the end of the last block has an allocated sector of its own block, and
      two positions share a sector exactly when they lie in the same block. */
  lemma FetchInjective(g: FS, nb: nat, p: nat, q: nat)
    requires Complete(g, nb) && p < 512 * nb && q < 512 * nb
    ensures Fetch(g, p) < |g.disk| && Fetch(g, p) in g.owner && Fetch(g, p) !in g.free
    ensures Fetch(g, p) == Fetch(g, q) <==> p / 512 == q / 512
  {
    hide ToTable, Ptr;
    FetchIsPtr(g, nb, p);
    FetchIsPtr(g, nb, q);
    var s, t := DataSlot(p / 512), DataSlot(q / 512);
    assert Uses(s, nb, Indirects(nb), nb > 123) && Uses(t, nb, Indirects(nb), nb > 123);
    assert Ptr(g, s) != UNALLOCATED && Ptr(g, t) != UNALLOCATED;
    assert s == t <==> p / 512 == q / 512;
  }

  // ---------- the bytes of a file ----------

  ghost function ByteAt(g: FS, nb: nat, p: nat): Byte
    requires Complete(g, nb) && p < 512 * nb
  {
    assert Uses(DataSlot(p / 512), nb, Indirects(nb), nb > 123);
    SectorOf(g, DataSlot(p / 512))[p % 512]
  }

  ghost function FileBytes(g: FS, nb: nat, n: nat): (s: seq<Byte>)
    requires Complete(g, nb) && n <= 512 * nb
    ensures |s| == n && forall p :: 0 <= p < n ==> s[p] == ByteAt(g, nb, p)
  {
    seq(n, p requires 0 <= p < n => ByteAt(g, nb, p))
  }

  /** The bytes after the end of the file, up to the end of its last block, are zero. */
  ghost predicate ZeroTail(g: FS, nb: nat, n: nat)
    requires Complete(g, nb) && n <= 512 * nb
  {
    forall p :: n <= p < 512 * nb ==> ByteAt(g, nb, p) == 0
  }

  /** Growth keeps the bytes and pads with zeros. */
  lemma GrowthPads(g0: FS, g: FS, nb0: nat, nb: nat, n0: nat, n: nat)
    requires Complete(g0, nb0) && Complete(g, nb) && nb0 <= nb && Extends(g0, g, nb0)
    requires n0 <= 512 * nb0 && ZeroTail(g0, nb0, n0) && n0 <= n <= 512 * nb
    ensures FileBytes(g, nb, n) == FileBytes(g0, nb0, n0) + seq(n - n0, _ => 0)
    ensures ZeroTail(g, nb, n)
  {
    hide Ptr, Owned, Stored, Counts;
    forall p | 0 <= p < 512 * nb ensures ByteAt(g, nb, p) == if p < n0 then ByteAt(g0, nb0, p) else 0 {
      GrowthByte(g0, g, nb0, nb, p);
    }
  }

  lemma GrowthByte(g0: FS, g: FS, nb0: nat, nb: nat, p: nat)
    requires Complete(g0, nb0) && Complete(g, nb) && nb0 <= nb && Extends(g0, g, nb0) && p < 512 * nb
    ensures ByteAt(g, nb, p) == if p < 512 * nb0 then ByteAt(g0, nb0, p) else 0
  {
    hide Ptr, Stored;
    var s := DataSlot(p / 512);
    assert Uses(s, nb, Indirects(nb), nb > 123);
    assert Uses(s, nb0, Indirects(nb0), nb0 > 123) <==> p < 512 * nb0;
  }

  /** Overwrites a part of one data sector. */
  ghost function Overwrite(g: FS, s: Slot, offset: nat, buffer: seq<Byte>): FS
    requires Owned(g) && InRange(s) && Ptr(g, s) != UNALLOCATED && offset + |buffer| <= 512
  {
    Write(g, s, Patched(SectorOf(g, s), offset, buffer))
  }

  /** Overwriting within one block changes exactly the bytes in its range. */
  lemma OverwriteBytes(g: FS, nb: nat, n: nat, at: nat, buffer: seq<Byte>)
    requires Complete(g, nb) && at + |buffer| <= n <= 512 * nb && |buffer| > 0 && at % 512 + |buffer| <= 512
    ensures InRange(DataSlot(at / 512)) && Ptr(g, DataSlot(at / 512)) != UNALLOCATED
    ensures var g' := Overwrite(g, DataSlot(at / 512), at % 512, buffer);
      && Complete(g', nb)
      && FileBytes(g', nb, n) == FileBytes(g, nb, n)[..at] + buffer + FileBytes(g, nb, n)[at + |buffer|..]
      && (ZeroTail(g, nb, n) ==> ZeroTail(g', nb, n))
  {
    hide Ptr, ToTable;
    var s := DataSlot(at / 512);
    assert Uses(s, nb, Indirects(nb), nb > 123);
    var d := Patched(SectorOf(g, s), at % 512, buffer);
    var g' := Write(g, s, d);
    WriteOwned(g, s, d);
    WriteComplete(g, nb, s, d);
    forall p | 0 <= p < 512 * nb
      ensures ByteAt(g', nb, p) == if at <= p < at + |buffer| then buffer[p - at] else ByteAt(g, nb, p)
    {
      PatchedByte(g, g', nb, at, buffer, p);
    }
    hide Complete, ByteAt;
    SplicedBytes(g, g', nb, n, at, buffer);
  }

  lemma SplicedBytes(g: FS, g': FS, nb: nat, n: nat, at: nat, buffer: seq<Byte>)
    requires Complete(g, nb) && Complete(g', nb) && at + |buffer| <= n <= 512 * nb
    requires forall p :: 0 <= p < 512 * nb ==>
      ByteAt(g', nb, p) == if at <= p < at + |buffer| then buffer[p - at] else ByteAt(g, nb, p)
    ensures FileBytes(g', nb, n) == FileBytes(g, nb, n)[..at] + buffer + FileBytes(g, nb, n)[at + |buffer|..]
    ensures ZeroTail(g, nb, n) ==> ZeroTail(g', nb, n)
  {
    hide Complete, ByteAt;
  }

  lemma WriteComplete(g: FS, nb: nat, s: Slot, d: Sector)
    requires Complete(g, nb) && InRange(s) && IsData(s) && Ptr(g, s) != UNALLOCATED
    ensures Complete(Write(g, s, d), nb)
  {
    hide ToTable;
    WriteOwned(g, s, d);
  }

  lemma PatchedByte(g: FS, g': FS, nb: nat, at: nat, buffer: seq<Byte>, p: nat)
    requires Complete(g, nb) && Complete(g', nb) && at + |buffer| <= 512 * nb && |buffer| > 0 && at % 512 + |buffer| <= 512
    requires p < 512 * nb
    requires forall s' :: InRange(s') ==> Ptr(g', s') == Ptr(g, s')
    requires forall s' :: InRange(s') && Ptr(g, s') != UNALLOCATED ==>
      SectorOf(g', s') == if s' == DataSlot(at / 512) then Patched(SectorOf(g, s'), at % 512, buffer) else SectorOf(g, s')
    ensures ByteAt(g', nb, p) == if at <= p < at + |buffer| then buffer[p - at] else ByteAt(g, nb, p)
  {
    hide Ptr, Stored, Owned;
    var s := DataSlot(p / 512);
    assert Uses(s, nb, Indirects(nb), nb > 123);
    assert Ptr(g, s) != UNALLOCATED;
    assert s == DataSlot(at / 512) <==> p / 512 == at / 512;
  }
}
