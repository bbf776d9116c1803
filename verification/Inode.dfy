/** Growable inodes on top of the buffer cache: a file is a flat byte array. */
module Inode {
  import opened Common
  import opened BufferCache
  import opened Words
  import opened InodeTree

  const MAX_FILE_LEN := 8451584

  /** The number of 512-byte blocks that hold `size` bytes. */
  function Blocks(size: nat): nat { (size + 511) / 512 }

  function One(b: bool): nat { if b then 1 else 0 }

  /** Data blocks and index blocks of a file with `nb` data blocks. */
  function Sectors(nb: nat): nat { nb + Indirects(nb) + One(nb > 123) }

  /** The number of blocks present when the loops have dealt with those below `at`. */
  function Clamp(nb0: nat, nb1: nat, at: nat): nat {
    var m := if nb1 < at then nb1 else at;
    if m < nb0 then nb0 else m
  }

  /** A sector of 0xFF bytes, that is, of UNALLOCATED pointers. */
  function Ones(): Sector { seq(512, _ => 0xFF) }

  /** The device as the file system uses it: the cache and the free map. */
  class FileSystem {
    const cache: Cache
    var free: set<nat>

    constructor (cache: Cache, free: set<nat>)
      ensures this.cache == cache && this.free == free
    {
      this.cache, this.free := cache, free;
    }

    /** free_map_allocate for one sector: some free sector, unless there is none. */
    method FreeMapAllocate() returns (ok: bool, sector: nat)
      modifies this
      ensures ok <==> old(free) != {}
      ensures if ok then sector in old(free) && free == old(free) - {sector} else free == old(free)
    {
      if free == {} {
        return false, 0;
      }
      sector :| sector in free;
      free := free - {sector};
      ok := true;
    }

    /** Allocates a sector and fills it, as inode_extend does for each block that it adds. */
    method NewSector(content: Sector) returns (ok: bool, sector: nat)
      requires cache.Valid() && cache.HasUnpinned() && (forall b :: b in free ==> b < |cache.disk|)
      modifies this, cache, cache.ents
      ensures cache.Valid() && cache.HasUnpinned() && |cache.disk| == old(|cache.disk|)
      ensures ok <==> old(free) != {}
      ensures ok ==> sector in old(free) && free == old(free) - {sector} && cache.contents == old(cache.contents)[sector := content]
    {
      ok, sector := FreeMapAllocate();
      if ok {
        cache.CacheWrite(sector, content);
      }
    }
  }

  class Inode {
    const sector: U32
    const fs: FileSystem
    var deny_write_cnt: nat

    // struct inode_disk
    var direct: seq<U32>
    var doubly_indirect: U32
    var is_dir: U32
    var length: U32
    var children: U32
    var magic: U32

    // the tables that the pointers lead to, and the sectors of this file
    ghost var inds: Table
    ghost var leaves: seq<Table>
    ghost var owner: map<nat, Slot>

    /** inode_open: reads the inode back from its sector. */
    constructor InodeOpen(fs: FileSystem, sector: U32, ghost inds: Table, ghost leaves: seq<Table>, ghost owner: map<nat, Slot>)
      requires fs.cache.Valid() && fs.cache.HasUnpinned() && sector < |fs.cache.disk| && sector != UNALLOCATED
      modifies fs.cache, fs.cache.ents
      ensures CacheReady() && this.fs == fs && this.sector == sector && deny_write_cnt == 0
      ensures fs.cache.contents == old(fs.cache.contents) && fs.free == old(fs.free)
      ensures this.inds == inds && this.leaves == leaves && this.owner == owner
      ensures Fields() == ToTable(fs.cache.contents[sector])
    {
      this.fs, this.sector, deny_write_cnt := fs, sector, 0;
      direct := [];
      this.inds, this.leaves, this.owner := inds, leaves, owner;
      new;
      hide Coherent, ToTable;
      var buffer := fs.cache.CacheRead(sector);
      Decode(ToTable(buffer));
    }

    /** inode_create: an inode without blocks, then grown to `length` bytes. The code ignores a failure to grow. */
    constructor InodeCreate(fs: FileSystem, sector: U32, length: nat)
      requires fs.cache.Valid() && fs.cache.HasUnpinned() && |fs.cache.disk| <= UNALLOCATED
      requires sector < |fs.cache.disk| && sector !in fs.free && (forall b :: b in fs.free ==> b < |fs.cache.disk|)
      requires length <= MAX_FILE_LEN
      modifies fs, fs.cache, fs.cache.ents
      ensures this.fs == fs && this.sector == sector
      ensures old(|fs.free|) >= Sectors(Blocks(length)) ==>
        Valid() && Bytes() == seq(length, _ => 0) && IsStored()
    {
      hide Coherent, Complete, FetchBlock, FileBytes, Extends, ZeroTail, ToTable, ToSector, Indirects, ByteAt, EmptyTree, Sectors;
      this.fs, this.sector, deny_write_cnt := fs, sector, 0;
      direct, doubly_indirect := NoPointers(123), UNALLOCATED;
      is_dir, this.length, children, magic := UNALLOCATED, length, 0, 0x494e4f44;
      inds, leaves := EmptyTree().inds, EmptyTree().leaves;
      owner := map[sector := Self];
      new;
      EmptyTreeIs();
      fs.cache.CacheWrite(sector, Encoded());
      EmptyFile(State());
      var ok := FirstGrowth(length);
    }

    lemma EmptyTreeIs()
      ensures EmptyTree() == Tree(NoPointers(123), UNALLOCATED, EmptyTree().inds, EmptyTree().leaves)
      ensures Sectors(0) == 0
    {
    }

    method FirstGrowth(size: nat) returns (ok: bool)
      requires CacheReady() && Complete(State(), 0) && ZeroTail(State(), 0, 0) && FileBytes(State(), 0, 0) == [] && size <= MAX_FILE_LEN
      modifies this, fs, fs.cache, fs.cache.ents
      ensures ok <==> old(|fs.free|) + Sectors(0) >= Sectors(Blocks(size))
      ensures ok ==> Valid() && Bytes() == seq(size, _ => 0)
      ensures ok ==> IsStored()
    {
      hide Coherent, Complete, FetchBlock, FileBytes, Extends, ZeroTail, ToTable, ToSector, Indirects, ByteAt, Sectors;
      ghost var g0 := State();
      ok := InodeExtend(size, 0);
      if ok {
        GrowthPads(g0, State(), 0, Blocks(size), 0, size);
        assert Bytes() == [] + seq(size - 0, _ => 0);
      }
    }

    /** An inode without blocks is a complete file of no bytes. */
    lemma EmptyFile(g: FS)
      requires |g.disk| <= UNALLOCATED && g.self < |g.disk| && g.self !in g.free && g.owner == map[g.self as nat := Self]
      requires forall b :: b in g.free ==> b < |g.disk|
      requires g.tree == EmptyTree()
      ensures Complete(g, 0) && ZeroTail(g, 0, 0) && FileBytes(g, 0, 0) == []
    {
    }

    /** The inode that inode_open decodes is the one that was written. */
    lemma EncodedRoundTrip()
      requires |direct| == 123
      ensures ToTable(Encoded()) == Fields()
    {
      TableRoundTrip(Fields());
    }

    method Decode(w: Table)
      modifies this
      ensures Fields() == w
      ensures deny_write_cnt == old(deny_write_cnt) && inds == old(inds) && leaves == old(leaves) && owner == old(owner)
    {
      direct := w[..123];
      doubly_indirect, is_dir, length, children, magic := w[123], w[124], w[125], w[126], w[127];
    }

    /** struct inode_disk as an array of words. */
    function Fields(): seq<U32>
      reads this
    {
      direct + [doubly_indirect, is_dir, length, children, magic]
    }

    ghost function State(): FS
      reads this, fs, fs.cache
    {
      FS(fs.cache.contents, fs.free, owner, Tree(direct, doubly_indirect, inds, leaves), sector)
    }

    ghost predicate CacheReady()
      reads this, fs, fs.cache, fs.cache.ents
    {
      fs.cache.Valid() && fs.cache.HasUnpinned()
    }

    ghost predicate Valid()
      reads this, fs, fs.cache, fs.cache.ents
    {
      && CacheReady()
      && length <= MAX_FILE_LEN
      && Complete(State(), Blocks(length))
      && ZeroTail(State(), Blocks(length), length)
    }

    /** The contents of the file. */
    ghost function Bytes(): (s: seq<Byte>)
      requires Valid()
      reads this, fs, fs.cache, fs.cache.ents
      ensures |s| == length
    {
      FileBytes(State(), Blocks(length), length)
    }

    /** The on-disk form of the inode. */
    function Encoded(): Sector
      requires |direct| == 123
      reads this
    {
      ToSector(Fields())
    }

    /** The inode's sector holds the inode. */
    ghost predicate IsStored()
      reads this, fs, fs.cache
    {
      |direct| == 123 && sector < |fs.cache.contents| && fs.cache.contents[sector] == Encoded()
    }

    /** inode_fetch_block, with its reads going through the cache. */
    method InodeFetchBlock(pos0: nat, ghost nb: nat) returns (r: U32)
      requires CacheReady() && Complete(State(), nb)
      modifies fs.cache, fs.cache.ents
      ensures CacheReady() && State() == old(State()) && |fs.cache.disk| == old(|fs.cache.disk|)
      ensures r == FetchBlock(fs.cache.contents, direct, doubly_indirect, pos0)
    {
      hide Coherent, ToTable, Complete, FetchBlock;
      FetchCases(fs.cache.contents, direct, doubly_indirect, pos0);
      PointersInRange(State(), nb, pos0);
      var pos := pos0;
      if pos < 62976 {
        r := direct[pos / 512];
      } else if pos < MAX_FILE_LEN && doubly_indirect != UNALLOCATED {
        pos := pos - 62976;
        var i := pos / 65536;
        var indirect := ReadPointer(doubly_indirect, i);
        pos := pos - i * 65536;
        if indirect == UNALLOCATED {
          r := UNALLOCATED;
        } else {
          r := ReadPointer(indirect, pos / 512);
        }
      } else {
        r := UNALLOCATED;
      }
      assert State() == old(State());
    }

    /** Reads one pointer of an index sector. */
    method ReadPointer(block: U32, k: nat) returns (r: U32)
      requires CacheReady() && block < |fs.cache.disk| && block != UNALLOCATED && k < 128
      modifies fs.cache, fs.cache.ents
      ensures CacheReady() && fs.cache.contents == old(fs.cache.contents) && |fs.cache.disk| == old(|fs.cache.disk|)
      ensures block < |fs.cache.contents| && r == ToTable(fs.cache.contents[block])[k]
    {
      hide Coherent, ToTable;
      var buffer := fs.cache.CacheRead(block);
      r := ToTable(buffer)[k];
    }

    lemma PointersInRange(g: FS, nb: nat, pos: nat)
      requires Complete(g, nb)
      ensures g.tree.dbl != UNALLOCATED ==> g.tree.dbl < |g.disk|
      ensures 62976 <= pos < 8451584 && g.tree.dbl != UNALLOCATED ==>
        var ind := ToTable(g.disk[g.tree.dbl])[(pos - 62976) / 65536]; ind != UNALLOCATED ==> ind < |g.disk|
    {
      hide ToTable;
      if g.tree.dbl != UNALLOCATED {
        assert Ptr(g, Dbl) == g.tree.dbl;
        if 62976 <= pos < 8451584 {
          var i := (pos - 62976) / 65536;
          assert Ptr(g, Ind(i)) == g.tree.inds[i];
        }
      }
    }

    /** inode_read_at: the bytes of the file in the range, clipped to its end. */
    method InodeReadAt(size0: int, offset0: nat) returns (buffer: seq<Byte>)
      requires Valid()
      modifies fs.cache, fs.cache.ents
      ensures Valid() && State() == old(State()) && Bytes() == old(Bytes())
      ensures buffer ==
        if size0 <= 0 || offset0 >= length then []
        else Bytes()[offset0..if offset0 + size0 < length then offset0 + size0 else length]
    {
      hide Coherent, Complete, ZeroTail, FetchBlock, FileBytes, Range;
      ghost var g, s := State(), Bytes();
      var size, offset := size0, offset0;
      buffer := [];
      EmptyRange(s, offset0);
      while size > 0
        invariant Valid() && State() == g && Bytes() == s
        invariant offset == offset0 + |buffer| && size + |buffer| == size0
        invariant offset > offset0 ==> offset <= |s| && size >= 0
        invariant buffer == Range(s, offset0, offset)
        decreases size
      {
        var chunk := ReadNext(size, offset);
        if chunk == [] {
          break;
        }
        ExtendRange(s, offset0, offset, |chunk|);
        buffer := buffer + chunk;
        size := size - |chunk|;
        offset := offset + |chunk|;
      }
      RangeDone(s, size0, offset0, offset);
    }

    lemma EmptyRange(s: seq<Byte>, o: nat)
      ensures Range(s, o, o) == []
    {
    }

    lemma ExtendRange(s: seq<Byte>, o: nat, p: nat, k: nat)
      requires o <= p && p + k <= |s|
      ensures Range(s, o, p) + s[p..p + k] == Range(s, o, p + k)
    {
    }

    lemma RangeDone(s: seq<Byte>, size0: int, o: nat, p: nat)
      requires o <= p && (p >= |s| || p == o + size0 || size0 <= 0) && (p > o ==> p <= |s| && p <= o + size0) && |Range(s, o, p)| == p - o
      ensures Range(s, o, p) == if size0 <= 0 || o >= |s| then [] else s[o..if o + size0 < |s| then o + size0 else |s|]
    {
    }

    /** One iteration of inode_read_at's loop; an empty chunk ends it. */
    method ReadNext(size: int, offset: nat) returns (chunk: seq<Byte>)
      requires Valid() && size > 0
      modifies fs.cache, fs.cache.ents
      ensures Valid() && State() == old(State()) && Bytes() == old(Bytes())
      ensures chunk == [] <==> offset >= length
      ensures chunk != [] ==> |chunk| <= size && offset + |chunk| <= length && chunk == Bytes()[offset..offset + |chunk|]
    {
      hide Coherent, Complete, ZeroTail, FetchBlock, FileBytes;
      var sector_idx := InodeFetchBlock(offset, Blocks(length));
      FetchForRead(State(), Blocks(length), length, offset);
      if sector_idx == UNALLOCATED {
        return [];
      }
      var sector_ofs := offset % 512;
      var inode_left, sector_left := length - offset, 512 - sector_ofs;
      var min_left := if inode_left < sector_left then inode_left else sector_left;
      var chunk_size := if size < min_left then size else min_left;
      if chunk_size <= 0 {
        return [];
      }
      chunk := ReadChunk(sector_idx, offset, chunk_size);
    }

    /** Reads one chunk, as a whole sector if it is one. */
    method ReadChunk(sector_idx: U32, offset: nat, chunk_size: nat) returns (chunk: seq<Byte>)
      requires Valid() && offset + chunk_size <= length && 0 < chunk_size && offset % 512 + chunk_size <= 512
      requires sector_idx == Fetch(State(), offset)
      modifies fs.cache, fs.cache.ents
      ensures Valid() && State() == old(State()) && chunk == Bytes()[offset..offset + chunk_size]
    {
      hide Coherent, Complete, ZeroTail, FetchBlock, FileBytes;
      ChunkBytes(State(), Blocks(length), length, offset, chunk_size);
      var sector_ofs := offset % 512;
      if sector_ofs == 0 && chunk_size == 512 {
        chunk := fs.cache.CacheRead(sector_idx);
      } else {
        chunk := fs.cache.CacheReadLen(sector_idx, sector_ofs, chunk_size);
      }
      assert State() == old(State());
    }

    lemma FetchForRead(g: FS, nb: nat, n: nat, p: nat)
      requires Complete(g, nb) && nb == Blocks(n) && n <= 8451584
      ensures Fetch(g, p) == UNALLOCATED ==> p >= n
      ensures Fetch(g, p) != UNALLOCATED ==> Fetch(g, p) < |g.disk| && p / 512 < nb
    {
      hide ToTable, Ptr;
      FetchIsPtr(g, nb, p);
      if p < 8451584 {
        var s := DataSlot(p / 512);
        assert Ptr(g, s) != UNALLOCATED <==> Uses(s, nb, Indirects(nb), nb > 123);
      }
    }

    lemma ChunkBytes(g: FS, nb: nat, n: nat, p: nat, k: nat)
      requires Complete(g, nb) && nb == Blocks(n) && n <= 8451584 && p + k <= n && 0 < k && p % 512 + k <= 512
      ensures Fetch(g, p) < |g.disk| && g.disk[Fetch(g, p)][p % 512..p % 512 + k] == FileBytes(g, nb, n)[p..p + k]
    {
      hide Ptr, ToTable;
      FetchIsPtr(g, nb, p);
      assert Uses(DataSlot(p / 512), nb, Indirects(nb), nb > 123);
      var d, f := g.disk[Fetch(g, p)], FileBytes(g, nb, n);
      forall q | p <= q < p + k ensures d[q - p + p % 512] == f[q] {
        assert q / 512 == p / 512 && q % 512 == q - p + p % 512;
      }
    }

    // ---------- growth ----------

    /** Takes a sector for slot `s` and fills it; the caller stores the pointer. */
    method AddSector(ghost s: Slot, content: Sector) returns (ok: bool, b: U32)
      requires CacheReady() && (forall x :: x in fs.free ==> x < |fs.cache.contents|) && |fs.cache.contents| <= UNALLOCATED
      modifies `owner, fs, fs.cache, fs.cache.ents
      ensures CacheReady() && |fs.cache.disk| == old(|fs.cache.disk|)
      ensures ok <==> old(fs.free) != {}
      ensures ok ==> b in old(fs.free) && fs.free == old(fs.free) - {b} && owner == old(owner)[b := s]
      ensures ok ==> fs.cache.contents == old(fs.cache.contents)[b := content]
    {
      hide Coherent;
      var sector;
      ok, sector := fs.NewSector(content);
      b := 0;
      if ok {
        b := sector;
        owner := owner[b := s];
      }
    }

    method AddDirect(i: nat, ghost g0: FS, ghost nb0: nat, ghost ni: nat, ghost nd: bool) returns (ok: bool)
      requires CacheReady() && Growing(g0, State(), nb0, i, ni, nd, false, -1) && nb0 <= i < 123
      modifies this`direct, this`owner, fs, fs.cache, fs.cache.ents
      ensures CacheReady()
      ensures ok ==> Growing(g0, State(), nb0, i + 1, ni, nd, false, -1) && |fs.free| + 1 == old(|fs.free|)
      ensures !ok ==> old(|fs.free|) == 0
    {
      hide Coherent, Growing, Ptr, Extends, Owned, Counts, Stored;
      ghost var g := State();
      GrowingFacts(g0, g, nb0, i, ni, nd, false, -1);
      var b;
      ok, b := AddSector(Direct(i), Zero());
      if ok {
        GrowDirect(g0, g, nb0, i, ni, nd, b);
        direct := direct[i := b];
        assert State() == Alloc(g, Direct(i), b, Zero());
      }
    }

    method AddDbl(content: Sector, ghost g0: FS, ghost nb0: nat, ghost nb: nat) returns (ok: bool)
      requires CacheReady() && Growing(g0, State(), nb0, nb, 0, false, false, -1)
      modifies this`doubly_indirect, this`owner, fs, fs.cache, fs.cache.ents
      ensures CacheReady()
      ensures ok ==> Growing(g0, State(), nb0, nb, 0, true, true, -1) && |fs.free| + 1 == old(|fs.free|)
      ensures !ok ==> old(|fs.free|) == 0
    {
      hide Coherent, Growing, Ptr, Extends, Owned, Counts, Stored;
      ghost var g := State();
      GrowingFacts(g0, g, nb0, nb, 0, false, false, -1);
      var b;
      ok, b := AddSector(Dbl, content);
      if ok {
        GrowDbl(g0, g, nb0, nb, b, content);
        doubly_indirect := b;
        assert State() == Alloc(g, Dbl, b, content);
      }
    }

    /** Adds indirect block `i`; the pointer goes into the table in memory. */
    method AddInd(i: nat, ghost g0: FS, ghost nb0: nat, ghost nb: nat) returns (ok: bool, b: U32)
      requires CacheReady() && Growing(g0, State(), nb0, nb, i, true, true, -1) && i < 128 && nb <= 123 + 128 * i
      modifies this`inds, this`owner, fs, fs.cache, fs.cache.ents
      ensures CacheReady()
      ensures ok ==> Growing(g0, State(), nb0, nb, i + 1, true, true, -1) && |fs.free| + 1 == old(|fs.free|)
      ensures ok ==> inds == old(inds)[i := b]
      ensures !ok ==> old(|fs.free|) == 0
    {
      hide Coherent, Growing, Ptr, Extends, Owned, Counts, Stored, ToTable;
      ghost var g := State();
      GrowingFacts(g0, g, nb0, nb, i, true, true, -1);
      ok, b := AddSector(Ind(i), Ones());
      if ok {
        AllOnes(Ones());
        GrowInd(g0, g, nb0, nb, i, b, Ones());
        inds := inds[i := b];
        assert State() == Alloc(g, Ind(i), b, Ones());
      }
    }

    /** Adds the data block of entry `j` of indirect block `i`; the pointer goes into the table in memory. */
    method AddLeaf(i: nat, j: nat, ghost g0: FS, ghost nb0: nat, ghost ni: nat) returns (ok: bool, b: U32)
      requires i < 128 && j < 128 && nb0 <= 123 + 128 * i + j
      requires CacheReady() && Growing(g0, State(), nb0, 123 + 128 * i + j, ni, true, true, i)
      modifies this`leaves, this`owner, fs, fs.cache, fs.cache.ents
      ensures CacheReady()
      ensures ok ==> Growing(g0, State(), nb0, 123 + 128 * i + j + 1, ni, true, true, i) && |fs.free| + 1 == old(|fs.free|)
      ensures ok ==> |leaves| == |old(leaves)| == 128 && leaves == old(leaves)[i := old(leaves)[i][j := b]]
      ensures !ok ==> old(|fs.free|) == 0
    {
      hide Coherent, Growing, Ptr, Extends, Owned, Counts, Stored, ToTable;
      ghost var g := State();
      GrowingFacts(g0, g, nb0, 123 + 128 * i + j, ni, true, true, i);
      ok, b := AddSector(Leaf(i, j), Zero());
      if ok {
        GrowLeaf(g0, g, nb0, i, j, ni, b);
        leaves := leaves[i := leaves[i][j := b]];
        assert State() == Alloc(g, Leaf(i, j), b, Zero());
      }
    }

    /** The first loop of inode_extend, over the direct pointers. */
    method ExtendDirect(size: nat, ghost g0: FS, ghost nb0: nat, ghost ni: nat, ghost nd: bool) returns (ok: bool)
      requires CacheReady() && Growing(g0, State(), nb0, nb0, ni, nd, false, -1) && nb0 <= Blocks(size)
      modifies this`direct, this`owner, fs, fs.cache, fs.cache.ents
      ensures CacheReady()
      ensures ok ==> Growing(g0, State(), nb0, Clamp(nb0, Blocks(size), 123), ni, nd, false, -1)
      ensures ok ==> |fs.free| + Clamp(nb0, Blocks(size), 123) == old(|fs.free|) + nb0
      ensures !ok ==> old(|fs.free|) + nb0 < Blocks(size)
    {
      hide Coherent, Growing, Ptr, Extends, Owned, Counts, Stored;
      for i := 0 to 123
        invariant CacheReady() && Growing(g0, State(), nb0, Clamp(nb0, Blocks(size), i), ni, nd, false, -1)
        invariant |fs.free| + Clamp(nb0, Blocks(size), i) == old(|fs.free|) + nb0
      {
        GrowingFacts(g0, State(), nb0, Clamp(nb0, Blocks(size), i), ni, nd, false, -1);
        // growth never reaches the branch that releases a block past the end
        assert !(size <= 512 * i && direct[i] != UNALLOCATED);
        if size > 512 * i && direct[i] == UNALLOCATED {
          ok := AddDirect(i, g0, nb0, ni, nd);
          if !ok {
            return false;
          }
        }
      }
      ok := true;
    }

    /** The inner loop of inode_extend: fills indirect block `i` in memory and writes it to its sector. */
    method ExtendLeaf(size: nat, i: nat, indirect: U32, ghost g0: FS, ghost nb0: nat, ghost ni: nat) returns (ok: bool)
      requires i < 128 && i < ni && nb0 <= Blocks(size) && size > 62976 && indirect == inds[i]
      requires CacheReady() && Growing(g0, State(), nb0, Clamp(nb0, Blocks(size), 123 + 128 * i), ni, true, true, -1)
      modifies this`leaves, this`owner, fs, fs.cache, fs.cache.ents
      ensures CacheReady()
      ensures ok ==> Growing(g0, State(), nb0, Clamp(nb0, Blocks(size), 123 + 128 * (i + 1)), ni, true, true, -1)
      ensures ok ==> |fs.free| + Clamp(nb0, Blocks(size), 123 + 128 * (i + 1)) == old(|fs.free| + Clamp(nb0, Blocks(size), 123 + 128 * i))
      ensures !ok ==> old(|fs.free|) + Clamp(nb0, Blocks(size), 123 + 128 * i) < Blocks(size)
    {
      hide Coherent, Growing, Ptr, Extends, Owned, Counts, Stored, ToTable, ToSector, Blocks;
      var rest := size - 62976;
      ghost var nb := Clamp(nb0, Blocks(size), 123 + 128 * i);
      var indirect_buffer := ReadLeaf(i, indirect, g0, nb0, nb, ni);
      for j := 0 to 128
        invariant CacheReady() && Growing(g0, State(), nb0, Clamp(nb0, Blocks(size), 123 + 128 * i + j), ni, true, true, i)
        invariant |fs.free| + Clamp(nb0, Blocks(size), 123 + 128 * i + j) == old(|fs.free|) + nb
        invariant |leaves| == 128 && indirect_buffer == leaves[i]
      {
        LeafFacts(g0, State(), nb0, Clamp(nb0, Blocks(size), 123 + 128 * i + j), ni, true, true, i, i, j);
        BlockNeeded(size, i, j);
        assert !(rest <= i * 65536 + j * 512 && indirect_buffer[j] != UNALLOCATED);
        if rest > i * 65536 + j * 512 && indirect_buffer[j] == UNALLOCATED {
          var b;
          ok, b := AddLeaf(i, j, g0, nb0, ni);
          if !ok {
            return false;
          }
          indirect_buffer := indirect_buffer[j := b];
        }
      }
      nb := Clamp(nb0, Blocks(size), 123 + 128 * (i + 1));
      WriteLeaf(i, indirect, indirect_buffer, g0, nb0, nb, ni);
      ok := true;
    }

    /** Reads an indirect block into memory, where it is then ahead of its sector. */
    method ReadLeaf(i: nat, indirect: U32, ghost g0: FS, ghost nb0: nat, ghost nb: nat, ghost ni: nat)
        returns (buffer: Table)
      requires i < 128 && i < ni && |inds| == 128 && indirect == inds[i]
      requires CacheReady() && Growing(g0, State(), nb0, nb, ni, true, true, -1)
      modifies fs.cache, fs.cache.ents
      ensures CacheReady() && Growing(g0, State(), nb0, nb, ni, true, true, i)
      ensures |leaves| == 128 && buffer == leaves[i]
    {
      hide Coherent, Growing, Ptr, Extends, Owned, Counts, Stored, ToTable, ToSector;
      GrowingFacts(g0, State(), nb0, nb, ni, true, true, -1);
      LeafFacts(g0, State(), nb0, nb, ni, true, true, -1, i, 0);
      var sector := fs.cache.CacheRead(indirect);
      buffer := ToTable(sector);
      Weaken(g0, State(), nb0, nb, ni, true, true, true, i);
    }

    /** The guard of the loop over an indirect block, in blocks. */
    lemma BlockNeeded(size: nat, i: nat, j: nat)
      requires size > 62976
      ensures size - 62976 > i * 65536 + j * 512 <==> Blocks(size) > 123 + 128 * i + j
    {
    }

    method WriteLeaf(i: nat, indirect: U32, buffer: Table, ghost g0: FS, ghost nb0: nat, ghost nb: nat, ghost ni: nat)
      requires i < 128 && i < ni && |leaves| == 128 && indirect == inds[i] && buffer == leaves[i]
      requires CacheReady() && Growing(g0, State(), nb0, nb, ni, true, true, i)
      modifies fs.cache, fs.cache.ents
      ensures CacheReady() && Growing(g0, State(), nb0, nb, ni, true, true, -1)
    {
      hide Coherent, Growing, Extends, Owned, Counts, Stored, ToTable, ToSector;
      ghost var g := State();
      GrowingFacts(g0, g, nb0, nb, ni, true, true, i);
      StoreLeaf(g0, g, nb0, nb, ni, i);
      fs.cache.CacheWrite(indirect, ToSector(buffer));
      assert State() == Write(g, Ind(i), ToSector(g.tree.leaves[i]));
    }

    /** Adds indirect block `i` if the new size needs it and it is missing. */
    method EnsureInd(size: nat, i: nat, buffer0: Table, ghost g0: FS, ghost nb0: nat) returns (ok: bool, buffer: Table)
      requires i < 128 && nb0 <= Blocks(size) && 62976 < size <= MAX_FILE_LEN && buffer0 == inds && CacheReady()
      requires Growing(g0, State(), nb0, Clamp(nb0, Blocks(size), 123 + 128 * i), Clamp(Indirects(nb0), Indirects(Blocks(size)), i), true, true, -1)
      modifies this`inds, this`owner, fs, fs.cache, fs.cache.ents
      ensures CacheReady()
      ensures ok ==> buffer == inds
      ensures ok ==> Growing(g0, State(), nb0, Clamp(nb0, Blocks(size), 123 + 128 * i), Clamp(Indirects(nb0), Indirects(Blocks(size)), i + 1), true, true, -1)
      ensures ok ==> |fs.free| + Clamp(Indirects(nb0), Indirects(Blocks(size)), i + 1) == old(|fs.free|) + Clamp(Indirects(nb0), Indirects(Blocks(size)), i)
      ensures !ok ==> old(|fs.free|) == 0 && Clamp(Indirects(nb0), Indirects(Blocks(size)), i) < Indirects(Blocks(size))
    {
      hide Coherent, Growing, Ptr, Extends, Owned, Counts, Stored, ToTable, ToSector;
      buffer := buffer0;
      ok := true;
      var rest := size - 62976;
      ghost var nb, ni := Clamp(nb0, Blocks(size), 123 + 128 * i), Clamp(Indirects(nb0), Indirects(Blocks(size)), i);
      GrowingFacts(g0, State(), nb0, nb, ni, true, true, -1);
      assert !(rest <= i * 65536 && buffer[i] != UNALLOCATED);
      if rest > i * 65536 && buffer[i] == UNALLOCATED {
        var b;
        ok, b := AddInd(i, g0, nb0, nb);
        if ok {
          buffer := buffer[i := b];
        }
      }
    }

    /** The second loop of inode_extend, over the indirect blocks of a table held in memory. */
    method ExtendIndirect(size: nat, buffer0: Table, ghost g0: FS, ghost nb0: nat) returns (ok: bool, buffer: Table)
      requires nb0 <= Blocks(size) && 62976 < size <= MAX_FILE_LEN && buffer0 == inds
      requires CacheReady() && Growing(g0, State(), nb0, Clamp(nb0, Blocks(size), 123), Indirects(nb0), true, true, -1)
      modifies this`inds, this`leaves, this`owner, fs, fs.cache, fs.cache.ents
      ensures CacheReady()
      ensures ok ==> Growing(g0, State(), nb0, Blocks(size), Indirects(Blocks(size)), true, true, -1) && buffer == inds
      ensures ok ==> |fs.free| + Blocks(size) + Indirects(Blocks(size)) == old(|fs.free|) + Clamp(nb0, Blocks(size), 123) + Indirects(nb0)
      ensures !ok ==> old(|fs.free|) + Clamp(nb0, Blocks(size), 123) + Indirects(nb0) < Blocks(size) + Indirects(Blocks(size))
    {
      hide Coherent, Growing, Ptr, Extends, Owned, Counts, Stored, ToTable, ToSector;
      hide Indirects, CacheReady;
      buffer := buffer0;
      ghost var nb1 := Blocks(size);
      IndirectsMonotone(nb0, nb1);
      ghost var ni0, ni1 := Indirects(nb0), Indirects(nb1);
      var i := 0;
      while i < 128
        invariant 0 <= i <= 128 && buffer == inds && CacheReady()
        invariant Growing(g0, State(), nb0, Clamp(nb0, nb1, 123 + 128 * i), Clamp(ni0, ni1, i), true, true, -1)
        invariant |fs.free| + Clamp(nb0, nb1, 123 + 128 * i) + Clamp(ni0, ni1, i) == old(|fs.free|) + Clamp(nb0, nb1, 123) + ni0
        decreases 128 - i
      {
        IndirectsAt(nb1, i);
        ok, buffer := EnsureInd(size, i, buffer, g0, nb0);
        if !ok {
          return;
        }
        ghost var nb, ni := Clamp(nb0, nb1, 123 + 128 * i), Clamp(ni0, ni1, i + 1);
        GrowingFacts(g0, State(), nb0, nb, ni, true, true, -1);
        if buffer[i] == UNALLOCATED {
          break;
        }
        ok := ExtendLeaf(size, i, buffer[i], g0, nb0, ni);
        if !ok {
          return;
        }
        i := i + 1;
      }
      ok := true;
    }

    /** inode_extend to a larger size. A false result means that the free map ran out of sectors;
        what the code then does to take the growth back is not part of this model. */
    method InodeExtend(size: nat, ghost nb0: nat) returns (ok: bool)
      requires CacheReady() && Complete(State(), nb0) && nb0 <= Blocks(size) && size <= MAX_FILE_LEN
      modifies this, fs, fs.cache, fs.cache.ents
      ensures CacheReady() && deny_write_cnt == old(deny_write_cnt)
      ensures ok ==> Complete(State(), Blocks(size)) && Extends(old(State()), State(), nb0) && length == size
      ensures ok ==> IsStored()
      ensures ok <==> old(|fs.free|) + Sectors(nb0) >= Sectors(Blocks(size))
      ensures ok ==> |fs.free| + Sectors(Blocks(size)) == old(|fs.free|) + Sectors(nb0)
    {
      hide Coherent, Growing, Ptr, Extends, Owned, Counts, Stored, ToTable, ToSector, Indirects, Complete;
      IndirectsMonotone(nb0, Blocks(size));
      ghost var g0, nd0 := State(), nb0 > 123;
      ghost var nb1 := Blocks(size);
      StartGrowing(g0, nb0);
      ok := ExtendDirect(size, g0, nb0, Indirects(nb0), nd0);
      if !ok {
        return;
      }
      ghost var nb := Clamp(nb0, nb1, 123);
      GrowingFacts(g0, State(), nb0, nb, Indirects(nb0), nd0, false, -1);
      if doubly_indirect == UNALLOCATED && size <= 62976 {
        Finish(size, g0, nb0, nb1);
        return true;
      }
      ok := ExtendPastDirect(size, g0, nb0);
    }

    /** The part of inode_extend for a file that outgrows, or has outgrown, its direct pointers. */
    method ExtendPastDirect(size: nat, ghost g0: FS, ghost nb0: nat) returns (ok: bool)
      requires nb0 <= Blocks(size) && 62976 < size <= MAX_FILE_LEN && CacheReady()
      requires Growing(g0, State(), nb0, Clamp(nb0, Blocks(size), 123), Indirects(nb0), nb0 > 123, false, -1)
      modifies this, fs, fs.cache, fs.cache.ents
      ensures CacheReady() && deny_write_cnt == old(deny_write_cnt)
      ensures ok ==> Complete(State(), Blocks(size)) && Extends(g0, State(), nb0) && length == size
      ensures ok ==> IsStored()
      ensures var have := old(|fs.free|) + Clamp(nb0, Blocks(size), 123) + Indirects(nb0) + One(nb0 > 123);
        var need := Blocks(size) + Indirects(Blocks(size)) + 1;
        (ok <==> have >= need) && (ok ==> |fs.free| + need == have)
    {
      hide Coherent, Growing, Ptr, Extends, Owned, Counts, Stored, ToTable, ToSector, Indirects, Complete;
      ghost var nb1 := Blocks(size);
      IndirectsMonotone(nb0, nb1);
      var buffer;
      ok, buffer := OpenDbl(g0, nb0, Clamp(nb0, nb1, 123));
      if !ok {
        return;
      }
      ok, buffer := ExtendIndirect(size, buffer, g0, nb0);
      if !ok {
        return;
      }
      WriteDbl(buffer, g0, nb0, nb1);
      Finish(size, g0, nb0, nb1);
      ok := true;
    }

    /** The table of indirect blocks: read from its sector, or new and empty. */
    method OpenDbl(ghost g0: FS, ghost nb0: nat, ghost nb: nat) returns (ok: bool, buffer: Table)
      requires CacheReady() && Growing(g0, State(), nb0, nb, Indirects(nb0), nb0 > 123, false, -1)
      modifies `doubly_indirect, `owner, fs, fs.cache, fs.cache.ents
      ensures CacheReady()
      ensures ok ==> Growing(g0, State(), nb0, nb, Indirects(nb0), true, true, -1) && buffer == inds
      ensures ok ==> |fs.free| + One(nb0 <= 123) == old(|fs.free|)
      ensures !ok ==> old(|fs.free|) == 0 && nb0 <= 123
    {
      hide Coherent, Growing, Ptr, Extends, Owned, Counts, Stored, ToTable, ToSector;
      GrowingFacts(g0, State(), nb0, nb, Indirects(nb0), nb0 > 123, false, -1);
      if doubly_indirect == UNALLOCATED {
        AllOnes(Ones());
        buffer := ToTable(Ones());
        assert buffer == inds;
        ok := AddDbl(Ones(), g0, nb0, nb);
      } else {
        DblFacts(g0, State(), nb0, nb, Indirects(nb0));
        var b := fs.cache.CacheRead(doubly_indirect);
        buffer := ToTable(b);
        Weaken(g0, State(), nb0, nb, Indirects(nb0), true, false, true, -1);
        ok := true;
      }
    }

    /** Indirect block `i` is needed exactly by the files that reach its first data block. */
    lemma IndirectsAt(nb: nat, i: nat)
      ensures i < Indirects(nb) <==> 123 + 128 * i < nb
    {
    }

    lemma IndirectsMonotone(nb0: nat, nb1: nat)
      requires nb0 <= nb1 <= 16507
      ensures Indirects(nb0) <= Indirects(nb1) <= 128
      ensures Indirects(nb0) == 0 <==> nb0 <= 123
      ensures Indirects(nb1) == 0 <==> nb1 <= 123
    {
    }

    lemma StartGrowing(g0: FS, nb0: nat)
      requires Complete(g0, nb0)
      ensures Growing(g0, g0, nb0, nb0, Indirects(nb0), nb0 > 123, false, -1)
    {
    }

    method WriteDbl(buffer: Table, ghost g0: FS, ghost nb0: nat, ghost nb: nat)
      requires CacheReady() && Growing(g0, State(), nb0, nb, Indirects(nb), true, true, -1) && buffer == inds
      modifies fs.cache, fs.cache.ents
      ensures CacheReady() && Growing(g0, State(), nb0, nb, Indirects(nb), true, false, -1)
    {
      hide Coherent, Growing, Extends, Owned, Counts, Stored, ToTable, ToSector;
      ghost var g := State();
      GrowingFacts(g0, g, nb0, nb, Indirects(nb), true, true, -1);
      StoreDbl(g0, g, nb0, nb, Indirects(nb));
      fs.cache.CacheWrite(doubly_indirect, ToSector(buffer));
      assert State() == Write(g, Dbl, ToSector(g.tree.inds));
    }

    /** Records the new length and writes the inode to its sector. */
    method Finish(size: nat, ghost g0: FS, ghost nb0: nat, ghost nb: nat)
      requires CacheReady() && Growing(g0, State(), nb0, nb, Indirects(nb), nb > 123, false, -1)
      requires size <= MAX_FILE_LEN && nb == Blocks(size)
      modifies this`length, fs.cache, fs.cache.ents
      ensures CacheReady() && length == size && Complete(State(), nb) && Extends(g0, State(), nb0)
      ensures |direct| == 123 && sector < |fs.cache.contents| && fs.cache.contents[sector] == Encoded()
    {
      hide Coherent, Growing, Extends, Owned, Counts, Stored, ToTable, ToSector;
      ghost var g := State();
      GrowingFacts(g0, g, nb0, nb, Indirects(nb), nb > 123, false, -1);
      length := size;
      ghost var e := Encoded();
      StoreSelf(g0, g, nb0, nb, Indirects(nb), nb > 123, e);
      fs.cache.CacheWrite(sector, Encoded());
      assert State() == Write(g, Self, e);
      GrowingDone(g0, State(), nb0, nb);
    }

    lemma GrowingDone(g0: FS, g: FS, nb0: nat, nb: nat)
      requires Growing(g0, g, nb0, nb, Indirects(nb), nb > 123, false, -1) && nb <= 16507
      ensures Complete(g, nb) && Extends(g0, g, nb0)
    {
    }

    // ---------- writing ----------

    /** Writes one chunk within the file, as a whole sector if it is one. */
    method WriteChunk(sector_idx: U32, offset: nat, chunk: seq<Byte>)
      requires Valid() && offset + |chunk| <= length && 0 < |chunk| && offset % 512 + |chunk| <= 512
      requires sector_idx == Fetch(State(), offset)
      modifies fs.cache, fs.cache.ents
      ensures Valid() && OnlyDisk(old(State()), State(), owner.Keys - {sector})
      ensures Bytes() == old(Bytes())[..offset] + chunk + old(Bytes())[offset + |chunk|..]
    {
      hide Coherent, Complete, ZeroTail, FetchBlock, FileBytes, Ptr, SectorOf;
      ghost var g, nb := State(), Blocks(length);
      var sector_ofs := offset % 512;
      WriteTarget(g, nb, length, offset, chunk);
      OverwriteBytes(g, nb, length, offset, chunk);
      if sector_ofs == 0 && |chunk| == 512 {
        fs.cache.CacheWrite(sector_idx, chunk);
        assert Patched(g.disk[sector_idx], 0, chunk) == chunk;
      } else {
        fs.cache.CacheWriteLen(sector_idx, chunk, sector_ofs);
      }
      assert State() == Overwrite(g, DataSlot(offset / 512), offset % 512, chunk);
    }

    lemma WriteTarget(g: FS, nb: nat, n: nat, offset: nat, chunk: seq<Byte>)
      requires Complete(g, nb) && nb == Blocks(n) && n <= MAX_FILE_LEN
      requires offset + |chunk| <= n && 0 < |chunk| && offset % 512 + |chunk| <= 512
      ensures Owned(g) && offset / 512 < 16507
      ensures var s := DataSlot(offset / 512);
        && Ptr(g, s) != UNALLOCATED && Fetch(g, offset) == Ptr(g, s) < |g.disk|
        && Fetch(g, offset) in g.owner && Fetch(g, offset) != g.self
        && Overwrite(g, s, offset % 512, chunk) == g.(disk := g.disk[Ptr(g, s) := Patched(g.disk[Ptr(g, s)], offset % 512, chunk)])
    {
      hide ToTable, Ptr;
      FetchIsPtr(g, nb, offset);
      assert Uses(DataSlot(offset / 512), nb, Indirects(nb), nb > 123);
      NotTheInode(g, DataSlot(offset / 512));
    }

    /** The inode's own sector is not a data sector. */
    lemma NotTheInode(g: FS, s: Slot)
      requires Owned(g) && InRange(s) && IsData(s) && Ptr(g, s) != UNALLOCATED
      ensures Ptr(g, s) != g.self
    {
      assert InRange(Self) && Ptr(g, Self) == g.self;
    }

    /** inode_write_at. On success the range holds `buffer`, a gap past the old end is zero, and the rest is unchanged. */
    method InodeWriteAt(buffer: seq<Byte>, offset0: nat) returns (bytes_written: nat)
      requires Valid() && offset0 + |buffer| <= MAX_FILE_LEN
      modifies this, fs, fs.cache, fs.cache.ents
      ensures deny_write_cnt == old(deny_write_cnt)
      ensures old(deny_write_cnt) > 0 ==>
        bytes_written == 0 && Valid() && State() == old(State()) && length == old(length) && IsStored() == old(IsStored())
      ensures old(deny_write_cnt) == 0 && old(HasRoom(offset0 + |buffer|)) ==>
        && bytes_written == |buffer| && Valid()
        && Bytes() == Written(old(Bytes()), offset0, buffer)
        && OthersUnchanged(old(State()), State())
        && (old(IsStored()) ==> IsStored())
      ensures old(deny_write_cnt) == 0 && !old(HasRoom(offset0 + |buffer|)) ==> bytes_written == 0
    {
      hide Coherent, Complete, ZeroTail, FetchBlock, FileBytes, Ptr, Extends, OnlyDisk, OthersUnchanged, Written, Sectors, Indirects;
      hide Valid, IsStored, Encoded, Blocks;
      bytes_written := 0;
      if deny_write_cnt > 0 {
        return;
      }
      ghost var g0, s0 := State(), Bytes();
      var needed_at_least := offset0 + |buffer|;
      if needed_at_least > length {
        var ok := Grow(needed_at_least);
        if !ok {
          return;
        }
      } else {
        SameOthers(g0);
      }
      ghost var g1, s1 := State(), Bytes();
      WriteBytes(buffer, offset0);
      WriteOthers(g0, g1, State());
      WrittenSplice(s0, s1, offset0, buffer);
      bytes_written := |buffer|;
    }

    lemma StoredStays(g: FS, g': FS)
      requires OnlyDisk(g, g', g.owner.Keys - {g.self})
      ensures |g'.disk| == |g.disk| && (g.self < |g.disk| ==> g'.disk[g.self] == g.disk[g.self])
    {
    }

    lemma SameOthers(g: FS)
      ensures OthersUnchanged(g, g)
    {
    }

    lemma WriteOthers(g0: FS, g1: FS, g2: FS)
      requires OthersUnchanged(g0, g1) && OnlyDisk(g1, g2, g1.owner.Keys - {g1.self})
      ensures OthersUnchanged(g0, g2)
    {
    }

    lemma WrittenSplice(s0: seq<Byte>, s1: seq<Byte>, offset: nat, buffer: seq<Byte>)
      requires s1 == if offset + |buffer| > |s0| then s0 + seq(offset + |buffer| - |s0|, _ => 0) else s0
      ensures s1[..offset] + buffer + s1[offset + |buffer|..] == Written(s0, offset, buffer)
    {
    }

    /** The loop of inode_write_at, once the file is long enough: every chunk lies within the file. */
    method WriteBytes(buffer: seq<Byte>, offset0: nat)
      requires Valid() && offset0 + |buffer| <= length
      modifies fs.cache, fs.cache.ents
      ensures Valid() && OnlyDisk(old(State()), State(), owner.Keys - {sector})
      ensures Bytes() == old(Bytes())[..offset0] + buffer + old(Bytes())[offset0 + |buffer|..]
      ensures IsStored() == old(IsStored())
    {
      hide Coherent, Complete, ZeroTail, FetchBlock, FileBytes, Ptr, OnlyDisk, Mix;
      ghost var g0, s0 := State(), Bytes();
      var size, offset, bytes_written := |buffer|, offset0, 0;
      StartWriting(g0, s0, offset0, buffer);
      while size > 0
        invariant Valid() && OnlyDisk(g0, State(), owner.Keys - {sector})
        invariant 0 <= size && bytes_written + size == |buffer| && offset == offset0 + bytes_written
        invariant Bytes() == Mix(s0, offset0, buffer, bytes_written)
      {
        ghost var g := State();
        var chunk_size := WriteNext(buffer[bytes_written..], offset);
        OnlyDiskTrans(g0, g, State(), owner.Keys - {sector});
        MixStep(s0, offset0, buffer, bytes_written, chunk_size);
        size := size - chunk_size;
        offset := offset + chunk_size;
        bytes_written := bytes_written + chunk_size;
      }
      MixDone(s0, offset0, buffer);
      StoredStays(g0, State());
    }

    /** One iteration of that loop: writes as much of `data` as fits in one sector. */
    method WriteNext(data: seq<Byte>, offset: nat) returns (chunk_size: nat)
      requires Valid() && data != [] && offset + |data| <= length
      modifies fs.cache, fs.cache.ents
      ensures Valid() && OnlyDisk(old(State()), State(), owner.Keys - {sector})
      ensures 0 < chunk_size <= |data|
      ensures Bytes() == old(Bytes())[..offset] + data[..chunk_size] + old(Bytes())[offset + chunk_size..]
    {
      hide Coherent, Complete, ZeroTail, FetchBlock, FileBytes, Ptr, OnlyDisk;
      var sector_idx := InodeFetchBlock(offset, Blocks(length));
      var sector_ofs := offset % 512;
      var inode_left, sector_left := length - offset, 512 - sector_ofs;
      var min_left := if inode_left < sector_left then inode_left else sector_left;
      chunk_size := if |data| < min_left then |data| else min_left;
      WriteChunk(sector_idx, offset, data[..chunk_size]);
    }

    lemma StartWriting(g: FS, s: seq<Byte>, offset: nat, buffer: seq<Byte>)
      requires offset + |buffer| <= |s|
      ensures OnlyDisk(g, g, g.owner.Keys - {g.self}) && Mix(s, offset, buffer, 0) == s
    {
    }

    lemma OnlyDiskTrans(g: FS, g': FS, g'': FS, changed: set<nat>)
      requires OnlyDisk(g, g', changed) && OnlyDisk(g', g'', changed)
      ensures OnlyDisk(g, g'', changed)
    {
    }

    /** `s` with the first `n` bytes of `buffer` written at `o`. */
    ghost function Mix(s: seq<Byte>, o: nat, buffer: seq<Byte>, n: nat): seq<Byte>
      requires o + |buffer| <= |s| && n <= |buffer|
    {
      s[..o] + buffer[..n] + s[o + n..]
    }

    lemma MixStep(s: seq<Byte>, o: nat, buffer: seq<Byte>, n: nat, k: nat)
      requires o + |buffer| <= |s| && n + k <= |buffer|
      ensures |Mix(s, o, buffer, n)| == |s|
      ensures Mix(s, o, buffer, n)[..o + n] + buffer[n..][..k] + Mix(s, o, buffer, n)[o + n + k..] == Mix(s, o, buffer, n + k)
    {
      var t := Mix(s, o, buffer, n);
      assert t[..o + n] == s[..o] + buffer[..n];
      assert t[o + n + k..] == s[o + n + k..];
      assert buffer[..n + k] == buffer[..n] + buffer[n..][..k];
    }

    lemma MixDone(s: seq<Byte>, o: nat, buffer: seq<Byte>)
      requires o + |buffer| <= |s|
      ensures Mix(s, o, buffer, |buffer|) == s[..o] + buffer + s[o + |buffer|..]
    {
      assert buffer[..|buffer|] == buffer;
    }

    /** Enough free sectors for the file to reach `size` bytes. */
    ghost predicate HasRoom(size: nat)
      reads this, fs
    {
      size > length ==> |fs.free| + Sectors(Blocks(length)) >= Sectors(Blocks(size))
    }

    /** The growing part of inode_write_at. */
    method Grow(size: nat) returns (ok: bool)
      requires Valid() && length < size <= MAX_FILE_LEN
      modifies this, fs, fs.cache, fs.cache.ents
      ensures ok <==> old(HasRoom(size))
      ensures deny_write_cnt == old(deny_write_cnt)
      ensures ok ==> Valid() && length == size && OthersUnchanged(old(State()), State()) && IsStored()
      ensures ok ==> Bytes() == old(Bytes()) + seq(size - old(length), _ => 0)
    {
      hide Coherent, ZeroTail, FileBytes, Ptr, Complete, Extends;
      ghost var g0, n0, nb0 := State(), length, Blocks(length);
      ok := InodeExtend(size, nb0);
      if ok {
        GrowthPads(g0, State(), nb0, Blocks(size), n0, size);
        ExtendsOthers(g0, State(), nb0, Blocks(size));
      }
    }

    lemma ExtendsOthers(g0: FS, g: FS, nb0: nat, nb: nat)
      requires Complete(g0, nb0) && Complete(g, nb) && Extends(g0, g, nb0)
      ensures OthersUnchanged(g0, g)
    {
      hide ToTable, Ptr;
    }
  }

  /** inode_open after everything has been written: the inode read back from its sector is the same file. */
  method Reopen(f: Inode) returns (g: Inode)
    requires f.Valid() && f.IsStored()
    modifies f.fs.cache, f.fs.cache.ents
    ensures fresh(g) && g.fs == f.fs && g.sector == f.sector && g.deny_write_cnt == 0
    ensures g.Valid() && g.IsStored() && g.Bytes() == old(f.Bytes()) && g.Fields() == f.Fields()
    ensures f.fs.cache.contents == old(f.fs.cache.contents)
  {
    hide Coherent, ToTable, ToSector, FileBytes, ZeroTail, Owned, Counts, Stored;
    ghost var state := f.State();
    f.EncodedRoundTrip();
    InodeSector(state, Blocks(f.length));
    g := new Inode.InodeOpen(f.fs, f.sector, f.inds, f.leaves, f.owner);
    assert |g.Fields()| == 128 && g.Fields() == f.Fields();
    SplitFields(g.direct, f.direct, [g.doubly_indirect, g.is_dir, g.length, g.children, g.magic],
                [f.doubly_indirect, f.is_dir, f.length, f.children, f.magic]);
    assert g.State() == state;
  }

  lemma SplitFields(a: seq<U32>, b: seq<U32>, c: seq<U32>, d: seq<U32>)
    requires a + c == b + d && |c| == |d|
    ensures a == b && c == d
  {
    assert |a| == |b|;
    assert a == (a + c)[..|a|] && c == (a + c)[|a|..];
    assert b == (b + d)[..|b|] && d == (b + d)[|b|..];
  }

  lemma InodeSector(g: FS, nb: nat)
    requires Complete(g, nb)
    ensures g.self < |g.disk| && g.self != UNALLOCATED
  {
    hide Stored;
    assert InRange(Self) && Ptr(g, Self) == g.self;
  }

  /** Only the contents of the sectors in `changed` differ. */
  ghost predicate OnlyDisk(g: FS, g': FS, changed: set<nat>) {
    && g'.free == g.free && g'.owner == g.owner && g'.tree == g.tree && g'.self == g.self && |g'.disk| == |g.disk|
    && (forall b :: 0 <= b < |g.disk| && b !in changed ==> g'.disk[b] == g.disk[b])
  }

  /** No sector of another file has been taken or changed, and no sector of the device is lost. */
  ghost predicate OthersUnchanged(g: FS, g': FS) {
    && |g'.disk| == |g.disk|
    && g.owner.Keys <= g'.owner.Keys && g'.owner.Keys + g'.free == g.owner.Keys + g.free
    && (forall b :: 0 <= b < |g.disk| && b !in g'.owner ==> g'.disk[b] == g.disk[b])
  }

  /** The bytes from `a` to `b`, if there are that many. */
  ghost function Range(s: seq<Byte>, a: nat, b: nat): seq<Byte> {
    if a <= b <= |s| then s[a..b] else []
  }

  /** A flat byte array after writing `buffer` at `offset`. */
  ghost function Written(s: seq<Byte>, offset: nat, buffer: seq<Byte>): seq<Byte> {
    var end := offset + |buffer|;
    var t := if end > |s| then s + seq(end - |s|, _ => 0) else s;
    t[..offset] + buffer + t[end..]
  }

  /** Files do not interfere: whatever a write does to file `b`, a file `a` that shares no sector with it
      stays complete and keeps its bytes. */
  lemma FilesIndependent(a: FS, nb: nat, n: nat, b: FS, b': FS)
    requires Complete(a, nb) && n <= 512 * nb && ZeroTail(a, nb, n)
    requires Owned(b) && b.disk == a.disk && b.free == a.free && a.owner.Keys !! b.owner.Keys
    requires Owned(b') && OthersUnchanged(b, b')
    ensures var a' := a.(disk := b'.disk, free := b'.free);
      Complete(a', nb) && FileBytes(a', nb, n) == FileBytes(a, nb, n) && ZeroTail(a', nb, n) && a.owner.Keys !! b'.owner.Keys
  {
    hide ToTable, Complete, FileBytes, ZeroTail, Ptr;
    var a' := a.(disk := b'.disk, free := b'.free);
    IndependentComplete(a, nb, b, b');
    forall p | 0 <= p < 512 * nb ensures ByteAt(a', nb, p) == ByteAt(a, nb, p) {
      IndependentByte(a, a', nb, p);
    }
    SameBytes(a, a', nb, n);
  }

  lemma IndependentComplete(a: FS, nb: nat, b: FS, b': FS)
    requires Complete(a, nb)
    requires Owned(b) && b.disk == a.disk && b.free == a.free && a.owner.Keys !! b.owner.Keys
    requires Owned(b') && OthersUnchanged(b, b')
    ensures var a' := a.(disk := b'.disk, free := b'.free);
      && Complete(a', nb) && a.owner.Keys !! b'.owner.Keys
      && (forall x :: x in a.owner ==> x < |a.disk| && x < |a'.disk| && a'.disk[x] == a.disk[x])
  {
    hide ToTable;
    var a' := a.(disk := b'.disk, free := b'.free);
    assert forall x :: x in a.owner ==> x !in b'.owner && a'.disk[x] == a.disk[x];
    assert forall s :: InRange(s) ==> Ptr(a', s) == Ptr(a, s);
    assert forall s :: InRange(s) && Ptr(a, s) != UNALLOCATED ==> SectorOf(a', s) == SectorOf(a, s);
  }

  lemma IndependentByte(a: FS, a': FS, nb: nat, p: nat)
    requires Complete(a, nb) && Complete(a', nb) && p < 512 * nb && a'.tree == a.tree && a'.self == a.self && a'.owner == a.owner
    requires forall x :: x in a.owner ==> x < |a.disk| && x < |a'.disk| && a'.disk[x] == a.disk[x]
    ensures ByteAt(a', nb, p) == ByteAt(a, nb, p)
  {
    hide Stored;
    assert Uses(DataSlot(p / 512), nb, Indirects(nb), nb > 123);
    assert Ptr(a, DataSlot(p / 512)) in a.owner;
  }

  lemma SameBytes(a: FS, a': FS, nb: nat, n: nat)
    requires Complete(a, nb) && Complete(a', nb) && n <= 512 * nb && ZeroTail(a, nb, n)
    requires forall p :: 0 <= p < 512 * nb ==> ByteAt(a', nb, p) == ByteAt(a, nb, p)
    ensures FileBytes(a', nb, n) == FileBytes(a, nb, n) && ZeroTail(a', nb, n)
  {
    hide Complete, ByteAt;
  }
}
