/** The write-back buffer cache, run by one thread: invisible to its users except for the traffic to the disk. */
module BufferCache {
  import opened Common

  const CACHE_SIZE := 64

  /** One block of a device. */
  type Sector = s: seq<Byte> | |s| == 512 witness seq(512, _ => 0)

  /** Marks the absence of a block: (block_sector_t) -1. */
  const UNALLOCATED := 0xFFFF_FFFF

  class CacheEnt {
    /** The entry's position in buff_cache. */
    const idx: nat
    var block: nat
    var valid: bool
    var dirty: bool
    var use: bool
    var ref_cnt: nat
    var data: Sector

    constructor (idx: nat)
      ensures this.idx == idx && !valid && !dirty && !use && ref_cnt == 0
    {
      this.idx := idx;
      block, valid, dirty, use, ref_cnt := 0, false, false, false, 0;
      data := seq(512, _ => 0);
    }

    /** Pins the entry and loads a block into it. */
    method Fill(block: nat, data: Sector)
      modifies this
      ensures this.block == block && valid && dirty == old(dirty) && use == old(use)
      ensures ref_cnt == old(ref_cnt) + 1 && this.data == data
    {
      ref_cnt := ref_cnt + 1;
      this.block, valid := block, true;
      this.data := data;
    }
  }

  /** The slot that the clock hand reaches from `hand` after `k` moves. */
  ghost function Slot(hand: nat, k: nat): (r: nat)
    ensures r < 64
  {
    (hand + k) % 64
  }

  /** Whether the hand stops at its k-th move: the entry is unpinned and its use bit is clear, as all are
      after the first lap. */
  ghost predicate Stops(use: seq<bool>, ref: seq<nat>, hand: nat, k: nat)
    requires |use| == |ref| == 64
  {
    ref[Slot(hand, k)] == 0 && (k <= 64 ==> !use[Slot(hand, k)])
  }

  /** The clock's choice: the first move at which the hand stops. */
  ghost predicate ClockChoice(use: seq<bool>, ref: seq<nat>, hand: nat, moves: nat)
    requires |use| == |ref| == 64
  {
    moves >= 1 && Stops(use, ref, hand, moves) && forall k :: 1 <= k < moves ==> !Stops(use, ref, hand, k)
  }

  lemma SlotOnto(hand: nat, i: nat) returns (k: nat)
    requires hand < 64 && i < 64
    ensures 1 <= k <= 64 && Slot(hand, k) == i
  {
    k := if i > hand then i - hand else i - hand + 64;
  }

  lemma SlotNext(hand: nat, k: nat)
    ensures Slot(hand, k + 1) == (Slot(hand, k) + 1) % 64
    ensures k >= 64 ==> Slot(hand, k + 1) == Slot(hand, k + 1 - 64)
    ensures forall l :: k + 1 < l <= 64 ==> Slot(hand, l) != Slot(hand, k + 1)
  {
    var q, r := (hand + k) / 64, (hand + k) % 64;
    assert hand + k == 64 * q + r;
  }

  /** The use bits `cur` after `moves` moves that found no victim, from the bits `use` at the start. */
  ghost predicate Swept(use: seq<bool>, ref: seq<nat>, hand: nat, moves: nat, cur: seq<bool>)
    requires |use| == |ref| == |cur| == 64
  {
    && (forall k :: 1 <= k <= moves ==> !Stops(use, ref, hand, k))
    && (forall k :: 1 <= k <= moves && k <= 64 ==> !cur[Slot(hand, k)])
    && (forall k :: moves < k <= 64 ==> cur[Slot(hand, k)] == use[Slot(hand, k)])
  }

  lemma SweptStart(use: seq<bool>, ref: seq<nat>, hand: nat)
    requires |use| == |ref| == 64
    ensures Swept(use, ref, hand, 0, use) && (hand < 64 ==> Slot(hand, 0) == hand)
  {
  }

  /** The entry `d` moves away is unpinned, so the hand stops there in the second lap at the latest. */
  lemma StopsAt(use: seq<bool>, ref: seq<nat>, hand: nat, d: nat)
    requires |use| == |ref| == 64 && 1 <= d && ref[Slot(hand, d)] == 0
    ensures Stops(use, ref, hand, 64 + d)
  {
    assert Slot(hand, 64 + d) == Slot(hand, d);
  }

  /** Passing over an entry; the search cannot pass over the unpinned entry `d` moves away twice. */
  lemma SweptStep(use: seq<bool>, ref: seq<nat>, hand: nat, moves: nat, cur: seq<bool>, d: nat)
    requires |use| == |ref| == |cur| == 64 && hand < 64 && Swept(use, ref, hand, moves, cur)
    requires 1 <= d <= 64 && ref[Slot(hand, d)] == 0 && moves < 64 + d
    ensures var i := Slot(hand, moves + 1);
      if ref[i] == 0 && !cur[i] then ClockChoice(use, ref, hand, moves + 1)
      else Swept(use, ref, hand, moves + 1, cur[i := false]) && moves + 1 < 64 + d
  {
    StopsAt(use, ref, hand, d);
    hide Slot;
    SlotNext(hand, moves);
    var i := Slot(hand, moves + 1);
    assert cur[i] == (moves + 1 <= 64 && use[i]);
    assert Stops(use, ref, hand, moves + 1) <==> ref[i] == 0 && !cur[i];
  }

  lemma {:induction false} ClockSearch(use: seq<bool>, ref: seq<nat>, hand: nat, lo: nat, hi: nat) returns (m: nat)
    requires |use| == |ref| == 64 && 1 <= lo <= hi && Stops(use, ref, hand, hi)
    requires forall k :: 1 <= k < lo ==> !Stops(use, ref, hand, k)
    ensures ClockChoice(use, ref, hand, m) && m <= hi
    decreases hi - lo
  {
    hide Stops;
    if Stops(use, ref, hand, lo) {
      m := lo;
    } else {
      m := ClockSearch(use, ref, hand, lo + 1, hi);
    }
  }

  /** The search ends exactly when some entry is unpinned, and then within two laps; with all 64 pinned it
      goes round forever. */
  lemma ClockStopsIff(use: seq<bool>, ref: seq<nat>, hand: nat)
    requires |use| == |ref| == 64 && hand < 64
    ensures (exists moves: nat :: ClockChoice(use, ref, hand, moves)) <==> (exists i :: 0 <= i < 64 && ref[i] == 0)
    ensures forall moves: nat :: ClockChoice(use, ref, hand, moves) ==> moves <= 128
    ensures (forall i :: 0 <= i < 64 ==> ref[i] > 0) ==> forall k: nat :: k >= 1 ==> !Stops(use, ref, hand, k)
  {
    if i :| 0 <= i < 64 && ref[i] == 0 {
      var d := SlotOnto(hand, i);
      StopsAt(use, ref, hand, d);
      hide Slot, Stops;
      var m := ClockSearch(use, ref, hand, 1, 64 + d);
    }
  }

  // ---------- what the entries and the disk say about the contents ----------

  /** What an entry records, apart from the use bit. */
  datatype Ent = Ent(block: nat, valid: bool, dirty: bool, ref_cnt: nat, data: Sector)

  /** `slotOf` locates the valid entries, one per block; each holds its block's contents; and the disk
      holds the contents of every block that is not dirty in the cache. */
  ghost predicate Coherent(es: seq<Ent>, disk: seq<Sector>, contents: seq<Sector>, slotOf: map<nat, nat>) {
    && |contents| == |disk|
    && (forall b :: b in slotOf ==> slotOf[b] < |es| && es[slotOf[b]].valid && es[slotOf[b]].block == b)
    && (forall i :: 0 <= i < |es| && es[i].valid ==> es[i].block in slotOf && slotOf[es[i].block] == i)
    && (forall i :: 0 <= i < |es| && !es[i].valid ==> !es[i].dirty)
    && (forall b :: b in slotOf ==> b < |disk| && es[slotOf[b]].data == contents[b])
    && (forall b :: 0 <= b < |disk| && (b !in slotOf || !es[slotOf[b]].dirty) ==> disk[b] == contents[b])
  }

  /** The view of a block: its valid entry's data, or else the disk sector. */
  lemma ContentsIsView(es: seq<Ent>, disk: seq<Sector>, contents: seq<Sector>, slotOf: map<nat, nat>, b: nat)
    requires Coherent(es, disk, contents, slotOf) && b < |disk|
    ensures forall i :: 0 <= i < |es| && es[i].valid && es[i].block == b ==> contents[b] == es[i].data
    ensures (forall i :: 0 <= i < |es| && es[i].valid ==> es[i].block != b) ==> contents[b] == disk[b]
    ensures forall i, j :: 0 <= i < |es| && 0 <= j < |es| && es[i].valid && es[j].valid && es[i].block == es[j].block ==> i == j
  {
    assert b in slotOf ==> es[slotOf[b]].valid && es[slotOf[b]].block == b;
  }

  ghost function WrittenBack(e: Ent, disk: seq<Sector>): seq<Sector>
    requires e.dirty ==> e.block < |disk|
  {
    if e.dirty then disk[e.block := e.data] else disk
  }

  ghost function Without(slotOf: map<nat, nat>, e: Ent): map<nat, nat> {
    if e.valid then slotOf - {e.block} else slotOf
  }

  /** Writing a dirty entry back and invalidating it changes no contents. */
  lemma EvictCoherent(es: seq<Ent>, disk: seq<Sector>, contents: seq<Sector>, slotOf: map<nat, nat>, i: nat)
    requires Coherent(es, disk, contents, slotOf) && i < |es|
    ensures es[i].dirty ==> es[i].valid && es[i].block < |disk|
    ensures Coherent(es[i := es[i].(valid := false, dirty := false)], WrittenBack(es[i], disk), contents, Without(slotOf, es[i]))
  {
  }

  /** Loading an uncached block into an invalid entry changes no contents. */
  lemma LoadCoherent(es: seq<Ent>, disk: seq<Sector>, contents: seq<Sector>, slotOf: map<nat, nat>, i: nat, b: nat, r: nat)
    requires Coherent(es, disk, contents, slotOf) && i < |es| && !es[i].valid && b < |disk| && b !in slotOf
    ensures Coherent(es[i := Ent(b, true, es[i].dirty, r, disk[b])], disk, contents, slotOf[b := i])
    ensures disk[b] == contents[b]
  {
  }

  /** Storing into a valid entry changes the contents of its block only. */
  lemma StoreCoherent(es: seq<Ent>, disk: seq<Sector>, contents: seq<Sector>, slotOf: map<nat, nat>, i: nat, d: Sector)
    requires Coherent(es, disk, contents, slotOf) && i < |es| && es[i].valid
    ensures es[i].block < |contents|
    ensures Coherent(es[i := es[i].(data := d, dirty := true)], disk, contents[es[i].block := d], slotOf)
  {
  }

  lemma RefCoherent(es: seq<Ent>, disk: seq<Sector>, contents: seq<Sector>, slotOf: map<nat, nat>, i: nat, r: nat)
    requires Coherent(es, disk, contents, slotOf) && i < |es|
    ensures Coherent(es[i := es[i].(ref_cnt := r)], disk, contents, slotOf)
  {
  }

  /** `data` with the bytes of `buffer` in place of those at `offset`. */
  /** A sector after the bytes of `buffer` were copied in at `offset`. */
  function Patched(data: Sector, offset: nat, buffer: seq<Byte>): (r: Sector)
    requires offset + |buffer| <= 512
    ensures forall i :: 0 <= i < 512 ==> r[i] == if offset <= i < offset + |buffer| then buffer[i - offset] else data[i]
  {
    data[..offset] + buffer + data[offset + |buffer|..]
  }

  class Cache {
    const ents: seq<CacheEnt>
    var clk_hand: nat
    var disk: seq<Sector>

    /** What users of the cache see: one sector per block of the device. */
    ghost var contents: seq<Sector>
    /** The slot of each cached block. */
    ghost var slotOf: map<nat, nat>

    ghost predicate Shape()
      reads this
    {
      |ents| == 64 && clk_hand < 64 && (forall i :: 0 <= i < 64 ==> ents[i].idx == i)
    }

    ghost function Entries(): (es: seq<Ent>)
      reads ents
      ensures |es| == |ents|
    {
      seq(|ents|, i requires 0 <= i < |ents| reads ents =>
        Ent(ents[i].block, ents[i].valid, ents[i].dirty, ents[i].ref_cnt, ents[i].data))
    }

    ghost function Uses(): (r: seq<bool>)
      reads ents
      ensures |r| == |ents|
    {
      seq(|ents|, i requires 0 <= i < |ents| reads ents => ents[i].use)
    }

    ghost function Refs(): (r: seq<nat>)
      reads ents
      ensures |r| == |ents|
    {
      seq(|ents|, i requires 0 <= i < |ents| reads ents => ents[i].ref_cnt)
    }

    ghost predicate Valid()
      reads this, ents
    {
      Shape() && |contents| == |disk| && Coherent(Entries(), disk, contents, slotOf)
    }

    /** Some entry may be evicted. */
    ghost predicate HasUnpinned()
      reads this, ents
    {
      exists i :: 0 <= i < |Refs()| && Refs()[i] == 0
    }

    constructor (disk: seq<Sector>)
      ensures Valid() && HasUnpinned() && fresh(this) && fresh(ents) && contents == disk == this.disk
    {
      var es: seq<CacheEnt> := [];
      for i := 0 to 64
        invariant |es| == i && fresh(es)
        invariant forall k :: 0 <= k < i ==> !es[k].valid && !es[k].dirty && es[k].ref_cnt == 0
        invariant forall k :: 0 <= k < i ==> es[k].idx == k
      {
        var e := new CacheEnt(i);
        es := es + [e];
      }
      ents, clk_hand, this.disk := es, 0, disk;
      contents, slotOf := disk, map[];
      new;
      assert Refs()[0] == 0;
    }

    /** The search loop of cache_evict, until it finds its victim. */
    method AdvanceClock() returns (e: CacheEnt, ghost moves: nat)
      requires Shape() && HasUnpinned()
      modifies this`clk_hand, ents`use
      ensures Shape() && clk_hand == Slot(old(clk_hand), moves) && e == ents[clk_hand]
      ensures ClockChoice(old(Uses()), old(Refs()), old(clk_hand), moves)
      ensures moves <= 128 && e.ref_cnt == 0 && !e.use && Entries() == old(Entries()) && Refs() == old(Refs())
    {
      hide Slot, Swept, ClockChoice;
      moves := 0;
      ghost var hand, use, ref := clk_hand, Uses(), Refs();
      ghost var home :| 0 <= home < 64 && ref[home] == 0;
      ghost var d := SlotOnto(hand, home);
      SweptStart(use, ref, hand);
      while true
        invariant moves < 64 + d && clk_hand == Slot(hand, moves) && Refs() == ref
        invariant Swept(use, ref, hand, moves, Uses())
        decreases 128 - moves
      {
        ghost var cur := Uses();
        SlotNext(hand, moves);
        SweptStep(use, ref, hand, moves, cur, d);
        clk_hand := (clk_hand + 1) % CACHE_SIZE;
        moves := moves + 1;
        e := ents[clk_hand];
        assert ref[clk_hand] == e.ref_cnt && cur[clk_hand] == e.use;
        if e.ref_cnt == 0 && !e.use {
          break;
        }
        e.use := false;
        assert Uses() == cur[clk_hand := false];
      }
      assert Entries() == old(Entries());
    }

    /** Frees an entry by the clock algorithm, writing a dirty victim back to its own block first. */
    method CacheEvict() returns (e: CacheEnt, ghost moves: nat)
      requires Valid() && HasUnpinned()
      modifies this, ents
      ensures Valid() && contents == old(contents)
      ensures ClockChoice(old(Uses()), old(Refs()), old(clk_hand), moves)
      ensures moves <= 128 && clk_hand == Slot(old(clk_hand), moves) && e == ents[clk_hand] && e.idx == clk_hand
      ensures !e.valid && e.ref_cnt == 0 && !e.use && Refs() == old(Refs())
      ensures var was := old(Entries()); var v := was[clk_hand];
        && (v.dirty ==> v.block < |old(disk)|)
        && Entries() == was[clk_hand := v.(valid := false, dirty := false)]
        && disk == WrittenBack(v, old(disk)) && slotOf == Without(old(slotOf), v)
    {
      hide Slot, ClockChoice, Coherent;
      e, moves := AdvanceClock();
      ghost var was := Entries();
      EvictCoherent(was, disk, contents, slotOf, clk_hand);
      assert was[clk_hand] == Ent(e.block, e.valid, e.dirty, e.ref_cnt, e.data);
      slotOf := Without(slotOf, was[clk_hand]);
      if e.dirty {
        disk := disk[e.block := e.data];
        e.dirty := false;
      }
      e.valid := false;
      assert Entries() == was[clk_hand := was[clk_hand].(valid := false, dirty := false)];
    }

    /** The search loop of cache_find_ent: the entry of `block`, or else some invalid entry. */
    method Lookup(block: nat) returns (hit: CacheEnt?, free_ent: CacheEnt?)
      requires Shape()
      ensures hit != null ==> hit in ents && hit.idx < 64 && ents[hit.idx] == hit && hit.valid && hit.block == block
      ensures hit == null ==> forall j :: 0 <= j < 64 ==> !ents[j].valid || ents[j].block != block
      ensures hit == null && free_ent == null ==> forall j :: 0 <= j < 64 ==> ents[j].valid
      ensures free_ent != null ==> free_ent in ents && free_ent.idx < 64 && ents[free_ent.idx] == free_ent && !free_ent.valid
    {
      free_ent := null;
      for k := 0 to CACHE_SIZE
        invariant forall j :: 0 <= j < k ==> !ents[j].valid || ents[j].block != block
        invariant free_ent == null ==> forall j :: 0 <= j < k ==> ents[j].valid
        invariant free_ent != null ==> free_ent in ents && free_ent.idx < 64 && ents[free_ent.idx] == free_ent && !free_ent.valid
      {
        var e := ents[k];
        if !e.valid {
          free_ent := e;
        } else if e.block == block {
          return e, free_ent;
        }
      }
      hit := null;
    }

    /** Loads an uncached block into an invalid entry and pins that. */
    method Load(e: CacheEnt, block: nat)
      requires Valid() && e.idx < 64 && ents[e.idx] == e && !e.valid && block < |disk| && block !in slotOf
      modifies e, `slotOf
      ensures Valid() && e.valid && e.block == block && e.data == contents[block]
      ensures Refs() == old(Refs())[e.idx := old(Refs())[e.idx] + 1]
    {
      hide Coherent;
      ghost var was, i := Entries(), e.idx;
      LoadCoherent(was, disk, contents, slotOf, i, block, e.ref_cnt + 1);
      slotOf := slotOf[block := i];
      e.Fill(block, disk[block]);
      assert Entries() == was[i := Ent(block, true, was[i].dirty, was[i].ref_cnt + 1, disk[block])];
      assert Refs() == old(Refs())[i := old(Refs())[i] + 1];
    }

    /** Changes the reference count of one entry. */
    method SetRef(e: CacheEnt, r: nat)
      requires Valid() && e.idx < 64 && ents[e.idx] == e
      modifies e`ref_cnt
      ensures Valid() && e.ref_cnt == r && Refs() == old(Refs())[e.idx := r] && Uses() == old(Uses())
    {
      hide Coherent;
      ghost var was := Entries();
      RefCoherent(was, disk, contents, slotOf, e.idx, r);
      e.ref_cnt := r;
      assert Entries() == was[e.idx := was[e.idx].(ref_cnt := r)];
      assert Refs() == old(Refs())[e.idx := r] && Uses() == old(Uses());
    }

    /** The end of an access: the reference counts are again those from before it. */
    method Unpin(e: CacheEnt, ghost refs: seq<nat>)
      requires Valid() && e.idx < 64 && ents[e.idx] == e && e.valid && e.use
      requires |refs| == 64 && Refs() == refs[e.idx := refs[e.idx] + 1]
      requires exists i :: 0 <= i < 64 && refs[i] == 0
      modifies e`ref_cnt
      ensures Valid() && HasUnpinned() && Refs() == refs && Recent(e.block)
    {
      hide Valid, Coherent;
      assert e.ref_cnt == Refs()[e.idx];
      SetRef(e, e.ref_cnt - 1);
      assert Refs() == refs;
      assert ents[e.idx].use;
    }

    lemma UnpinnedCanFind(block: nat)
      requires HasUnpinned()
      ensures CanFind(block)
    {
      var i :| 0 <= i < |Refs()| && Refs()[i] == 0;
      assert Entries()[i].ref_cnt == 0;
    }

    /** The block is cached, or some entry is free or may be evicted. */
    ghost predicate CanFind(block: nat)
      reads this, ents
    {
      var es := Entries();
      exists i :: 0 <= i < |es| && (es[i].ref_cnt == 0 || !es[i].valid || es[i].block == block)
    }

    /** The entry that a miss takes over: a free one, or else the clock's victim. */
    method TakeOver(block: nat, free_ent: CacheEnt?) returns (e: CacheEnt)
      requires Valid() && block !in slotOf
      requires if free_ent != null then free_ent.idx < 64 && ents[free_ent.idx] == free_ent && !free_ent.valid else HasUnpinned()
      modifies this, ents
      ensures Valid() && contents == old(contents) && |disk| == old(|disk|) && Refs() == old(Refs())
      ensures e.idx < 64 && ents[e.idx] == e && !e.valid && block !in slotOf
    {
      hide Coherent, Slot, ClockChoice;
      if free_ent != null {
        e := free_ent;
      } else {
        ghost var moves;
        e, moves := CacheEvict();
      }
    }

    /** Finds or loads the entry of `block` and pins it. */
    method CacheFindEnt(block: nat) returns (e: CacheEnt)
      requires Valid() && CanFind(block) && block < |disk|
      modifies this, ents
      ensures Valid() && contents == old(contents) && |disk| == old(|disk|)
      ensures e in ents && e.idx < 64 && e == ents[e.idx] && e.valid && e.block == block && e.data == contents[block]
      ensures Refs() == old(Refs())[e.idx := old(Refs())[e.idx] + 1] && e.ref_cnt == Refs()[e.idx]
      // a hit moves nothing
      ensures block in old(slotOf) ==>
        slotOf == old(slotOf) && disk == old(disk) && clk_hand == old(clk_hand) && Uses() == old(Uses())
    {
      hide Coherent;
      var hit, free_ent := Lookup(block);
      if hit != null {
        Hit(Entries(), disk, contents, slotOf, hit.idx);
        e := hit;
        SetRef(e, e.ref_cnt + 1);
      } else {
        Miss(Entries(), disk, contents, slotOf, block);
        if free_ent == null {
          SomeUnpinned(block);
        }
        e := TakeOver(block, free_ent);
        Load(e, block);
      }
    }

    lemma SomeUnpinned(block: nat)
      requires CanFind(block) && forall j :: 0 <= j < |ents| ==> ents[j].valid && ents[j].block != block
      ensures HasUnpinned()
    {
      var es := Entries();
      var i :| 0 <= i < |es| && (es[i].ref_cnt == 0 || !es[i].valid || es[i].block == block);
      assert Refs()[i] == 0;
    }

    /** The block is cached with its use bit set, so the clock's hand passes over it once. */
    ghost predicate Recent(block: nat)
      reads this, ents
    {
      exists i :: 0 <= i < |ents| && ents[i].valid && ents[i].block == block && ents[i].use
    }

    /** memcpy of `len` bytes at `offset` out of a block; an absent block reads as zeros. */
    method CacheReadLen(block: nat, offset: nat, len: nat) returns (buffer: seq<Byte>)
      requires Valid() && HasUnpinned()
      requires block != UNALLOCATED ==> block < |disk| && offset + len <= 512
      modifies this, ents
      ensures Valid() && HasUnpinned() && contents == old(contents) && |disk| == old(|disk|) && Refs() == old(Refs())
      ensures buffer == if block == UNALLOCATED then seq(len, _ => 0) else contents[block][offset..offset + len]
      ensures block != UNALLOCATED ==> Recent(block)
    {
      hide Coherent;
      if block == UNALLOCATED {
        return seq(len, _ => 0);
      }
      ghost var refs := Refs();
      UnpinnedCanFind(block);
      var e := CacheFindEnt(block);
      buffer := e.data[offset..offset + len];
      MarkUsed(e);
      Unpin(e, refs);
    }

    method CacheRead(block: nat) returns (buffer: seq<Byte>)
      requires Valid() && HasUnpinned() && (block != UNALLOCATED ==> block < |disk|)
      modifies this, ents
      ensures Valid() && HasUnpinned() && contents == old(contents) && |disk| == old(|disk|) && Refs() == old(Refs())
      ensures buffer == if block == UNALLOCATED then seq(512, _ => 0) else contents[block]
      ensures block != UNALLOCATED ==> Recent(block)
    {
      buffer := CacheReadLen(block, 0, 512);
    }

    method CacheWrite(block: nat, buffer: Sector)
      requires Valid() && HasUnpinned() && block < |disk|
      modifies this, ents
      ensures Valid() && HasUnpinned() && |disk| == old(|disk|) && Refs() == old(Refs())
      ensures contents == old(contents)[block := buffer] && Recent(block)
    {
      CacheWriteLen(block, buffer, 0);
      assert Patched(old(contents)[block], 0, buffer) == buffer;
    }

    method MarkUsed(e: CacheEnt)
      requires Valid() && e.idx < 64 && ents[e.idx] == e
      modifies e`use
      ensures Valid() && e.use && Refs() == old(Refs()) && Uses() == old(Uses())[e.idx := true]
    {
      hide Coherent;
      ghost var was := Entries();
      e.use := true;
      assert Entries() == was && Refs() == old(Refs()) && Uses() == old(Uses())[e.idx := true];
    }

    /** memcpy into a block, which becomes dirty. */
    method CacheWriteLen(block: nat, buffer: seq<Byte>, offset: nat)
      requires Valid() && HasUnpinned() && block < |disk| && offset + |buffer| <= 512
      modifies this, ents
      ensures Valid() && HasUnpinned() && |disk| == old(|disk|) && Refs() == old(Refs())
      ensures contents == old(contents)[block := Patched(old(contents[block]), offset, buffer)] && Recent(block)
    {
      hide Coherent;
      ghost var refs := Refs();
      UnpinnedCanFind(block);
      var e := CacheFindEnt(block);
      Store(e, Patched(e.data, offset, buffer));
      Unpin(e, refs);
    }

    method Store(e: CacheEnt, data: Sector)
      requires Valid() && e.idx < 64 && ents[e.idx] == e && e.valid && e.block < |contents|
      modifies e, `contents
      ensures Valid() && e.block == old(e.block) && e.valid && e.use && e.ref_cnt == old(e.ref_cnt)
      ensures contents == old(contents)[e.block := data] && Refs() == old(Refs()) && Uses() == old(Uses())[e.idx := true]
    {
      hide Coherent;
      ghost var was := Entries();
      StoreCoherent(was, disk, contents, slotOf, e.idx, data);
      e.data := data;
      e.dirty := true;
      e.use := true;
      contents := contents[e.block := data];
      assert Entries() == was[e.idx := was[e.idx].(data := data, dirty := true)];
      assert Refs() == old(Refs()) && Uses() == old(Uses())[e.idx := true];
    }

    /** Writes every dirty block to the disk, which then holds the contents. */
    method CacheFlush()
      requires Valid()
      modifies `disk
      ensures Valid() && disk == contents
    {
      hide Coherent;
      ghost var es := Entries();
      for i := 0 to CACHE_SIZE
        invariant Entries() == es && Coherent(es, disk, contents, slotOf) && |disk| == |contents|
        invariant forall k :: 0 <= k < i && es[k].valid ==> es[k].block < |disk| && disk[es[k].block] == contents[es[k].block]
      {
        var e := ents[i];
        assert es[i] == Ent(e.block, e.valid, e.dirty, e.ref_cnt, e.data);
        Flush(es, disk, contents, slotOf, i);
        if e.valid && e.dirty {
          disk := disk[e.block := e.data];
        }
      }
      Flushed(es, disk, contents, slotOf);
    }

    lemma Flush(es: seq<Ent>, disk: seq<Sector>, contents: seq<Sector>, slotOf: map<nat, nat>, k: nat)
      requires Coherent(es, disk, contents, slotOf) && k < |es|
      ensures |disk| == |contents|
      ensures es[k].valid ==> es[k].block < |disk| && es[k].data == contents[es[k].block]
      ensures es[k].valid ==> Coherent(es, disk[es[k].block := es[k].data], contents, slotOf)
      ensures es[k].valid && !es[k].dirty ==> disk[es[k].block] == contents[es[k].block]
    {
    }

    lemma Flushed(es: seq<Ent>, disk: seq<Sector>, contents: seq<Sector>, slotOf: map<nat, nat>)
      requires Coherent(es, disk, contents, slotOf)
      requires forall k :: 0 <= k < |es| && es[k].valid ==> es[k].block < |disk| && disk[es[k].block] == contents[es[k].block]
      ensures disk == contents
    {
      forall b | 0 <= b < |disk| ensures disk[b] == contents[b] {
        assert b in slotOf ==> es[slotOf[b]].valid && es[slotOf[b]].block == b;
      }
    }

    lemma Hit(es: seq<Ent>, disk: seq<Sector>, contents: seq<Sector>, slotOf: map<nat, nat>, k: nat)
      requires Coherent(es, disk, contents, slotOf) && k < |es| && es[k].valid
      ensures es[k].block < |contents| && es[k].data == contents[es[k].block]
    {
    }

    lemma Miss(es: seq<Ent>, disk: seq<Sector>, contents: seq<Sector>, slotOf: map<nat, nat>, block: nat)
      requires Coherent(es, disk, contents, slotOf)
      requires forall j :: 0 <= j < |es| ==> !es[j].valid || es[j].block != block
      ensures block !in slotOf
    {
    }
  }
}
