/** Sectors as arrays of 32-bit little-endian words. */
module Words {
  import opened Common
  import opened BufferCache

  type Table = w: seq<U32> | |w| == 128 witness seq(128, _ => 0)

  function ByteOf(w: U32, k: nat): Byte
    requires k < 4
  {
    (if k == 0 then w else if k == 1 then w / 0x100 else if k == 2 then w / 0x1_0000 else w / 0x100_0000) % 0x100
  }

  function WordAt(s: Sector, k: nat): U32
    requires k < 128
  {
    (s[4 * k] as int) + 0x100 * (s[4 * k + 1] as int) + 0x1_0000 * (s[4 * k + 2] as int) + 0x100_0000 * (s[4 * k + 3] as int)
  }

  function ToTable(s: Sector): Table {
    seq(128, k requires 0 <= k < 128 => WordAt(s, k))
  }

  function ToSector(w: Table): Sector {
    seq(512, i requires 0 <= i < 512 => ByteOf(w[i / 4], i % 4))
  }

  lemma WordBytes(w: U32)
    ensures w == ByteOf(w, 0) + 0x100 * ByteOf(w, 1) + 0x1_0000 * ByteOf(w, 2) + 0x100_0000 * ByteOf(w, 3)
  {
  }

  /** A table written to a sector reads back unchanged. */
  lemma TableRoundTrip(w: Table)
    ensures ToTable(ToSector(w)) == w
  {
    hide ByteOf;
    forall k | 0 <= k < 128 ensures ToTable(ToSector(w))[k] == w[k] {
      WordBytes(w[k]);
      var s := ToSector(w);
      assert s[4 * k] == ByteOf(w[k], 0) && s[4 * k + 1] == ByteOf(w[k], 1);
      assert s[4 * k + 2] == ByteOf(w[k], 2) && s[4 * k + 3] == ByteOf(w[k], 3);
    }
  }

  /** memset with 0xFF bytes makes every pointer UNALLOCATED. */
  lemma AllOnes(s: Sector)
    requires forall i :: 0 <= i < 512 ==> s[i] == 0xFF
    ensures ToTable(s) == seq(128, _ => UNALLOCATED)
  {
  }
}
