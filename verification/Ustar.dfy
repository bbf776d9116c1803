/** ustar archive headers: the printer, the parser, and why they undo each other. */
module Ustar {
  import opened Common

  /** A C string without its terminator. */
  predicate IsCString(s: seq<Byte>) {
    forall i :: 0 <= i < |s| ==> s[i] != 0
  }

  const SLASH: Byte := 47
  const DOT: Byte := 46
  const SPACE: Byte := 32
  const DIGIT0: Byte := 48

  datatype UstarType = Regular | Directory

  /** The type flags '0' and '5'. */
  function Flag(t: UstarType): Byte { if t.Regular? then 48 else 53 }

  function Zeros(n: nat): (s: seq<Byte>)
    ensures |s| == n
  { seq(n, _ => 0) }

  // ---------- octal fields ----------

  predicate IsOctal(c: Byte) { 48 <= c <= 55 }

  /** `v` in octal, padded with zeros to `width` digits. */
  function Octal(v: nat, width: nat): (s: seq<Byte>)
    ensures |s| == width && forall i :: 0 <= i < width ==> IsOctal(s[i])
    decreases width
  {
    if width == 0 then [] else Octal(v / 8, width - 1) + [DIGIT0 + v % 8]
  }

  function OctalValue(s: seq<Byte>): nat
    requires forall i :: 0 <= i < |s| ==> IsOctal(s[i])
  {
    if s == [] then 0 else
      assert IsOctal(s[|s| - 1]);
      OctalValue(s[..|s| - 1]) * 8 + (s[|s| - 1] - DIGIT0)
  }

  function Pow8(n: nat): nat { if n == 0 then 1 else 8 * Pow8(n - 1) }

  lemma {:induction false} OctalRoundTrip(v: nat, width: nat)
    requires v < Pow8(width)
    ensures OctalValue(Octal(v, width)) == v
    decreases width
  {
    if width > 0 {
      OctalRoundTrip(v / 8, width - 1);
      assert Octal(v, width)[..width - 1] == Octal(v / 8, width - 1);
    }
  }

  function DigitCount(s: seq<Byte>): (n: nat)
    ensures n <= |s| && (n < |s| ==> !IsOctal(s[n])) && forall i :: 0 <= i < n ==> IsOctal(s[i])
  {
    if s == [] || !IsOctal(s[0]) then 0 else 1 + DigitCount(s[1..])
  }

  /** The value of a field: octal digits, at least one, ended by a space or a null, below 2^32. */
  function OctalField(s: seq<Byte>): Option<nat> {
    var n := DigitCount(s);
    if 0 < n < |s| && (s[n] == SPACE || s[n] == 0) && OctalValue(s[..n]) < 0x1_0000_0000
    then Some(OctalValue(s[..n])) else None
  }

  lemma {:induction false} OctalMonotone(s: seq<Byte>, k: nat)
    requires k <= |s| && forall i :: 0 <= i < |s| ==> IsOctal(s[i])
    ensures OctalValue(s[..k]) <= OctalValue(s)
    decreases |s|
  {
    if k == |s| {
      assert s[..k] == s;
    } else {
      OctalMonotone(s[..|s| - 1], k);
      assert s[..|s| - 1][..k] == s[..k];
    }
  }

  /** DigitCount is the only place where the digits can stop. */
  lemma {:induction false} DigitCountIs(s: seq<Byte>, n: nat)
    requires n <= |s| && (forall i :: 0 <= i < n ==> IsOctal(s[i])) && (n < |s| ==> !IsOctal(s[n]))
    ensures DigitCount(s) == n
    decreases n
  {
    if n > 0 {
      assert IsOctal(s[0]) && forall i :: 0 <= i < n - 1 ==> s[1..][i] == s[i + 1];
      DigitCountIs(s[1..], n - 1);
    }
  }

  method ParseOctalField(s: seq<Byte>) returns (value: Option<nat>)
    ensures value == OctalField(s)
  {
    var v: nat := 0;
    var ofs := 0;
    while ofs < |s|
      invariant ofs <= |s| && (forall i :: 0 <= i < ofs ==> IsOctal(s[i]))
      invariant v == OctalValue(s[..ofs]) && v < 0x1_0000_0000
    {
      var c := s[ofs];
      if IsOctal(c) {
        assert s[..ofs + 1][..ofs] == s[..ofs];
        if v > 0xFFFF_FFFF / 8 {
          Overflow(s, ofs + 1);
          return None;
        }
        v := (c - DIGIT0) + v * 8;
      } else {
        DigitCountIs(s, ofs);
        if c == SPACE || c == 0 {
          return if ofs > 0 then Some(v) else None;
        } else {
          return None;
        }
      }
      ofs := ofs + 1;
    }
    DigitCountIs(s, |s|);
    return None;
  }

  lemma Overflow(s: seq<Byte>, k: nat)
    requires k <= |s| && (forall i :: 0 <= i < k ==> IsOctal(s[i])) && OctalValue(s[..k]) >= 0x1_0000_0000
    ensures OctalField(s) == None
  {
    var n := DigitCount(s);
    assert k <= n;
    OctalMonotone(s[..n], k);
    assert s[..n][..k] == s[..k];
  }

  /** The value of octal digits, the most significant first. */
  lemma OctalHorner(s: seq<Byte>, c: Byte)
    requires (forall i :: 0 <= i < |s| ==> IsOctal(s[i])) && 48 <= c <= 55
    ensures OctalValue([]) == 0 && OctalValue(s + [c]) == 8 * OctalValue(s) + (c - 48)
  {
    assert (s + [c])[..|s|] == s;
  }

  /** A field is read exactly when digits, at least one and at most all but one of its bytes, are followed by a
      space or a null, and their value is below 2^32. */
  lemma OctalFieldIff(s: seq<Byte>, v: nat)
    ensures OctalField(s) == Some(v) <==>
      exists n :: 0 < n < |s| && IsFieldOf(s, n, v)
  {
    var m := DigitCount(s);
    if n :| 0 < n < |s| && IsFieldOf(s, n, v) {
      DigitCountIs(s, n);
    }
    if OctalField(s) == Some(v) {
      assert IsFieldOf(s, m, v);
    }
  }

  predicate IsFieldOf(s: seq<Byte>, n: nat, v: nat)
    requires n < |s|
  {
    && (forall i :: 0 <= i < n ==> 48 <= s[i] <= 55) && (s[n] == 32 || s[n] == 0)
    && v < 0x1_0000_0000 && v == OctalValue(s[..n])
  }

  /** The digits that are printed. */
  lemma {:induction false} OctalDigit(v: nat, width: nat, i: nat)
    requires i < width
    ensures Pow8(width - 1 - i) > 0 && Octal(v, width)[i] == 48 + v / Pow8(width - 1 - i) % 8
    decreases width
  {
    PowPositive(width - 1 - i);
    if i < width - 1 {
      OctalDigit(v / 8, width - 1, i);
      var p := Pow8(width - 2 - i);
      assert Pow8(width - 1 - i) == 8 * p;
      DivTwice(v, p);
    }
  }

  lemma {:induction false} PowPositive(n: nat)
    ensures Pow8(n) > 0
  {
    if n > 0 {
      PowPositive(n - 1);
    }
  }

  lemma DivTwice(v: nat, p: nat)
    requires p > 0
    ensures v / 8 / p == v / (8 * p)
  {
    var a, q := v / 8, v / 8 / p;
    var r, t := v % 8, a % p;
    assert v == 8 * a + r && a == p * q + t;
    assert v == (8 * p) * q + (8 * t + r) by {
      assert 8 * (p * q) == (8 * p) * q;
    }
    assert 0 <= 8 * t + r < 8 * p;
    QuotientIs(v, 8 * p, q, 8 * t + r);
  }

  lemma QuotientIs(v: nat, m: nat, q: nat, r: nat)
    requires v == m * q + r && r < m
    ensures v / m == q
  {
    var d := v / m;
    assert v == m * d + v % m;
    if d < q {
      MulLe(d + 1, q, m);
    } else if d > q {
      MulLe(q + 1, d, m);
    }
  }

  /** What snprintf wrote, the parser reads. */
  lemma OctalFieldRoundTrip(v: nat, width: nat)
    requires v < Pow8(width) && v < 0x1_0000_0000 && width > 0
    ensures OctalField(Octal(v, width) + [0]) == Some(v)
  {
    var s := Octal(v, width) + [0];
    DigitCountIs(s, width);
    assert s[..width] == Octal(v, width);
    OctalRoundTrip(v, width);
  }

  // ---------- file names ----------

  /** "/", "./" or "../" at the front. */
  predicate Antisocial(s: seq<Byte>) {
    || (|s| >= 1 && s[0] == SLASH)
    || (|s| >= 2 && s[0] == DOT && s[1] == SLASH)
    || (|s| >= 3 && s[0] == DOT && s[1] == DOT && s[2] == SLASH)
  }

  function FirstSlash(s: seq<Byte>): (i: nat)
    requires SLASH in s
    ensures i < |s| && s[i] == SLASH && forall k :: 0 <= k < i ==> s[k] != SLASH
  {
    if s[0] == SLASH then 0 else 1 + FirstSlash(s[1..])
  }

  function Strip(s: seq<Byte>): seq<Byte>
    decreases |s|
  {
    if Antisocial(s) then
      assert SLASH in s by { assert s[0] == SLASH || s[1] == SLASH || s[2] == SLASH; }
      Strip(s[FirstSlash(s) + 1..])
    else if s == [] || s == [DOT, DOT] then [DOT]
    else s
  }

  /** A name that extraction keeps inside the destination directory's own prefix. */
  predicate Safe(s: seq<Byte>) {
    s != [] && !Antisocial(s) && s != [DOT, DOT]
  }

  /** Stripping gives a safe name, and changes exactly the unsafe ones. */
  lemma {:induction false} StripSafe(s: seq<Byte>)
    ensures Safe(Strip(s))
    ensures Strip(s) == s <==> Safe(s)
    ensures |Strip(s)| <= |s| || Strip(s) == [DOT]
    decreases |s|
  {
    if Antisocial(s) {
      assert SLASH in s by { assert s[0] == SLASH || s[1] == SLASH || s[2] == SLASH; }
      StripSafe(s[FirstSlash(s) + 1..]);
    }
  }

  lemma StripIdempotent(s: seq<Byte>)
    ensures Strip(Strip(s)) == Strip(s)
  {
    StripSafe(s);
    StripSafe(Strip(s));
  }

  lemma PrefixIsDotsAndSlash(s: seq<Byte>)
    requires Antisocial(s)
    ensures SLASH in s && forall i :: 0 <= i <= FirstSlash(s) ==> s[i] == DOT || s[i] == SLASH
  {
    assert s[0] == SLASH || s[1] == SLASH || s[2] == SLASH;
  }

  ghost predicate OnlyDotsAndSlashes(s: seq<Byte>) {
    forall i :: 0 <= i < |s| ==> s[i] == DOT || s[i] == SLASH
  }

  lemma DotsConcat(a: seq<Byte>, b: seq<Byte>)
    requires OnlyDotsAndSlashes(a) && OnlyDotsAndSlashes(b)
    ensures OnlyDotsAndSlashes(a + b)
  {
  }

  /** What is kept is "." or a suffix that follows only dots and slashes. */
  lemma {:induction false} StripKeepsSuffix(s: seq<Byte>) returns (k: nat)
    ensures k <= |s| && OnlyDotsAndSlashes(s[..k]) && (Strip(s) == s[k..] || Strip(s) == [DOT])
    ensures Strip(s) == [DOT] ==> s[k..] == [] || s[k..] == [DOT] || s[k..] == [DOT, DOT]
    decreases |s|
  {
    if Antisocial(s) {
      PrefixIsDotsAndSlash(s);
      var f := FirstSlash(s) + 1;
      assert Strip(s) == Strip(s[f..]) && OnlyDotsAndSlashes(s[..f]);
      hide Strip, OnlyDotsAndSlashes, FirstSlash, Antisocial;
      var m := StripKeepsSuffix(s[f..]);
      k := f + m;
      SliceOfSlice(s, f, m);
      DotsConcat(s[..f], s[f..][..m]);
    } else {
      k := 0;
      assert s[0..] == s && s[..0] == [];
    }
  }

  /** Safe names, byte by byte: not empty, not "..", and not starting with "/", "./" or "../". */
  lemma SafeIff(s: seq<Byte>)
    ensures Safe(s) <==>
      && s != [] && s != [46, 46] && s[0] != 47
      && !(|s| >= 2 && s[0] == 46 && s[1] == 47)
      && !(|s| >= 3 && s[0] == 46 && s[1] == 46 && s[2] == 47)
  {
  }

  /** No suffix that starts within an antisocial prefix is safe. */
  lemma PrefixUnsafe(s: seq<Byte>, j: nat)
    requires Antisocial(s) && SLASH in s && j <= FirstSlash(s)
    ensures !Safe(s[j..])
  {
    PrefixIsDotsAndSlash(s);
    var f := FirstSlash(s);
    assert f <= 2;
    assert s[j..][0] == s[j];
    if j < f {
      assert s[j..][1] == s[j + 1];
    }
  }

  /** The result is the longest suffix that is safe, or "." if no suffix is. */
  lemma {:induction false} StripIsLongestSafe(s: seq<Byte>)
    ensures || (Strip(s) == [46] && forall j :: 0 <= j <= |s| ==> !Safe(s[j..]))
            || (exists k :: 0 <= k <= |s| && Strip(s) == s[k..] && Safe(s[k..]) && forall j :: 0 <= j < k ==> !Safe(s[j..]))
    decreases |s|
  {
    if Antisocial(s) {
      PrefixIsDotsAndSlash(s);
      var f := FirstSlash(s) + 1;
      var r := s[f..];
      assert Strip(s) == Strip(r);
      StripIsLongestSafe(r);
      forall j | 0 <= j < f ensures !Safe(s[j..]) {
        PrefixUnsafe(s, j);
      }
      hide Strip, Safe, Antisocial, FirstSlash;
      forall j | 0 <= j <= |r| ensures r[j..] == s[f + j..] {
      }
      assert forall j :: f <= j <= |s| ==> s[j..] == r[j - f..];
      if k :| 0 <= k <= |r| && Strip(r) == r[k..] && Safe(r[k..]) && forall j :: 0 <= j < k ==> !Safe(r[j..]) {
        assert Strip(s) == s[f + k..];
      }
    } else {
      assert s[0..] == s;
      if s == [] || s == [DOT, DOT] {
        NoSafeSuffixOrDot(s);
      }
    }
  }

  lemma NoSafeSuffixOrDot(s: seq<Byte>)
    requires s == [] || s == [DOT, DOT]
    ensures s == [] ==> !Safe(s[0..])
    ensures s == [DOT, DOT] ==> !Safe(s[0..]) && Safe(s[1..]) && s[1..] == [DOT]
  {
    if s == [DOT, DOT] {
      assert s[0..] == s && s[1..] == [DOT];
    }
  }

  method StripAntisocialPrefixes(fileName0: seq<Byte>) returns (r: seq<Byte>)
    ensures r == Strip(fileName0)
  {
    var fileName := fileName0;
    while Antisocial(fileName)
      invariant Strip(fileName) == Strip(fileName0)
      decreases |fileName|
    {
      assert SLASH in fileName by { assert fileName[0] == SLASH || fileName[1] == SLASH || fileName[2] == SLASH; }
      fileName := fileName[FirstSlash(fileName) + 1..];
    }
    r := if fileName == [] || fileName == [DOT, DOT] then [DOT] else fileName;
  }

  // ---------- the checksum ----------

  function Sum(s: seq<Byte>): nat {
    if s == [] then 0 else Sum(s[..|s| - 1]) + s[|s| - 1]
  }

  /** The header with its checksum field filled with spaces. */
  function Blank(h: seq<Byte>): (b: seq<Byte>)
    requires |h| == 512
    ensures |b| == 512
  {
    h[..148] + [SPACE, SPACE, SPACE, SPACE, SPACE, SPACE, SPACE, SPACE] + h[156..]
  }

  function Chksum(h: seq<Byte>): nat
    requires |h| == 512
  {
    Sum(Blank(h))
  }

  method CalculateChksum(header: array<Byte>) returns (chksum: nat)
    requires header.Length == 512
    ensures chksum == Chksum(header[..])
  {
    chksum := 0;
    ghost var b := Blank(header[..]);
    for i := 0 to 512
      invariant chksum == Sum(b[..i])
    {
      var inChksumField := i >= 148 && i < 156;
      assert b[..i + 1][..i] == b[..i];
      chksum := chksum + if inChksumField then SPACE else header[i];
    }
    assert b[..512] == b;
  }

  lemma {:induction false} SumBound(s: seq<Byte>)
    ensures Sum(s) <= 255 * |s|
    decreases |s|
  {
    if s != [] {
      SumBound(s[..|s| - 1]);
    }
  }

  lemma {:induction false} SumAppend(s: seq<Byte>, t: seq<Byte>)
    ensures Sum(s + t) == Sum(s) + Sum(t)
    decreases |t|
  {
    if t == [] {
      assert s + t == s;
    } else {
      SumAppend(s, t[..|t| - 1]);
      assert (s + t)[..|s + t| - 1] == s + t[..|t| - 1];
    }
  }

  lemma SumUpdate(s: seq<Byte>, i: nat, b: Byte)
    requires i < |s|
    ensures Sum(s[i := b]) == Sum(s) - s[i] + b
  {
    assert s == s[..i] + ([s[i]] + s[i + 1..]) && s[i := b] == s[..i] + ([b] + s[i + 1..]);
    SumAppend(s[..i], [s[i]] + s[i + 1..]);
    SumAppend([s[i]], s[i + 1..]);
    SumAppend(s[..i], [b] + s[i + 1..]);
    SumAppend([b], s[i + 1..]);
    assert Sum([b]) == b && Sum([s[i]]) == s[i] by { assert [b][..0] == [] && [s[i]][..0] == []; }
  }

  // ---------- the header ----------

  /** "ustar" */
  function Magic(): (s: seq<Byte>)
    ensures |s| == 6
  { [117, 115, 116, 97, 114, 0] }

  /** "root" */
  function Root(): (s: seq<Byte>)
    ensures |s| == 32
  { [114, 111, 111, 116] + Zeros(28) }

  function Mode(t: UstarType): nat { if t.Regular? then 420 else 493 } // 0644, 0755

  /** printf's %o prints the 32-bit pattern of an int. */
  function Unsigned(x: Int32): nat { if x < 0 then x + 0x1_0000_0000 else x }

  /** Every byte of the header of a file called `name`, field by field. */
  predicate IsHeader(h: seq<Byte>, name: seq<Byte>, t: UstarType, size: Int32) {
    && |h| == 512 && |name| <= 99
    && IsHeaderBody(h, name, t, size)
    && h[148..156] == Octal(Chksum(h), 7) + [0]
  }

  predicate IsHeaderBody(h: seq<Byte>, name: seq<Byte>, t: UstarType, size: Int32)
    requires |h| == 512 && |name| <= 99
  {
    LowFields(h, name, t, size) && HighFields(h, t)
  }

  /** The fields before the checksum: name, mode, uid, gid, size, mtime. */
  predicate LowFields(h: seq<Byte>, name: seq<Byte>, t: UstarType, size: Int32)
    requires |h| == 512 && |name| <= 99
  {
    && h[0..100] == name + Zeros(100 - |name|)
    && h[100..108] == Octal(Mode(t), 7) + [0]
    && h[108..116] == Octal(0, 7) + [0]
    && h[116..124] == Octal(0, 7) + [0]
    && h[124..136] == Octal(Unsigned(size), 11) + [0]
    && h[136..148] == Octal(1136102400, 11) + [0]
  }

  /** The fields after it: typeflag, linkname, magic, version, uname, gname, and the unused rest. */
  predicate HighFields(h: seq<Byte>, t: UstarType)
    requires |h| == 512
  {
    && h[156..157] == [Flag(t)]
    && h[157..257] == Zeros(100)
    && h[257..263] == Magic()
    && h[263..265] == [DIGIT0, DIGIT0]
    && h[265..297] == Root()
    && h[297..329] == Root()
    && h[329..512] == Zeros(183)
  }

  /** Stores `field` at `ofs`. */
  method Put(header: array<Byte>, ofs: nat, field: seq<Byte>)
    requires ofs + |field| <= header.Length == 512
    modifies header
    ensures header[ofs..ofs + |field|] == field
    ensures forall i, j :: 0 <= i <= j <= 512 && (j <= ofs || ofs + |field| <= i) ==> header[i..j] == old(header[i..j])
  {
    forall k | 0 <= k < |field| {
      header[ofs + k] := field[k];
    }
  }

  /** Only the checksum field is changed by storing the checksum. */
  lemma ChksumIgnoresItsField(h: seq<Byte>, h': seq<Byte>)
    requires |h| == |h'| == 512 && h[0..148] == h'[0..148] && h[156..512] == h'[156..512]
    ensures Chksum(h) == Chksum(h')
  {
    assert Blank(h) == Blank(h') by {
      assert h[..148] == h[0..148] && h'[..148] == h'[0..148] && h[156..] == h[156..512] && h'[156..] == h'[156..512];
    }
  }

  method UstarMakeHeader(fileName0: seq<Byte>, t: UstarType, size: Int32, header: array<Byte>) returns (ok: bool)
    requires IsCString(fileName0) && header.Length == 512
    modifies header
    ensures ok <==> |Strip(fileName0)| <= 99
    ensures if ok then IsHeader(header[..], Strip(fileName0), t, size) else header[..] == old(header[..])
  {
    hide Octal, Zeros, Magic, Root, Mode, Chksum, Strip, IsHeaderBody;
    var fileName := StripAntisocialPrefixes(fileName0);
    if |fileName| > 99 {
      return false;
    }
    FillFields(header, fileName, t, size);
    ghost var h := header[..];
    var chksum := CalculateChksum(header);
    Put(header, 148, Octal(chksum, 7) + [0]);
    BodyIgnoresChksum(h, header[..], fileName, t, size);
    assert header[0..148] == h[0..148] && header[156..512] == h[156..512];
    ChksumIgnoresItsField(h, header[..]);
    return true;
  }

  lemma SameSlice(h: seq<Byte>, h': seq<Byte>, lo: nat, hi: nat, i: nat, j: nat)
    requires lo <= i <= j <= hi <= |h| && |h'| == |h| && h[lo..hi] == h'[lo..hi]
    ensures h[i..j] == h'[i..j]
  {
    forall k | i <= k < j ensures h[k] == h'[k] {
      assert h[lo..hi][k - lo] == h'[lo..hi][k - lo];
    }
  }

  lemma BodyIgnoresChksum(h: seq<Byte>, h': seq<Byte>, name: seq<Byte>, t: UstarType, size: Int32)
    requires |h| == |h'| == 512 && |name| <= 99 && IsHeaderBody(h, name, t, size)
    requires h[0..148] == h'[0..148] && h[156..512] == h'[156..512]
    ensures IsHeaderBody(h', name, t, size)
  {
    hide Octal, Zeros, Magic, Root, Mode;
    forall i, j | 0 <= i <= j <= 512 && (j <= 148 || 156 <= i) ensures h[i..j] == h'[i..j] {
      if j <= 148 {
        SameSlice(h, h', 0, 148, i, j);
      } else {
        SameSlice(h, h', 156, 512, i, j);
      }
    }
  }

  /** Everything that is filled in before the final checksum. */
  method FillFields(header: array<Byte>, fileName: seq<Byte>, t: UstarType, size: Int32)
    requires header.Length == 512 && |fileName| <= 99
    modifies header
    ensures IsHeaderBody(header[..], fileName, t, size)
  {
    hide Octal, Magic, Root, Mode, LowFields, HighFields;
    forall k | 0 <= k < 512 {
      header[k] := 0;
    }
    assert header[157..257] == Zeros(100) && header[329..512] == Zeros(183);
    FillLow(header, fileName, t, size);
    ghost var low := header[..];
    assert header[157..257] == header[148..512][9..109] && header[329..512] == header[148..512][181..];
    FillHigh(header, t);
    LowUnchanged(low, header[..], fileName, t, size);
  }

  lemma LowUnchanged(h: seq<Byte>, h': seq<Byte>, name: seq<Byte>, t: UstarType, size: Int32)
    requires |h| == |h'| == 512 && |name| <= 99 && LowFields(h, name, t, size) && h[0..148] == h'[0..148]
    ensures LowFields(h', name, t, size)
  {
    hide Octal, Zeros, Mode;
    forall i, j | 0 <= i <= j <= 148 ensures h[i..j] == h'[i..j] {
      SameSlice(h, h', 0, 148, i, j);
    }
  }

  method FillLow(header: array<Byte>, fileName: seq<Byte>, t: UstarType, size: Int32)
    requires header.Length == 512 && |fileName| <= 99
    modifies header
    ensures LowFields(header[..], fileName, t, size) && header[148..512] == old(header[148..512])
  {
    hide Octal, Mode, Zeros;
    Put(header, 0, fileName + Zeros(100 - |fileName|));
    Put(header, 100, Octal(Mode(t), 7) + [0]);
    Put(header, 108, Octal(0, 7) + [0]);
    Put(header, 116, Octal(0, 7) + [0]);
    Put(header, 124, Octal(Unsigned(size), 11) + [0]);
    Put(header, 136, Octal(1136102400, 11) + [0]);
    assert forall i, j :: 0 <= i <= j <= 512 ==> header[..][i..j] == header[i..j];
  }

  method FillHigh(header: array<Byte>, t: UstarType)
    requires header.Length == 512 && header[157..257] == Zeros(100) && header[329..512] == Zeros(183)
    modifies header
    ensures HighFields(header[..], t) && header[0..148] == old(header[0..148])
  {
    hide Magic, Root, Zeros;
    Put(header, 156, [Flag(t)]);
    Put(header, 257, Magic());
    Put(header, 263, [DIGIT0, DIGIT0]);
    Put(header, 297, Root());
    Put(header, 265, Root());
    assert forall i, j :: 0 <= i <= j <= 512 ==> header[..][i..j] == header[i..j];
  }

  // ---------- the parser ----------

  datatype ParseError =
    | NotUstar
    | InvalidVersion
    | CorruptChksum
    | ChksumMismatch
    | NameTooLong
    | UnimplementedType
    | CorruptSize
    | FileTooLarge

  datatype Parsed = Eof | Error(error: ParseError) | File(name: seq<Byte>, t: UstarType, size: nat)

  /** The bytes before the first null. */
  function CString(s: seq<Byte>): (r: seq<Byte>)
    ensures |r| <= |s| && r == s[..|r|] && IsCString(r)
    ensures |r| < |s| ==> s[|r|] == 0
  {
    if s == [] || s[0] == 0 then [] else [s[0]] + CString(s[1..])
  }

  ghost predicate AllZeros(s: seq<Byte>) {
    forall i :: 0 <= i < |s| ==> s[i] == 0
  }

  /** The checks in the order in which they are made. */
  ghost function ParseHeader(h: seq<Byte>): Parsed
    requires |h| == 512
  {
    if AllZeros(h) then Eof
    else if h[257..263] != Magic() then Error(NotUstar)
    else if h[263] != DIGIT0 || h[264] != DIGIT0 then Error(InvalidVersion)
    else if OctalField(h[148..156]).None? then Error(CorruptChksum)
    else if OctalField(h[148..156]).value != Chksum(h) then Error(ChksumMismatch)
    else if h[99] != 0 || h[345] != 0 then Error(NameTooLong)
    else if h[156] != Flag(Regular) && h[156] != Flag(Directory) then Error(UnimplementedType)
    else if h[156] == Flag(Regular) then
      if OctalField(h[124..136]).None? then Error(CorruptSize)
      else if OctalField(h[124..136]).value > 0x7FFF_FFFF then Error(FileTooLarge)
      else File(Strip(CString(h[0..100])), Regular, OctalField(h[124..136]).value)
    else File(Strip(CString(h[0..100])), Directory, 0)
  }

  method IsAllZeros(block: array<Byte>) returns (r: bool)
    ensures r <==> AllZeros(block[..])
  {
    for i := 0 to block.Length
      invariant AllZeros(block[..i])
    {
      if block[i] != 0 {
        return false;
      }
    }
    assert block[..block.Length] == block[..];
    return true;
  }

  method UstarParseHeader(header: array<Byte>) returns (r: Parsed)
    requires header.Length == 512
    ensures r == ParseHeader(header[..])
  {
    hide Sum, Blank, Octal, OctalField, Strip, CString;
    var eof := IsAllZeros(header);
    if eof {
      return Eof;
    }
    if header[257..263] != Magic() {
      return Error(NotUstar);
    } else if header[263] != DIGIT0 || header[264] != DIGIT0 {
      return Error(InvalidVersion);
    }
    var chksumField := ParseOctalField(header[148..156]);
    if chksumField.None? {
      return Error(CorruptChksum);
    }
    var chksum := CalculateChksum(header);
    if chksumField.value != chksum {
      return Error(ChksumMismatch);
    } else if header[99] != 0 || header[345] != 0 {
      return Error(NameTooLong);
    } else if header[156] != Flag(Regular) && header[156] != Flag(Directory) {
      return Error(UnimplementedType);
    }
    var size := 0;
    if header[156] == Flag(Regular) {
      var sizeField := ParseOctalField(header[124..136]);
      if sizeField.None? {
        return Error(CorruptSize);
      } else if sizeField.value > 0x7FFF_FFFF {
        return Error(FileTooLarge);
      }
      size := sizeField.value;
    }
    var name := StripAntisocialPrefixes(CString(header[0..100]));
    return File(name, if header[156] == Flag(Regular) then Regular else Directory, size);
  }

  // ---------- the theorems ----------

  lemma {:induction false} CStringPadded(name: seq<Byte>, n: nat)
    requires IsCString(name)
    ensures CString(name + Zeros(n)) == name
    decreases |name|
  {
    var s := name + Zeros(n);
    if name != [] {
      assert s[1..] == name[1..] + Zeros(n);
      CStringPadded(name[1..], n);
    } else if n > 0 {
      assert s[0] == 0;
    }
  }

  /** Stripping keeps a string free of nulls. */
  lemma StripIsCString(s: seq<Byte>)
    requires IsCString(s)
    ensures IsCString(Strip(s))
  {
    var k := StripKeepsSuffix(s);
    assert forall i :: 0 <= i < |s| - k ==> s[k..][i] == s[k + i];
  }

  lemma Pow8Values()
    ensures Pow8(7) == 0x20_0000 && Pow8(11) == 0x2_0000_0000
  {
    assert Pow8(3) == 0x200;
    assert Pow8(6) == 0x4_0000;
    assert Pow8(9) == 0x800_0000;
  }

  /** The fields that the parser reads back from a printed header. */
  lemma ReadBack(h: seq<Byte>, name: seq<Byte>, t: UstarType, size: Int32)
    requires IsHeader(h, name, t, size) && IsCString(name)
    ensures !AllZeros(h) && h[257..263] == Magic() && h[263] == DIGIT0 && h[264] == DIGIT0
    ensures OctalField(h[148..156]) == Some(Chksum(h)) && OctalField(h[124..136]) == Some(Unsigned(size))
    ensures h[99] == 0 && h[345] == 0 && h[156] == Flag(t) && CString(h[0..100]) == name
  {
    hide Octal, OctalField, CString, Sum;
    assert h[263] == h[263..265][0] && h[264] == h[263..265][1] && h[156] == h[156..157][0];
    assert h[99] == h[0..100][99] && h[345] == h[329..512][16];
    SumBound(Blank(h));
    Pow8Values();
    OctalFieldRoundTrip(Chksum(h), 7);
    OctalFieldRoundTrip(Unsigned(size), 11);
    CStringPadded(name, 100 - |name|);
  }

  /** Round trip, for every int: exactly a regular file of negative size is not read back. */
  lemma RoundTrip(fileName: seq<Byte>, t: UstarType, size: Int32, h: seq<Byte>)
    ensures IsCString(fileName) && |Strip(fileName)| <= 99 && IsHeader(h, Strip(fileName), t, size) ==>
      ParseHeader(h) ==
        if t.Directory? then File(Strip(fileName), Directory, 0)
        else if size >= 0 then File(Strip(fileName), Regular, size)
        else Error(FileTooLarge)
  {
    hide Octal, OctalField, CString, Strip, Chksum, IsHeader;
    if IsCString(fileName) && |Strip(fileName)| <= 99 && IsHeader(h, Strip(fileName), t, size) {
      StripIsCString(fileName);
      StripIdempotent(fileName);
      ReadBack(h, Strip(fileName), t, size);
    }
  }

  /** Whatever archive a header comes from, an accepted name is safe to extract and fits. */
  lemma AcceptedIsSafe(h: seq<Byte>)
    requires |h| == 512 && ParseHeader(h).File?
    ensures Safe(ParseHeader(h).name) && 1 <= |ParseHeader(h).name| <= 99 && ParseHeader(h).size <= 0x7FFF_FFFF
  {
    hide OctalField, Strip, Chksum;
    var name := CString(h[0..100]);
    StripSafe(name);
    assert h[0..100][99] == 0;
  }

  /** The checksum catches every change of a single byte outside its own field. */
  lemma SingleByteCorruption(h: seq<Byte>, i: nat, b: Byte)
    requires |h| == 512 && ParseHeader(h).File?
    requires i < 512 && !(148 <= i < 156) && b != h[i]
    ensures ParseHeader(h[i := b]).Error?
  {
    hide OctalField, Strip, CString;
    var h' := h[i := b];
    assert h'[148..156] == h[148..156];
    assert Blank(h') == Blank(h)[i := b] && Blank(h)[i] == h[i];
    SumUpdate(Blank(h), i, b);
    assert Chksum(h') != Chksum(h);
    assert !AllZeros(h') by {
      assert h[257] == h[257..263][0] == 117 && h[258] == h[257..263][1] == 115;
      assert h'[257] != 0 || h'[258] != 0;
    }
  }

  // ---------- byte by byte ----------

  /** The checksum counts its own eight bytes as spaces. */
  lemma ChksumIs(h: seq<Byte>)
    requires |h| == 512
    ensures Chksum(h) == 256 + Sum(h[..148]) + Sum(h[156..])
  {
    var spaces := [SPACE, SPACE, SPACE, SPACE, SPACE, SPACE, SPACE, SPACE];
    SumAppend(h[..148] + spaces, h[156..]);
    SumAppend(h[..148], spaces);
    assert Sum(spaces) == 256 by {
      SumOfEight();
    }
  }

  lemma SumOfEight()
    ensures Sum([SPACE, SPACE, SPACE, SPACE, SPACE, SPACE, SPACE, SPACE]) == 256
  {
    var two, four := [SPACE, SPACE], [SPACE, SPACE, SPACE, SPACE];
    assert two == [SPACE] + [SPACE] && four == two + two;
    assert [SPACE, SPACE, SPACE, SPACE, SPACE, SPACE, SPACE, SPACE] == four + four;
    assert [SPACE][..0] == [];
    assert Sum([SPACE]) == 32;
    SumAppend([SPACE], [SPACE]);
    SumAppend(two, two);
    SumAppend(four, four);
  }

  lemma SumSnoc(s: seq<Byte>, b: Byte)
    ensures Sum([]) == 0 && Sum(s + [b]) == Sum(s) + b
  {
    assert (s + [b])[..|s|] == s;
  }

  /** An archive ends with a block of 512 zeros, and only with that. */
  lemma EofIff(h: seq<Byte>)
    requires |h| == 512
    ensures ParseHeader(h).Eof? <==> forall i :: 0 <= i < 512 ==> h[i] == 0
  {
    hide OctalField, Strip, CString, Chksum;
  }

  predicate IsUstar(h: seq<Byte>)
    requires |h| == 512
  {
    h[257] == 117 && h[258] == 115 && h[259] == 116 && h[260] == 97 && h[261] == 114 && h[262] == 0
  }

  lemma MagicBytes(h: seq<Byte>)
    requires |h| == 512
    ensures h[257..263] == Magic() <==> IsUstar(h)
    ensures IsUstar(h) ==> !AllZeros(h)
  {
    var m := h[257..263];
    assert m[0] == h[257] && m[1] == h[258] && m[2] == h[259] && m[3] == h[260] && m[4] == h[261] && m[5] == h[262];
  }

  /** A header is accepted exactly under these conditions on its bytes; the result is then read off its fields. */
  lemma FileIff(h: seq<Byte>)
    requires |h| == 512
    ensures ParseHeader(h).File? <==>
      && h[257] == 117 && h[258] == 115 && h[259] == 116 && h[260] == 97 && h[261] == 114 && h[262] == 0
      && h[263] == 48 && h[264] == 48
      && OctalField(h[148..156]) == Some(256 + Sum(h[..148]) + Sum(h[156..]))
      && h[99] == 0 && h[345] == 0
      && (h[156] == 48 || h[156] == 53)
      && (h[156] == 48 ==> OctalField(h[124..136]).Some? && OctalField(h[124..136]).value < 0x8000_0000)
    ensures ParseHeader(h).File? ==>
      && ParseHeader(h).name == Strip(CString(h[0..100]))
      && ParseHeader(h).t == (if h[156] == 48 then Regular else Directory)
      && ParseHeader(h).size == if h[156] == 48 then OctalField(h[124..136]).value else 0
  {
    MagicBytes(h);
    ChksumIs(h);
    hide OctalField, Strip, CString, Chksum, Sum, Magic, AllZeros;
  }

  /** Which error is reported: that of the first check that fails, in this order. */
  lemma FirstError(h: seq<Byte>)
    requires |h| == 512 && ParseHeader(h).Error?
    ensures var e := ParseHeader(h).error;
      var field, size := OctalField(h[148..156]), OctalField(h[124..136]);
      if !IsUstar(h) then e == NotUstar
      else if h[263] != 48 || h[264] != 48 then e == InvalidVersion
      else if field.None? then e == CorruptChksum
      else if field.value != 256 + Sum(h[..148]) + Sum(h[156..]) then e == ChksumMismatch
      else if h[99] != 0 || h[345] != 0 then e == NameTooLong
      else if h[156] != 48 && h[156] != 53 then e == UnimplementedType
      else if size.None? then e == CorruptSize
      else e == FileTooLarge && h[156] == 48 && size.value >= 0x8000_0000
  {
    MagicBytes(h);
    ChksumIs(h);
    hide OctalField, Strip, CString, Chksum, Sum, Magic, AllZeros;
  }

  lemma ModeDigits()
    ensures Octal(0, 7) == [48, 48, 48, 48, 48, 48, 48]
    ensures Octal(420, 7) == [48, 48, 48, 48, 54, 52, 52]
    ensures Octal(493, 7) == [48, 48, 48, 48, 55, 53, 53]
  {
    assert Octal(0, 1) == [48];
    assert Octal(0, 2) == [48, 48];
    assert Octal(0, 3) == [48, 48, 48];
    assert Octal(0, 4) == [48, 48, 48, 48];
    assert Octal(6, 5) == [48, 48, 48, 48, 54];
    assert Octal(52, 6) == [48, 48, 48, 48, 54, 52];
    assert Octal(7, 5) == [48, 48, 48, 48, 55];
    assert Octal(61, 6) == [48, 48, 48, 48, 55, 53];
    assert Octal(0, 5) == [48, 48, 48, 48, 48];
    assert Octal(0, 6) == [48, 48, 48, 48, 48, 48];
  }

  /** The fixed modification time, 2006-01-01. */
  lemma TimeDigits()
    ensures Octal(1136102400, 11) == [49, 48, 51, 53, 53, 55, 48, 54, 48, 48, 48]
  {
    assert Octal(1, 1) == [49];
    assert Octal(8, 2) == [49, 48];
    assert Octal(67, 3) == [49, 48, 51];
    assert Octal(541, 4) == [49, 48, 51, 53];
    assert Octal(4333, 5) == [49, 48, 51, 53, 53];
    assert Octal(34671, 6) == [49, 48, 51, 53, 53, 55];
    assert Octal(277368, 7) == [49, 48, 51, 53, 53, 55, 48];
    assert Octal(2218950, 8) == [49, 48, 51, 53, 53, 55, 48, 54];
    assert Octal(17751600, 9) == [49, 48, 51, 53, 53, 55, 48, 54, 48];
    assert Octal(142012800, 10) == [49, 48, 51, 53, 53, 55, 48, 54, 48, 48];
  }

  /** The printed header, byte by byte: octal numbers, "0000644" or "0000755", "ustar", "00", "root", and zeros. */
  lemma HeaderBytes(h: seq<Byte>, name: seq<Byte>, t: UstarType, size: Int32)
    requires IsHeader(h, name, t, size)
    ensures h[..|name|] == name && forall i :: |name| <= i < 100 ==> h[i] == 0
    ensures h[100..108] == if t.Regular? then [48, 48, 48, 48, 54, 52, 52, 0] else [48, 48, 48, 48, 55, 53, 53, 0]
    ensures h[108..116] == [48, 48, 48, 48, 48, 48, 48, 0] == h[116..124]
    ensures h[124..135] == Octal(if size < 0 then size + 0x1_0000_0000 else size, 11) && h[135] == 0
    ensures h[136..148] == [49, 48, 51, 53, 53, 55, 48, 54, 48, 48, 48] + [0]
    ensures h[148..155] == Octal(256 + Sum(h[..148]) + Sum(h[156..]), 7) && h[155] == 0
    ensures h[156] == if t.Regular? then 48 else 53
    ensures forall i :: 157 <= i < 257 || 329 <= i < 512 ==> h[i] == 0
    ensures h[257..265] == [117, 115, 116, 97, 114, 0, 48, 48]
    ensures h[265..269] == [114, 111, 111, 116] == h[297..301]
    ensures forall i :: 269 <= i < 297 || 301 <= i < 329 ==> h[i] == 0
  {
    hide Octal, Sum, Chksum, Magic, Root;
    LowBytes(h, name, t, size);
    HighBytes(h, t);
    hide LowFields, HighFields;
    ModeDigits();
    TimeDigits();
    ChksumIs(h);
    TakeField(h, 148, 156, Octal(Chksum(h), 7), 0);
  }

  lemma TakeField(h: seq<Byte>, lo: nat, hi: nat, digits: seq<Byte>, end: Byte)
    requires lo < hi <= |h| && h[lo..hi] == digits + [end]
    ensures h[lo..hi - 1] == digits && h[hi - 1] == end
  {
    assert h[lo..hi][..hi - lo - 1] == digits && h[lo..hi][hi - lo - 1] == end;
  }

  lemma LowBytes(h: seq<Byte>, name: seq<Byte>, t: UstarType, size: Int32)
    requires |h| == 512 && |name| <= 99 && LowFields(h, name, t, size)
    ensures h[..|name|] == name && forall i :: |name| <= i < 100 ==> h[i] == 0
    ensures h[100..108] == Octal(if t.Regular? then 420 else 493, 7) + [0]
    ensures h[108..116] == Octal(0, 7) + [0] == h[116..124]
    ensures h[124..135] == Octal(if size < 0 then size + 0x1_0000_0000 else size, 11) && h[135] == 0
    ensures h[136..148] == Octal(1136102400, 11) + [0]
  {
    hide Octal;
    assert h[0..100][..|name|] == name;
    forall i | |name| <= i < 100 ensures h[i] == 0 {
      assert h[0..100][i] == h[i];
    }
    TakeField(h, 124, 136, Octal(Unsigned(size), 11), 0);
  }

  lemma HighBytes(h: seq<Byte>, t: UstarType)
    requires |h| == 512 && HighFields(h, t)
    ensures h[156] == if t.Regular? then 48 else 53
    ensures forall i :: 157 <= i < 257 || 329 <= i < 512 ==> h[i] == 0
    ensures h[257..265] == [117, 115, 116, 97, 114, 0, 48, 48]
    ensures h[265..269] == [114, 111, 111, 116] == h[297..301]
    ensures forall i :: 269 <= i < 297 || 301 <= i < 329 ==> h[i] == 0
  {
    assert h[156..157][0] == h[156];
    forall i | 157 <= i < 257 ensures h[i] == 0 {
      assert h[157..257][i - 157] == h[i];
    }
    forall i | 329 <= i < 512 ensures h[i] == 0 {
      assert h[329..512][i - 329] == h[i];
    }
    assert h[257..265] == h[257..263] + h[263..265];
    RootBytes(h, 265);
    RootBytes(h, 297);
  }

  lemma RootBytes(h: seq<Byte>, at: nat)
    requires at + 32 <= |h| && h[at..at + 32] == Root()
    ensures h[at..at + 4] == [114, 111, 111, 116] && forall i :: at + 4 <= i < at + 32 ==> h[i] == 0
  {
    var f := h[at..at + 32];
    assert f[0] == h[at] && f[1] == h[at + 1] && f[2] == h[at + 2] && f[3] == h[at + 3];
    forall i | at + 4 <= i < at + 32 ensures h[i] == 0 {
      assert f[i - at] == h[i];
    }
  }
}
