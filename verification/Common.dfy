/** Small shared datatypes, integer types and lemmas. */
module Common {
  datatype Option<+T> = None | Some(value: T)

  /** The threads of a step system. */
  type Tid = nat

  type Byte = b: int | 0 <= b < 256

  type U32 = x: int | 0 <= x < 0x1_0000_0000

  /** The 32-bit `int` of the C code; assigning to it proves the absence of overflow. */
  type Int32 = x: int | -0x8000_0000 <= x < 0x8000_0000

  function Min(a: int, b: int): (m: int)
    ensures m <= a && m <= b && (m == a || m == b)
  {
    if a <= b then a else b
  }

  function Max(a: int, b: int): (m: int)
    ensures m >= a && m >= b && (m == a || m == b)
  {
    if a > b then a else b
  }

  /** A strcmp-style result orders its arguments: `cmp(a, b) <= 0` is a total preorder. */
  ghost predicate TotalPreorder<T(!new)>(cmp: (T, T) -> int) {
    && (forall a, b :: cmp(a, b) <= 0 || cmp(b, a) <= 0)
    && (forall a, b, c :: cmp(a, b) <= 0 && cmp(b, c) <= 0 ==> cmp(a, c) <= 0)
  }

  lemma MulLe(a: int, b: int, c: nat)
    requires a <= b
    ensures a * c <= b * c
  {
  }

  lemma {:induction false} SubsetCard<T>(a: set<T>, b: set<T>)
    requires a <= b
    ensures |a| <= |b| && (|a| == |b| ==> a == b)
  {
    if a != {} {
      var x :| x in a;
      SubsetCard(a - {x}, b - {x});
      assert a == a - {x} + {x} && b == b - {x} + {x};
    }
  }

  lemma Assoc<T>(a: seq<T>, b: seq<T>, c: seq<T>)
    ensures (a + b) + c == a + (b + c)
  {
  }

  lemma SliceOfSlice<T>(s: seq<T>, i: nat, j: nat)
    requires i + j <= |s|
    ensures s[i..][j..] == s[i + j..] && s[..i + j] == s[..i] + s[i..][..j]
  {
  }

  /** The elements of `s` that belong to `k`, where `owners[i]` tells whose `s[i]` is. */
  function Of<T, K(==)>(s: seq<T>, owners: seq<K>, k: K): seq<T>
    requires |s| == |owners|
    decreases |s|
  {
    if s == [] then []
    else
      var n := |s| - 1;
      Of(s[..n], owners[..n], k) + if owners[n] == k then [s[n]] else []
  }

  lemma OfSnoc<T, K>(s: seq<T>, owners: seq<K>, x: T, j: K, k: K)
    requires |s| == |owners|
    ensures Of(s + [x], owners + [j], k) == Of(s, owners, k) + if j == k then [x] else []
  {
    assert (s + [x])[..|s|] == s && (owners + [j])[..|s|] == owners;
  }
}
