/** Bytes and big-endian numbers, shared by the register frame, the disk image, the module
    tools and the trace decoder. */
module Bytes {
  type byte = x: int | 0 <= x < 256

  function Pow256(n: nat): (p: nat)
    ensures p > 0
  {
    if n == 0 then 1 else 256 * Pow256(n - 1)
  }

  /** The big-endian value of a byte string of any length. */
  function Be(s: seq<byte>): nat {
    if s == [] then 0 else 256 * Be(s[..|s| - 1]) + s[|s| - 1]
  }

  /** The low `width` bytes of n, most significant first. */
  function ToBe(n: nat, width: nat): (s: seq<byte>)
    ensures |s| == width
  {
    if width == 0 then [] else ToBe(n / 256, width - 1) + [n % 256]
  }

  lemma {:induction false} BeBound(s: seq<byte>)
    ensures Be(s) < Pow256(|s|)
  {
    if s != [] { BeBound(s[..|s| - 1]); }
  }

  lemma {:induction false} BeToBe(n: nat, width: nat)
    requires n < Pow256(width)
    ensures Be(ToBe(n, width)) == n
  {
    if width > 0 {
      BeToBe(n / 256, width - 1);
      assert ToBe(n, width)[..width - 1] == ToBe(n / 256, width - 1);
    }
  }

  lemma Widths()
    ensures Pow256(1) == 0x100 && Pow256(2) == 0x1_0000 && Pow256(3) == 0x100_0000
    ensures Pow256(4) == 0x1_0000_0000
  {
    assert Pow256(0) == 1;
    assert Pow256(1) == 256 * Pow256(0);
    assert Pow256(2) == 256 * Pow256(1);
    assert Pow256(3) == 256 * Pow256(2);
    assert Pow256(4) == 256 * Pow256(3);
  }

  /** Two and four bytes as a number, written out. */
  function TwoAt(d: seq<byte>, i: nat): nat
    requires i + 2 <= |d|
  {
    0x100 * (d[i] as int) + d[i + 1]
  }

  function FourAt(d: seq<byte>, i: nat): nat
    requires i + 4 <= |d|
  {
    0x100_0000 * (d[i] as int) + 0x1_0000 * (d[i + 1] as int) + 0x100 * (d[i + 2] as int) + d[i + 3]
  }

  lemma TwoIn(d: seq<byte>, i: nat)
    requires i + 2 <= |d|
    ensures Be(d[i..i + 2]) == TwoAt(d, i)
  {
    var s := d[i..i + 2];
    assert s[..1][..0] == [] && Be(s[..1]) == s[0];
  }

  lemma FourBe(s: seq<byte>)
    requires |s| == 4
    ensures Be(s) == FourAt(s, 0)
  {
    assert s[..3][..2][..1][..0] == [] && Be(s[..3][..2][..1]) == s[0];
    assert Be(s[..3][..2]) == 256 * Be(s[..3][..2][..1]) + s[1];
    assert Be(s[..3]) == 256 * Be(s[..3][..2]) + s[2];
  }

  lemma FourIn(d: seq<byte>, i: nat)
    requires i + 4 <= |d|
    ensures Be(d[i..i + 4]) == FourAt(d, i)
  {
    var s := d[i..i + 4];
    FourBe(s);
    assert s[0] == d[i] && s[1] == d[i + 1] && s[2] == d[i + 2] && s[3] == d[i + 3];
  }

  /** s with the bytes from `off` on replaced by v. */
  function Patch<T>(s: seq<T>, off: nat, v: seq<T>): (r: seq<T>)
    requires off + |v| <= |s|
    ensures |r| == |s| && r[off..off + |v|] == v
    ensures forall i :: 0 <= i < |s| && !(off <= i < off + |v|) ==> r[i] == s[i]
  {
    s[..off] + v + s[off + |v|..]
  }

  lemma ConcatAssoc<T>(a: seq<T>, b: seq<T>, c: seq<T>)
    ensures (a + b) + c == a + (b + c)
  {
  }

  lemma SubSlice<T>(d: seq<T>, i: nat, j: nat, a: nat, b: nat)
    requires i <= j <= |d| && a <= b <= j - i
    ensures d[i..j][a..b] == d[i + a..i + b]
  {
    forall k | 0 <= k < b - a
      ensures d[i..j][a..b][k] == d[i + a..i + b][k]
    {
      assert d[i..j][a + k] == d[i + a + k];
    }
  }

  /** Concatenation of a list of byte strings. */
  function Join(parts: seq<seq<byte>>): seq<byte> {
    if parts == [] then [] else parts[0] + Join(parts[1..])
  }

  /** Python slicing: bounds beyond the end are cut off. */
  function Slice(d: seq<byte>, lo: nat, hi: nat): seq<byte> {
    var h := if hi < |d| then hi else |d|;
    if lo < h then d[lo..h] else []
  }
}
