/** Which module of a boot file is exchanged: its name, byte by byte, in the file. */
module BootNames {
  import opened Bytes
  import opened BootFile

  /** Python's lower() on a Latin-1 character. */
  function LowerByte(b: byte): byte {
    if 0x41 <= b <= 0x5A || (0xC0 <= b <= 0xDE && b != 0xD7) then b + 0x20 else b
  }

  function LowerBytes(s: seq<byte>): (r: seq<byte>)
    ensures |r| == |s| && forall k :: 0 <= k < |s| ==> r[k] == LowerByte(s[k])
  {
    seq(|s|, k requires 0 <= k < |s| => LowerByte(s[k]))
  }

  /** The letters r, b and f. */
  const RBF: seq<byte> := [0x72, 0x62, 0x66]

  /** The name exchanged is "rbf", in any case. */
  lemma RbfIff(name: seq<byte>)
    ensures IsRbf(name) <==> LowerBytes(name) == RBF
  {
    if LowerBytes(name) == RBF {
      assert LowerByte(name[0]) == 0x72 && LowerByte(name[1]) == 0x62 && LowerByte(name[2]) == 0x66;
    }
  }

  /** The name at off: the bytes up to the first 0, the 32nd byte or the end of the file. */
  predicate IsName(d: seq<byte>, off: nat, name: seq<byte>) {
    && 0 !in name && |name| <= 32
    && (name != [] ==> off + |name| <= |d| && d[off..off + |name|] == name)
    && (|name| == 32 || off + |name| >= |d| || d[off + |name|] == 0)
  }

  lemma {:induction false} UpToNulIs(s: seq<byte>)
    ensures var n := UpToNul(s); n <= s && 0 !in n && (|n| == |s| || s[|n|] == 0)
  {
    if s != [] && s[0] != 0 {
      UpToNulIs(s[1..]);
      assert [s[0]] + s[1..] == s;
    }
  }

  lemma NameIn(d: seq<byte>, off: nat)
    ensures IsName(d, off, UpToNul(Slice(d, off, off + 32)))
  {
    var s := Slice(d, off, off + 32);
    var n := UpToNul(s);
    UpToNulIs(s);
    if n != [] { assert d[off..off + |n|] == s[..|n|]; }
  }

  lemma SizeTold(d: seq<byte>, i: nat)
    requires Header(d, i)
    ensures SizeAt(d, i) == FourAt(d, i + 4)
  {
    FourIn(d, i + 4);
  }

  lemma NameTold(d: seq<byte>, i: nat, off: nat)
    requires Header(d, i) && off == i + FourAt(d, i + 12)
    ensures NameAt(d, i) == UpToNul(Slice(d, off, off + 32))
  {
    FourIn(d, i + 12);
  }

  lemma BytesTold(d: seq<byte>, i: nat)
    requires Header(d, i)
    ensures ModuleAt(d, i).bytes == Slice(d, i, i + FourAt(d, i + 4))
  {
    SizeTold(d, i);
  }

  lemma NameIsName(d: seq<byte>, i: nat, off: nat)
    requires Header(d, i) && off == i + FourAt(d, i + 12)
    ensures IsName(d, off, NameAt(d, i))
  {
    NameTold(d, i, off);
    NameIn(d, off);
  }

  /** Size and name of the module whose header stands at i: the numbers in bytes 4 to 7 and 12 to 15 of
      the header, and the name at that distance from it. */
  lemma HeaderTold(d: seq<byte>, i: nat)
    requires Header(d, i)
    ensures ModuleAt(d, i).bytes == Slice(d, i, i + FourAt(d, i + 4))
    ensures IsName(d, i + FourAt(d, i + 12), ModuleAt(d, i).name)
  {
    BytesTold(d, i);
    NameIsName(d, i, i + FourAt(d, i + 12));
  }

  lemma NameUnique(d: seq<byte>, off: nat, a: seq<byte>, b: seq<byte>)
    requires IsName(d, off, a) && IsName(d, off, b)
    ensures a == b
  {
    SameLength(d, off, a, b);
    SameLength(d, off, b, a);
  }

  lemma SameLength(d: seq<byte>, off: nat, a: seq<byte>, b: seq<byte>)
    requires IsName(d, off, a) && IsName(d, off, b)
    ensures |a| >= |b|
  {
  }

  /** The list of modules with every "rbf" exchanged, or one appended if there is none. */
  lemma ExchangedExactly(ms: seq<Module>, rbf: seq<byte>)
    ensures var out := NewModules(ms, rbf);
            && (forall k :: 0 <= k < |ms| ==>
                  k < |out| && out[k] == if LowerBytes(ms[k].name) == RBF then rbf else ms[k].bytes)
            && (if exists k :: 0 <= k < |ms| && LowerBytes(ms[k].name) == RBF then |out| == |ms|
                else |out| == |ms| + 1 && out[|ms|] == rbf)
  {
    ReplacedAt(ms, rbf);
    forall k | 0 <= k < |ms|
      ensures IsRbf(ms[k].name) <==> LowerBytes(ms[k].name) == RBF
    {
      RbfIff(ms[k].name);
    }
  }

  // ----- a boot file of two modules -----

  /** A module of 20 bytes with a name of three letters. */
  function Small(name: seq<byte>): (m: seq<byte>)
    requires |name| == 3
    ensures |m| == 20
  {
    [0x4A, 0xFC, 0, 0, 0, 0, 0, 20, 0, 0, 0, 0, 0, 0, 0, 16] + name + [0]
  }

  const SCF: seq<byte> := [0x73, 0x63, 0x66]

  lemma SmallBytes(d: seq<byte>, i: nat, name: seq<byte>)
    requires |name| == 3 && 0 !in name && i + 20 <= |d| && d[i..i + 20] == Small(name)
    ensures Header(d, i) && FourAt(d, i + 4) == 20 && FourAt(d, i + 12) == 16 && IsName(d, i + 16, name)
  {
    var m := Small(name);
    assert forall k :: 0 <= k < 20 ==> d[i..i + 20][k] == m[k];
    assert d[i + 4] == m[4] && d[i + 5] == m[5] && d[i + 6] == m[6] && d[i + 7] == m[7];
    assert d[i + 12] == m[12] && d[i + 13] == m[13] && d[i + 14] == m[14] && d[i + 15] == m[15];
    assert d[i] == m[0] && d[i + 1] == m[1] && d[i + 19] == m[19];
    SubSlice(d, i, i + 20, 16, 19);
    assert m[16..19] == name;
  }

  lemma SmallAt(d: seq<byte>, i: nat, name: seq<byte>)
    requires |name| == 3 && 0 !in name && i + 20 <= |d| && d[i..i + 20] == Small(name)
    ensures Header(d, i) && SizeAt(d, i) == 20 && ModuleAt(d, i) == Module(name, Small(name))
  {
    SmallBytes(d, i, name);
    SizeTold(d, i);
    HeaderTold(d, i);
    NameUnique(d, i + 16, name, ModuleAt(d, i).name);
  }

  /** Parsing where one module after the other is known. */
  lemma ParseNext(d: seq<byte>, i: nat, j: nat)
    requires Header(d, i) && j == i + SizeAt(d, i) && j > i && Advances(d, j)
    ensures Advances(d, i) && Modules(d, i) == [ModuleAt(d, i)] + Modules(d, j) && EndOf(d, i) == EndOf(d, j)
  {
  }

  lemma ParseStops(d: seq<byte>, i: nat)
    requires !Header(d, i)
    ensures Advances(d, i) && Modules(d, i) == [] && EndOf(d, i) == i
  {
  }

  lemma TwoParsed(d: seq<byte>)
    requires |d| == 40 && d[0..20] == Small(RBF) && d[20..40] == Small(SCF)
    ensures Advances(d, 0) && Trailing(d, 0) == []
    ensures Modules(d, 0) == [Module(RBF, Small(RBF)), Module(SCF, Small(SCF))]
  {
    SmallAt(d, 0, RBF);
    SmallAt(d, 20, SCF);
    ParseStops(d, 40);
    ParseNext(d, 20, 40);
    ParseNext(d, 0, 20);
  }

  /** Of the modules rbf and scf the first one is exchanged and the other kept. */
  lemma TwoModules(rbf: seq<byte>)
    ensures var d := Small(RBF) + Small(SCF);
            Advances(d, 0) && Rebuilt(d, rbf) == rbf + Small(SCF)
  {
    var d := Small(RBF) + Small(SCF);
    assert d[0..20] == Small(RBF) && d[20..40] == Small(SCF);
    TwoParsed(d);
    TwoExchanged(Modules(d, 0), rbf);
  }

  lemma TwoExchanged(ms: seq<Module>, rbf: seq<byte>)
    requires |ms| == 2 && ms[0].name == RBF && ms[1].name == SCF
    ensures NewModules(ms, rbf) == [rbf, ms[1].bytes] && Join(NewModules(ms, rbf)) + [] == rbf + ms[1].bytes
  {
    ExchangedExactly(ms, rbf);
    assert LowerByte(0x72) == 0x72 && LowerByte(0x62) == 0x62 && LowerByte(0x66) == 0x66 && LowerByte(0x73) == 0x73;
    assert LowerBytes(RBF) == RBF && LowerBytes(SCF)[0] != RBF[0];
    var out := [rbf, ms[1].bytes];
    var last: seq<seq<byte>> := out[1..];
    assert last == [ms[1].bytes] && last[1..] == [];
    assert Join(last) == ms[1].bytes + [] == ms[1].bytes;
  }

  method ExchangeOne(rbf: seq<byte>) returns (out: seq<byte>)
    ensures out == rbf + [0x4A, 0xFC, 0, 0, 0, 0, 0, 20, 0, 0, 0, 0, 0, 0, 0, 16, 0x73, 0x63, 0x66, 0]
  {
    TwoModules(rbf);
    out := BuildRbfBoot(Small(RBF) + Small(SCF), rbf);
    assert Small(SCF) == [0x4A, 0xFC, 0, 0, 0, 0, 0, 20, 0, 0, 0, 0, 0, 0, 0, 16, 0x73, 0x63, 0x66, 0];
  }
}
