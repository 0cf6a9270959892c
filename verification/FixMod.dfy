/** fixmod.py: put the CRC into the last three bytes of a module, in place. */
module FixMod {
  import opened Bytes
  import opened ModuleCrc

  datatype FixResult = NotAModule | Truncated | Fixed(crc: nat)

  /** Python's reading of an index that may be negative. */
  function At(i: int, length: nat): int { if i < 0 then i + length else i }

  predicate IsModule(mod: seq<byte>) {
    |mod| >= 16 && mod[..2] == [0x4A, 0xFC]
  }

  function SizeField(mod: seq<byte>): nat
    requires |mod| >= 16
  {
    Be(mod[4..8])
  }

  /** Sync word and size field in bytes of the file. */
  lemma HeaderIs(mod: seq<byte>)
    ensures IsModule(mod) <==> |mod| >= 16 && mod[0] == 0x4A && mod[1] == 0xFC
    ensures |mod| >= 16 ==> SizeField(mod) == FourAt(mod, 4)
  {
    if |mod| >= 16 {
      FourIn(mod, 4);
      assert mod[..2] == [mod[0], mod[1]];
    }
  }

  /** The CRC of mod[:size - 3], which for a size below 3 is a slice that ends near the end of
      the file. */
  function CrcOf(mod: seq<byte>, size: nat): nat
    requires 16 <= |mod| && size <= |mod|
  {
    Xor(Register(ONES, mod[..At(size - 3, |mod|)]) % TOP, ONES)
  }

  /** The module after its three CRC bytes were stored. */
  function Stored(mod: seq<byte>, size: nat): (r: seq<byte>)
    requires 16 <= |mod| && size <= |mod|
    ensures |r| == |mod|
  {
    var crc := CrcBytes(CrcOf(mod, size));
    mod[At(size - 3, |mod|) := crc[0]][At(size - 2, |mod|) := crc[1]][At(size - 1, |mod|) := crc[2]]
  }

  method Fix(mod: array<byte>) returns (r: FixResult)
    modifies mod
    ensures r.NotAModule? <==> !IsModule(old(mod[..]))
    ensures r.Truncated? <==> IsModule(old(mod[..])) && mod.Length < SizeField(old(mod[..]))
    ensures !r.Fixed? ==> mod[..] == old(mod[..])
    ensures r.Fixed? ==> mod[..] == Stored(old(mod[..]), SizeField(old(mod[..])))
                         && r.crc == CrcOf(old(mod[..]), SizeField(old(mod[..])))
  {
    if mod.Length < 16 || mod[..2] != [0x4A, 0xFC] {
      assert !IsModule(mod[..]) by { if mod.Length >= 16 { assert mod[..][..2] == mod[..2]; } }
      return NotAModule;
    }
    assert mod[..][..2] == mod[..2] && mod[..][4..8] == mod[4..8];
    var size: int := Be(mod[4..8]);
    if mod.Length < size {
      return Truncated;
    }
    var end := At(size - 3, mod.Length);
    ghost var was := mod[..];
    assert mod[..end] == was[..end];
    var crc := Os9Crc(mod[..end]);
    mod[end] := crc / 0x1_0000 % 256;
    mod[At(size - 2, mod.Length)] := crc / 0x100 % 256;
    mod[At(size - 1, mod.Length)] := crc % 256;
    assert mod[..] == Stored(was, size);
    return Fixed(crc);
  }

  /** For a size field of at least 3, the fixed module passes the separately written check, and
      only its last three bytes changed. */
  lemma FixedPasses(mod: seq<byte>, size: nat)
    requires 16 <= |mod| && 3 <= size <= |mod|
    ensures var m := Stored(mod, size);
            && Register(ONES, m[..size]) % TOP == CHECK_CONSTANT
            && m[..size - 3] == mod[..size - 3] && m[size..] == mod[size..]
  {
    var m := Stored(mod, size);
    var p, w := mod[..size - 3], CrcBytes(CrcOf(mod, size));
    assert m[..size] == p + w;
    CheckIffFixed(p, w);
  }

  /** Registers of different parity never meet. */
  lemma ParityKept(x: nat, y: nat, n: nat, c: nat)
    requires Is24(x) && Is24(y) && x % 2 != y % 2 && ShiftN(y, n) == c
    ensures ShiftN(x, n) != c
  {
    if ShiftN(x, n) == ShiftN(y, n) { ShiftNInjective(x, y, n); }
  }

  lemma OddMix(ones: nat, v: nat)
    requires ones == ONES && Is24(v) && v % 2 == 0
    ensures Is24(Xor(ones, v)) && Xor(ones, v) % 2 == 1
  {
    XorStep(ones, v);
    XorIs24(ones, v);
  }

  /** The registers 8 and 16 steps before the check constant are even. */
  lemma EvenBefore(ones: nat) returns (y8: nat, y16: nat)
    requires ones == ONES
    ensures Is24(y8) && y8 % 2 == 0 && ShiftN(y8, 8) == CHECK_CONSTANT
    ensures Is24(y16) && y16 % 2 == 0 && ShiftN(y16, 16) == CHECK_CONSTANT
  {
    y8, y16 := ShiftN(ones, 16), ShiftN(ones, 8);
    CheckValue(ones);
    ShiftNCompose(ones, 16, 8);
    ShiftNCompose(ones, 8, 16);
  }

  lemma EvenMixFails(ones: nat, v: nat, n: nat)
    requires ones == ONES && Is24(v) && v % 2 == 0 && (n == 8 || n == 16)
    ensures ShiftN(Xor(ones, v), n) != CHECK_CONSTANT
  {
    var y8, y16 := EvenBefore(ones);
    OddMix(ones, v);
    ParityKept(Xor(ones, v), if n == 8 then y8 else y16, n, CHECK_CONSTANT);
  }

  lemma EvenMix(x: nat, y: nat)
    requires Is24(x) && Is24(y) && x % 2 == 0 && y % 2 == 0
    ensures Is24(Xor(x, y)) && Xor(x, y) % 2 == 0
  {
    XorStep(x, y);
    XorIs24(x, y);
  }

  lemma EvenParts(b: byte)
    ensures Is24(Top(b)) && Top(b) % 2 == 0
    ensures Is24((b as int) * 0x100) && (b as int) * 0x100 % 2 == 0
  {
  }

  /** One or two bytes, mixed in at once: an even 24-bit number. */
  lemma ShortFeed(r: nat, d: seq<byte>, reg: nat) returns (v: nat, n: nat)
    requires Is24(r) && 1 <= |d| < 3
    requires reg == if |d| == 1 then ShiftN(Xor(r, Top(d[0])), 8)
                    else ShiftN(Xor(r, Xor(Top(d[0]), (d[1] as int) * 0x100)), 16)
    ensures Is24(v) && v % 2 == 0 && (n == 8 || n == 16) && reg == ShiftN(Xor(r, v), n)
  {
    EvenParts(d[0]);
    v, n := Top(d[0]), 8;
    if |d| == 2 {
      EvenParts(d[1]);
      EvenMix(Top(d[0]), (d[1] as int) * 0x100);
      v, n := Xor(Top(d[0]), (d[1] as int) * 0x100), 16;
    }
  }

  /** Fewer than three bytes never have the check constant. */
  lemma ShortFails(d: seq<byte>)
    requires |d| < 3
    ensures Register(ONES, d) % TOP != CHECK_CONSTANT
  {
    Masked(d);
    if d != [] {
      if |d| == 1 {
        assert d == [d[0]];
        RegisterOne(ONES, d[0]);
      } else {
        FeedTwo(ONES, d);
      }
      var v, n := ShortFeed(ONES, d, Register(ONES, d));
      EvenMixFails(ONES, v, n);
    }
  }

  /** The CRC of a module of this size goes to byte p of the file. */
  predicate Writes(size: nat, length: nat, p: nat) {
    p == At(size - 3, length) || p == At(size - 2, length) || p == At(size - 1, length)
  }

  lemma StoredFrame(mod: seq<byte>, size: nat, p: nat)
    requires 16 <= |mod| && size <= |mod| && p < |mod| && !Writes(size, |mod|, p)
    ensures Stored(mod, size)[p] == mod[p]
  {
  }

  /** The CRC goes past the first eight bytes, sync word and size field included, exactly for size 0,
      where all of it lands at the end of the file, and from size 11 on; then the file still says how
      long the module is. */
  lemma HeaderStays(mod: seq<byte>, size: nat)
    requires 16 <= |mod| && size <= |mod|
    ensures (forall p: nat :: p < 8 ==> !Writes(size, |mod|, p)) <==> size == 0 || size >= 11
    ensures size == 0 || size >= 11 ==>
              var m := Stored(mod, size);
              m[..8] == mod[..8] && (IsModule(m) <==> IsModule(mod)) && SizeField(m) == SizeField(mod)
  {
    var m := Stored(mod, size);
    if size == 0 || size >= 11 {
      forall p | 0 <= p < 8
        ensures m[p] == mod[p]
      {
        StoredFrame(mod, size, p);
      }
      assert m[..2] == m[..8][..2] && mod[..2] == mod[..8][..2];
      assert m[4..8] == m[..8][4..8] && mod[4..8] == mod[..8][4..8];
    } else {
      assert Writes(size, |mod|, if size < 3 then 0 else size - 3);
    }
  }

  /** After fixing, the bytes that the header named before pass the check exactly when the size field
      was at least 3. */
  lemma FixedPassesIff(mod: seq<byte>, size: nat)
    requires 16 <= |mod| && size <= |mod|
    ensures Register(ONES, Stored(mod, size)[..size]) % TOP == CHECK_CONSTANT <==> size >= 3
  {
    if size >= 3 { FixedPasses(mod, size); } else { ShortFails(Stored(mod, size)[..size]); }
  }
}
