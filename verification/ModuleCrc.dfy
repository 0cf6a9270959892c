/** The OS-9 24-bit module CRC: the routine that writes it (fixmod.py) and the separately
    written routine that checks it (mk_rbfboot.py).  Registers are Python integers: nothing
    limits their width, so that they stay below 2^24 is a result here. */
module ModuleCrc {
  import opened Bytes

  const TOP := 0x100_0000
  const POLY := 0x180_0063
  const ONES := 0xFF_FFFF
  const CHECK_CONSTANT := 0x80_0FE3

  /** Exclusive or of two non-negative integers, bit by bit. */
  function Xor(a: nat, b: nat): nat {
    if a == 0 && b == 0 then 0
    else 2 * Xor(a / 2, b / 2) + (if a % 2 == b % 2 then 0 else 1)
  }

  /** One bit step: shift left, and subtract the polynomial if bit 24 came out set. */
  function Shift(crc: nat): nat {
    if 2 * crc / TOP % 2 == 1 then Xor(2 * crc, POLY) else 2 * crc
  }

  function ShiftN(crc: nat, n: nat): nat {
    if n == 0 then crc else Shift(ShiftN(crc, n - 1))
  }

  /** A byte in the top of the register. */
  function Top(b: byte): nat { (b as int) * 0x1_0000 }

  /** The register after a byte string, from a given start. */
  function Register(crc: nat, data: seq<byte>): nat {
    if data == [] then crc
    else ShiftN(Xor(Register(crc, data[..|data| - 1]), Top(data[|data| - 1])), 8)
  }

  // ----- the two routines, as they loop -----

  /** fixmod.py os9_crc: masks and complements at the end. */
  method Os9Crc(data: seq<byte>) returns (crc: nat)
    ensures crc == Xor(Register(ONES, data) % TOP, ONES)
  {
    crc := ONES;
    var i := 0;
    while i < |data|
      invariant 0 <= i <= |data|
      invariant crc == Register(ONES, data[..i])
    {
      assert data[..i + 1][..i] == data[..i];
      crc := Xor(crc, Top(data[i]));
      ghost var start := crc;
      var bit := 0;
      while bit < 8
        invariant 0 <= bit <= 8
        invariant crc == ShiftN(start, bit)
      {
        crc := 2 * crc;
        if crc / TOP % 2 == 1 {
          crc := Xor(crc, POLY);
        }
        bit := bit + 1;
      }
      i := i + 1;
    }
    assert data[..|data|] == data;
    crc := crc % TOP;
    crc := Xor(crc, ONES);
  }

  /** mk_rbfboot.py crc24: masks only. */
  method Crc24(data: seq<byte>) returns (crc: nat)
    ensures crc == Register(ONES, data) % TOP
  {
    crc := ONES;
    var i := 0;
    while i < |data|
      invariant 0 <= i <= |data|
      invariant crc == Register(ONES, data[..i])
    {
      assert data[..i + 1][..i] == data[..i];
      crc := Xor(crc, Top(data[i]));
      ghost var start := crc;
      var bit := 0;
      while bit < 8
        invariant 0 <= bit <= 8
        invariant crc == ShiftN(start, bit)
      {
        crc := 2 * crc;
        if crc / TOP % 2 == 1 {
          crc := Xor(crc, POLY);
        }
        bit := bit + 1;
      }
      i := i + 1;
    }
    assert data[..|data|] == data;
    crc := crc % TOP;
  }

  // ----- exclusive or -----

  lemma XorStep(a: nat, b: nat)
    ensures Xor(a, b) / 2 == Xor(a / 2, b / 2)
    ensures Xor(a, b) % 2 == if a % 2 == b % 2 then 0 else 1
  {
  }

  lemma {:induction false} XorZero(a: nat)
    ensures Xor(a, 0) == a
  {
    if a != 0 { XorZero(a / 2); }
  }

  lemma {:induction false} XorComm(a: nat, b: nat)
    ensures Xor(a, b) == Xor(b, a)
  {
    if a != 0 || b != 0 { XorComm(a / 2, b / 2); }
  }

  lemma {:induction false} XorAssoc(a: nat, b: nat, c: nat)
    ensures Xor(Xor(a, b), c) == Xor(a, Xor(b, c))
    decreases a + b + c
  {
    if a != 0 || b != 0 || c != 0 {
      XorAssoc(a / 2, b / 2, c / 2);
      var l, r := Xor(Xor(a, b), c), Xor(a, Xor(b, c));
      XorStep(a, b); XorStep(b, c); XorStep(Xor(a, b), c); XorStep(a, Xor(b, c));
      assert l / 2 == r / 2 && l % 2 == r % 2;
    }
  }

  lemma {:induction false} XorSelf(a: nat)
    ensures Xor(a, a) == 0
  {
    if a != 0 { XorSelf(a / 2); }
  }

  /** Xor cancels. */
  lemma XorCancel(a: nat, b: nat)
    ensures Xor(Xor(a, b), b) == a
  {
    XorAssoc(a, b, b);
    XorSelf(b);
    XorZero(a);
  }

  lemma XorInjective(a: nat, b: nat, c: nat)
    requires Xor(a, c) == Xor(b, c)
    ensures a == b
  {
    XorCancel(a, c);
    XorCancel(b, c);
  }

  /** (a^b)^(c^d) == (a^c)^(b^d) */
  lemma XorSwap(a: nat, b: nat, c: nat, d: nat)
    ensures Xor(Xor(a, b), Xor(c, d)) == Xor(Xor(a, c), Xor(b, d))
  {
    XorAssoc(a, b, Xor(c, d));
    XorAssoc(b, c, d);
    XorComm(b, c);
    XorAssoc(c, b, d);
    XorAssoc(a, c, Xor(b, d));
  }

  // ----- high bits -----

  function Shr(a: nat, k: nat): nat {
    if k == 0 then a else Shr(a / 2, k - 1)
  }

  lemma {:induction false} XorShr(a: nat, b: nat, k: nat)
    ensures Shr(Xor(a, b), k) == Xor(Shr(a, k), Shr(b, k))
  {
    if k > 0 { XorStep(a, b); XorShr(a / 2, b / 2, k - 1); }
  }

  lemma Shr24(a: nat)
    ensures Shr(a, 24) == a / TOP
  {
    Shr8(a);
    Shr8(a / 0x100);
    Shr8(a / 0x1_0000);
    ShrShr(a, 8, 16);
    ShrShr(a / 0x100, 8, 8);
    assert a / 0x100 / 0x100 == a / 0x1_0000 && a / 0x1_0000 / 0x100 == a / TOP;
  }

  lemma Shr8(a: nat)
    ensures Shr(a, 8) == a / 0x100
  {
    ShrShr(a, 4, 4);
    Shr4(a);
    Shr4(a / 16);
  }

  lemma Shr4(a: nat)
    ensures Shr(a, 4) == a / 16
  {
    assert Shr(a / 2, 3) == Shr(a / 2 / 2, 2);
    assert Shr(a / 2 / 2, 2) == Shr(a / 2 / 2 / 2, 1);
  }

  lemma {:induction false} ShrShr(a: nat, j: nat, k: nat)
    ensures Shr(Shr(a, j), k) == Shr(a, j + k)
  {
    if j > 0 { ShrShr(a / 2, j - 1, k); }
  }

  /** The part of an exclusive or above bit 24. */
  lemma XorHigh(a: nat, b: nat)
    ensures Xor(a, b) / TOP == Xor(a / TOP, b / TOP)
  {
    XorShr(a, b, 24);
    Shr24(a);
    Shr24(b);
    Shr24(Xor(a, b));
  }

  predicate Is24(x: nat) { x < TOP }

  lemma XorIs24(a: nat, b: nat)
    requires Is24(a) && Is24(b)
    ensures Is24(Xor(a, b))
  {
    XorHigh(a, b);
  }

  // ----- the step: range, linearity, injectivity -----

  lemma ShiftIs24(x: nat)
    requires Is24(x)
    ensures Is24(Shift(x))
  {
    XorHigh(2 * x, POLY);
    XorSelf(1);
  }

  lemma XorDouble(x: nat, y: nat)
    ensures Xor(2 * x, 2 * y) == 2 * Xor(x, y)
  {
    XorStep(2 * x, 2 * y);
  }

  /** One step is linear over exclusive or. */
  lemma ShiftLinear(x: nat, y: nat)
    requires Is24(x) && Is24(y)
    ensures Shift(Xor(x, y)) == Xor(Shift(x), Shift(y))
  {
    XorDouble(x, y);
    var a, b := 2 * x, 2 * y;
    XorHigh(a, b);
    assert a / TOP <= 1 && b / TOP <= 1;
    XorSelf(1); XorZero(1); XorComm(0, 1); XorSelf(0);
    if a / TOP == 1 && b / TOP == 1 {
      XorSwap(a, POLY, b, POLY);
      XorSelf(POLY);
      XorZero(Xor(a, b));
    } else if a / TOP == 1 {
      XorAssoc(a, POLY, b); XorComm(POLY, b); XorAssoc(a, b, POLY);
    } else if b / TOP == 1 {
      XorAssoc(a, b, POLY);
    }
  }

  /** An odd number flips the low bit. */
  lemma OddFlips(a: nat, b: nat, odd: nat)
    requires odd % 2 == 1
    ensures Xor(2 * a, odd) != 2 * b
  {
    XorStep(2 * a, odd);
  }

  lemma ShiftInjective(x: nat, y: nat)
    requires Is24(x) && Is24(y) && Shift(x) == Shift(y)
    ensures x == y
  {
    if 2 * x / TOP % 2 == 1 && 2 * y / TOP % 2 == 1 {
      XorInjective(2 * x, 2 * y, POLY);
    } else {
      OddFlips(x, y, POLY);
      OddFlips(y, x, POLY);
    }
  }

  lemma {:induction false} ShiftNIs24(x: nat, n: nat)
    requires Is24(x)
    ensures Is24(ShiftN(x, n))
  {
    if n > 0 { ShiftNIs24(x, n - 1); ShiftIs24(ShiftN(x, n - 1)); }
  }

  lemma {:induction false} ShiftNLinear(x: nat, y: nat, n: nat)
    requires Is24(x) && Is24(y)
    ensures ShiftN(Xor(x, y), n) == Xor(ShiftN(x, n), ShiftN(y, n))
  {
    if n > 0 {
      ShiftNLinear(x, y, n - 1);
      ShiftNIs24(x, n - 1);
      ShiftNIs24(y, n - 1);
      ShiftLinear(ShiftN(x, n - 1), ShiftN(y, n - 1));
    }
  }

  lemma {:induction false} ShiftNInjective(x: nat, y: nat, n: nat)
    requires Is24(x) && Is24(y) && ShiftN(x, n) == ShiftN(y, n)
    ensures x == y
  {
    if n > 0 {
      ShiftNIs24(x, n - 1);
      ShiftNIs24(y, n - 1);
      ShiftInjective(ShiftN(x, n - 1), ShiftN(y, n - 1));
      ShiftNInjective(x, y, n - 1);
    }
  }

  lemma {:induction false} ShiftNCompose(x: nat, m: nat, n: nat)
    ensures ShiftN(ShiftN(x, m), n) == ShiftN(x, m + n)
  {
    if n > 0 { ShiftNCompose(x, m, n - 1); }
  }

  /** The register never leaves 24 bits, although neither routine masks it inside its loops. */
  lemma {:induction false} RegisterIs24(crc: nat, data: seq<byte>)
    requires Is24(crc)
    ensures Is24(Register(crc, data))
  {
    if data != [] {
      var r, b := Register(crc, data[..|data| - 1]), data[|data| - 1];
      RegisterIs24(crc, data[..|data| - 1]);
      XorIs24(r, Top(b));
      ShiftNIs24(Xor(r, Top(b)), 8);
    }
  }

  lemma {:induction false} RegisterAppend(crc: nat, p: seq<byte>, q: seq<byte>)
    ensures Register(crc, p + q) == Register(Register(crc, p), q)
  {
    if q == [] {
      assert p + q == p;
    } else {
      assert (p + q)[..|p + q| - 1] == p + q[..|q| - 1];
      RegisterAppend(crc, p, q[..|q| - 1]);
    }
  }

  // ----- three bytes at once -----

  function Scale(a: nat, k: nat): nat {
    if k == 0 then a else 2 * Scale(a, k - 1)
  }

  lemma {:induction false} ScaleClear(a: nat, k: nat)
    ensures Clear(Scale(a, k), k)
  {
    if k > 0 {
      var y := Scale(a, k - 1);
      ScaleClear(a, k - 1);
      assert (2 * y) / 2 == y && (2 * y) % 2 == 0;
    }
  }

  lemma {:induction false} ScaleXor(x: nat, y: nat, k: nat)
    ensures Xor(Scale(x, k), Scale(y, k)) == Scale(Xor(x, y), k)
  {
    if k > 0 {
      ScaleXor(x, y, k - 1);
      XorDouble(Scale(x, k - 1), Scale(y, k - 1));
    }
  }

  lemma ScaleFour(a: nat)
    ensures Scale(a, 4) == 16 * a
  {
    assert Scale(a, 3) == 2 * Scale(a, 2) && Scale(a, 1) == 2 * Scale(a, 0);
  }

  lemma {:induction false} ScaleScale(a: nat, j: nat, k: nat)
    ensures Scale(Scale(a, j), k) == Scale(a, j + k)
  {
    if k > 0 { ScaleScale(a, j, k - 1); }
  }

  lemma ScaleEight(a: nat)
    ensures Scale(a, 8) == 256 * a
  {
    ScaleFour(a);
    ScaleFour(16 * a);
    ScaleScale(a, 4, 4);
  }

  /** Steps that push no bit out are a plain shift. */
  lemma {:induction false} ShiftPlain(x: nat, n: nat)
    requires Is24(Scale(x, n))
    ensures ShiftN(x, n) == Scale(x, n)
  {
    if n > 0 { ShiftPlain(x, n - 1); }
  }

  /** Three bytes as one 24-bit number, put together by exclusive or. */
  function Word(w: seq<byte>): nat
    requires |w| == 3
  {
    Xor(Xor(Top(w[0]), (w[1] as int) * 0x100), w[2])
  }

  /** Mixing a value in after n steps is mixing it in before them, shifted down. */
  lemma FeedLate(x: nat, b: nat, n: nat)
    requires Is24(x) && Is24(Scale(b, n)) && Is24(b)
    ensures Xor(ShiftN(x, n), Scale(b, n)) == ShiftN(Xor(x, b), n)
  {
    ShiftPlain(b, n);
    ShiftNLinear(x, b, n);
  }

  lemma TwoFeeds(r: nat, b1: nat, b0: nat, n: nat)
    requires Is24(r) && Is24(b1) && Is24(b0) && Is24(Scale(b0, n))
    ensures ShiftN(Xor(ShiftN(Xor(r, b1), n), Scale(b0, n)), n) == ShiftN(Xor(r, Xor(b1, b0)), n + n)
  {
    XorIs24(r, b1);
    FeedLate(Xor(r, b1), b0, n);
    ShiftNCompose(Xor(Xor(r, b1), b0), n, n);
    XorAssoc(r, b1, b0);
  }

  lemma ThreeFeeds(r: nat, b2: nat, b1: nat, b0: nat, n: nat)
    requires Is24(r) && Is24(b2) && Is24(b1) && Is24(b0) && Is24(Scale(b1, n)) && Is24(Scale(b0, n + n))
    ensures ShiftN(Xor(ShiftN(Xor(ShiftN(Xor(r, b2), n), Scale(b1, n)), n), Scale(b0, n + n)), n)
            == ShiftN(Xor(r, Xor(Xor(b2, b1), b0)), n + n + n)
  {
    var x1 := Xor(r, b2);
    XorIs24(r, b2);
    FeedLate(x1, b1, n);
    var x2 := Xor(x1, b1);
    XorIs24(x1, b1);
    ShiftNCompose(x2, n, n);
    FeedLate(x2, b0, n + n);
    ShiftNCompose(Xor(x2, b0), n + n, n);
    XorAssoc(r, b2, b1);
    XorAssoc(r, Xor(b2, b1), b0);
  }

  lemma {:induction false} RegisterOne(r: nat, b: byte)
    ensures Register(r, [b]) == ShiftN(Xor(r, Top(b)), 8)
  {
    assert [b][..0] == [];
  }

  lemma FeedTwo(r: nat, w: seq<byte>)
    requires Is24(r) && |w| == 2
    ensures Register(r, w) == ShiftN(Xor(r, Xor(Top(w[0]), (w[1] as int) * 0x100)), 16)
  {
    RegisterTwo(r, w);
    RegisterOne(r, w[0]);
    RegisterOne(Register(r, [w[0]]), w[1]);
    TwoByteFeeds(r, Top(w[0]), (w[1] as int) * 0x100, Top(w[1]));
  }

  lemma TwoByteFeeds(r: nat, b1: nat, b0: nat, t0: nat)
    requires Is24(r) && Is24(b1) && b0 < 0x1_0000 && t0 == 0x100 * b0
    ensures ShiftN(Xor(ShiftN(Xor(r, b1), 8), t0), 8) == ShiftN(Xor(r, Xor(b1, b0)), 16)
  {
    ScaleEight(b0);
    TwoFeeds(r, b1, b0, 8);
  }

  lemma {:induction false} RegisterTwo(r: nat, w: seq<byte>)
    requires |w| == 2
    ensures Register(r, w) == Register(Register(r, [w[0]]), [w[1]])
  {
    assert w == [w[0]] + [w[1]];
    RegisterAppend(r, [w[0]], [w[1]]);
  }

  lemma {:induction false} RegisterThree(r: nat, w: seq<byte>)
    requires |w| == 3
    ensures Register(r, w) == Register(Register(Register(r, [w[0]]), [w[1]]), [w[2]])
  {
    assert w == [w[0]] + [w[1]] + [w[2]];
    RegisterAppend(r, [w[0]] + [w[1]], [w[2]]);
    RegisterAppend(r, [w[0]], [w[1]]);
  }

  /** Feeding three bytes is 24 steps on the register with the bytes mixed in at once. */
  lemma FeedThree(r: nat, w: seq<byte>)
    requires Is24(r) && |w| == 3
    ensures Register(r, w) == ShiftN(Xor(r, Word(w)), 24)
  {
    var b1: nat, b0: nat := (w[1] as int) * 0x100, w[2];
    RegisterThree(r, w);
    RegisterOne(r, w[0]);
    var r1 := Register(r, [w[0]]);
    RegisterOne(r1, w[1]);
    RegisterOne(Register(r1, [w[1]]), w[2]);
    ScaleEight(b1);
    ScaleEight(b0);
    ScaleEight(0x100 * b0);
    ScaleScale(b0, 8, 8);
    ThreeFeeds(r, Top(w[0]), b1, b0, 8);
  }

  // ----- the value of three bytes -----

  /** The low k bits of x are clear. */
  predicate Clear(x: nat, k: nat) {
    k == 0 || (x % 2 == 0 && Clear(x / 2, k - 1))
  }

  predicate Fits(b: nat, k: nat) {
    if k == 0 then b == 0 else Fits(b / 2, k - 1)
  }

  /** Where no bit is set in both, exclusive or is addition. */
  lemma {:induction false} XorDisjoint(x: nat, b: nat, k: nat)
    requires Clear(x, k) && Fits(b, k)
    ensures Xor(x, b) == x + b
  {
    if k == 0 {
      XorZero(x);
    } else {
      XorDisjoint(x / 2, b / 2, k - 1);
      XorStep(x, b);
    }
  }

  lemma FitsEight(b: byte)
    ensures Fits(b, 8)
  {
    var n: nat := b;
    assert Fits(n / 128 / 2, 0);
    assert Fits(n / 64 / 2, 1) && Fits(n / 32 / 2, 2) && Fits(n / 16 / 2, 3);
    assert Fits(n / 8 / 2, 4) && Fits(n / 4 / 2, 5) && Fits(n / 2 / 2, 6);
  }

  lemma XorLowByte(h: nat, b: byte)
    ensures Xor(256 * h, b) == 256 * h + b
  {
    ScaleEight(h);
    ScaleClear(h, 8);
    FitsEight(b);
    XorDisjoint(256 * h, b, 8);
  }

  lemma ScaledXor(x: nat, y: nat)
    ensures Xor(256 * x, 256 * y) == 256 * Xor(x, y)
  {
    ScaleEight(x);
    ScaleEight(y);
    ScaleEight(Xor(x, y));
    ScaleXor(x, y, 8);
  }

  lemma WordValue(w: seq<byte>)
    requires |w| == 3
    ensures Word(w) == 0x1_0000 * (w[0] as int) + 0x100 * (w[1] as int) + w[2]
  {
    var b2: nat, b1: nat := w[0], w[1];
    XorLowByte(b2, w[1]);
    ScaledXor(256 * b2, b1);
    XorLowByte(256 * b2 + b1, w[2]);
  }

  // ----- the value of the check constant -----

  /** Exclusive or with a single bit of weight p. */
  function Flip(d: int, p: nat): int
    requires p > 0
  {
    if d / p % 2 == 1 then d - p else d + p
  }

  lemma {:induction false} XorOneBit(d: nat, k: nat)
    ensures Xor(d, Scale(1, k)) == if Shr(d, k) % 2 == 1 then d - Scale(1, k) else d + Scale(1, k)
    ensures Shr(d, k) % 2 == 1 ==> d >= Scale(1, k)
  {
    XorStep(d, Scale(1, k));
    if k == 0 {
      XorZero(d / 2);
    } else {
      XorOneBit(d / 2, k - 1);
    }
  }

  lemma Flip01(d: nat)
    ensures Xor(d, 0x1) == Flip(d, 0x1) && Xor(d, 0x2) == Flip(d, 0x2)
  {
    XorOneBit(d, 0);
    XorOneBit(d, 1);
  }

  lemma Flip5(d: nat)
    ensures Xor(d, 0x20) == Flip(d, 0x20)
  {
    ScaleFour(1);
    ScaleScale(1, 4, 1);
    ShrShr(d, 4, 1);
    Shr4(d);
    XorOneBit(d, 5);
  }

  lemma Flip6(d: nat)
    ensures Xor(d, 0x40) == Flip(d, 0x40)
  {
    ScaleFour(1);
    ScaleScale(1, 4, 2);
    ShrShr(d, 4, 2);
    Shr4(d);
    var e := d / 16;
    assert Shr(e, 2) == Shr(e / 2, 1) == e / 4;
    XorOneBit(d, 6);
  }

  lemma FlipHigh(d: nat)
    ensures Xor(d, 0x80_0000) == Flip(d, 0x80_0000) && Xor(d, TOP) == Flip(d, TOP)
  {
    ScaleEight(1); ScaleEight(0x100); ScaleEight(0x1_0000);
    ScaleScale(1, 8, 8); ScaleScale(1, 16, 8); ScaleScale(1, 23, 1);
    XorOneBit(d, 24);
    Shr24(d);
    ShrShr(d, 23, 1);
    Shr23(d);
    XorOneBit(d, 23);
  }

  lemma Shr23(d: nat)
    ensures Shr(d, 23) == d / 0x80_0000
  {
    ShrShr(d, 8, 15); ShrShr(d / 0x100, 8, 7); ShrShr(d / 0x1_0000, 4, 3);
    Shr8(d); Shr8(d / 0x100); Shr4(d / 0x1_0000);
    var e := d / 0x1_0000 / 0x10;
    assert Shr(e, 3) == Shr(e / 2, 2) == Shr(e / 2 / 2, 1) == e / 8;
    assert d / 0x100 / 0x100 == d / 0x1_0000;
  }

  /** The polynomial is the exclusive or of its six terms. */
  lemma XorPoly(d: nat)
    ensures Xor(d, POLY) == FlipAll(d)
  {
    var d1 := Xor(d, 0x1);
    var d2 := Xor(d1, 0x2);
    var d3 := Xor(d2, 0x20);
    var d4 := Xor(d3, 0x40);
    var d5 := Xor(d4, 0x80_0000);
    Flip01(d); Flip01(d1); Flip5(d2); Flip6(d3); FlipHigh(d4); FlipHigh(d5);
    PolyTerms(d);
  }

  function FlipAll(d: int): int {
    Flip(Flip(Flip(Flip(Flip(Flip(d, 0x1), 0x2), 0x20), 0x40), 0x80_0000), TOP)
  }

  lemma PolyTerms(d: nat)
    ensures Xor(d, POLY) == Xor(Xor(Xor(Xor(Xor(Xor(d, 0x1), 0x2), 0x20), 0x40), 0x80_0000), TOP)
  {
    PolyTerm(d, 0x1, 0x2, 0x3);
    PolyTerm(d, 0x3, 0x20, 0x23);
    PolyTerm(d, 0x23, 0x40, 0x63);
    PolyTerm(d, 0x63, 0x80_0000, 0x80_0063);
    PolyTerm(d, 0x80_0063, TOP, POLY);
  }

  lemma PolyTerm(d: nat, q: nat, p: nat, r: nat)
    requires p in {0x2, 0x20, 0x40, 0x80_0000, TOP} && r == Flip(q, p)
    ensures Xor(d, r) == Xor(Xor(d, q), p)
  {
    XorAssoc(d, q, p);
    if p == 0x2 { Flip01(q); }
    if p == 0x20 { Flip5(q); }
    if p == 0x40 { Flip6(q); }
    if p == 0x80_0000 || p == TOP { FlipHigh(q); }
  }

  /** One step in plain arithmetic. */
  function StepValue(x: nat): int {
    if x < 0x80_0000 then 2 * x else FlipAll(2 * x)
  }

  lemma ShiftValue(x: nat)
    requires Is24(x)
    ensures Shift(x) == StepValue(x)
  {
    if x < 0x80_0000 {
      assert 2 * x / TOP == 0;
    } else {
      assert 2 * x / TOP == 1;
      XorPoly(2 * x);
    }
  }

  /** A table of successive registers. */
  predicate Chain(v: seq<nat>) {
    && (forall j :: 0 <= j < |v| ==> Is24(v[j]))
    && (forall j :: 0 <= j < |v| - 1 ==> StepValue(v[j]) == v[j + 1])
  }

  lemma {:induction false} FollowChain(v: seq<nat>, i: nat)
    requires Chain(v) && i < |v|
    ensures ShiftN(v[0], i) == v[i]
  {
    if i > 0 {
      FollowChain(v, i - 1);
      ShiftValue(v[i - 1]);
    }
  }

  lemma Values1()
    ensures Chain([0xFFFFFF, 0x7FFF9D, 0xFFFF3A, 0x7FFE17, 0xFFFC2E])
  {
    assert StepValue(0xFFFFFF) == 0x7FFF9D;
    assert StepValue(0x7FFF9D) == 0xFFFF3A;
    assert StepValue(0xFFFF3A) == 0x7FFE17;
    assert StepValue(0x7FFE17) == 0xFFFC2E;
  }

  lemma Values2()
    ensures Chain([0xFFFC2E, 0x7FF83F, 0xFFF07E, 0x7FE09F, 0xFFC13E])
  {
    assert StepValue(0xFFFC2E) == 0x7FF83F;
    assert StepValue(0x7FF83F) == 0xFFF07E;
    assert StepValue(0xFFF07E) == 0x7FE09F;
    assert StepValue(0x7FE09F) == 0xFFC13E;
  }

  lemma Values3()
    ensures Chain([0xFFC13E, 0x7F821F, 0xFF043E, 0x7E081F, 0xFC103E])
  {
    assert StepValue(0xFFC13E) == 0x7F821F;
    assert StepValue(0x7F821F) == 0xFF043E;
    assert StepValue(0xFF043E) == 0x7E081F;
    assert StepValue(0x7E081F) == 0xFC103E;
  }

  lemma Values4()
    ensures Chain([0xFC103E, 0x78201F, 0xF0403E, 0x60801F, 0xC1003E])
  {
    assert StepValue(0xFC103E) == 0x78201F;
    assert StepValue(0x78201F) == 0xF0403E;
    assert StepValue(0xF0403E) == 0x60801F;
    assert StepValue(0x60801F) == 0xC1003E;
  }

  lemma Values5()
    ensures Chain([0xC1003E, 0x2001F, 0x4003E, 0x8007C, 0x1000F8])
  {
    assert StepValue(0xC1003E) == 0x2001F;
    assert StepValue(0x2001F) == 0x4003E;
    assert StepValue(0x4003E) == 0x8007C;
    assert StepValue(0x8007C) == 0x1000F8;
  }

  lemma Values6()
    ensures Chain([0x1000F8, 0x2001F0, 0x4003E0, 0x8007C0, 0x800FE3])
  {
    assert StepValue(0x1000F8) == 0x2001F0;
    assert StepValue(0x2001F0) == 0x4003E0;
    assert StepValue(0x4003E0) == 0x8007C0;
    assert StepValue(0x8007C0) == 0x800FE3;
  }

  lemma JoinChains(u: seq<nat>, v: seq<nat>)
    requires |u| > 0 && |v| > 0 && Chain(u) && Chain(v) && u[|u| - 1] == v[0]
    ensures Chain(u + v[1..])
  {
    var w := u + v[1..];
    forall j | 0 <= j < |w| - 1
      ensures StepValue(w[j]) == w[j + 1]
    {
      if j >= |u| - 1 { assert w[j] == v[j - (|u| - 1)] && w[j + 1] == v[j + 1 - (|u| - 1)]; }
    }
  }

  lemma EightSteps(u: seq<nat>, v: seq<nat>)
    requires |u| == |v| == 5 && Chain(u) && Chain(v) && u[4] == v[0]
    ensures ShiftN(u[0], 8) == v[4]
  {
    JoinChains(u, v);
    FollowChain(u + v[1..], 8);
  }

  lemma CheckSteps()
    ensures ShiftN(0xFFFFFF, 8) == 0xFFC13E && ShiftN(0xFFC13E, 8) == 0xC1003E && ShiftN(0xC1003E, 8) == 0x800FE3
  {
    Values1(); Values2(); Values3(); Values4(); Values5(); Values6();
    EightSteps([0xFFFFFF, 0x7FFF9D, 0xFFFF3A, 0x7FFE17, 0xFFFC2E], [0xFFFC2E, 0x7FF83F, 0xFFF07E, 0x7FE09F, 0xFFC13E]);
    EightSteps([0xFFC13E, 0x7F821F, 0xFF043E, 0x7E081F, 0xFC103E], [0xFC103E, 0x78201F, 0xF0403E, 0x60801F, 0xC1003E]);
    EightSteps([0xC1003E, 0x2001F, 0x4003E, 0x8007C, 0x1000F8], [0x1000F8, 0x2001F0, 0x4003E0, 0x8007C0, 0x800FE3]);
  }

  /** 8, 16 and 24 steps from all ones. */
  lemma CheckValue(ones: nat)
    requires ones == ONES
    ensures ShiftN(ones, 8) == 0xFFC13E
    ensures ShiftN(ones, 16) == 0xC1003E
    ensures ShiftN(ones, 24) == CHECK_CONSTANT
  {
    CheckSteps();
    ShiftNCompose(ones, 8, 8);
    ShiftNCompose(ones, 16, 8);
  }

  // ----- the main results -----

  /** The three bytes fixmod writes for a register value. */
  function CrcBytes(crc: nat): seq<byte> {
    [crc / 0x1_0000 % 256, crc / 0x100 % 256, crc % 256]
  }

  lemma BytesOf(a: byte, b: byte, c: byte, crc: nat)
    requires Is24(crc)
    ensures 0x1_0000 * (a as int) + 0x100 * (b as int) + c == crc
            <==> a == crc / 0x1_0000 % 256 && b == crc / 0x100 % 256 && c == crc % 256
  {
    var high := crc / 0x100;
    LowByte(crc, high, 0x100 * (a as int) + b, c);
    LowByte(high, high / 0x100, a, b);
    assert crc / 0x1_0000 == high / 0x100 < 256;
  }

  lemma LowByte(x: nat, q: nat, p: int, c: byte)
    requires q == x / 0x100
    ensures x == 0x100 * q + x % 0x100
    ensures 0x100 * p + c == x ==> p == q && c == x % 0x100
  {
  }

  lemma WordOfCrcBytes(w: seq<byte>, crc: nat)
    requires |w| == 3 && Is24(crc)
    ensures Word(w) == crc <==> w == CrcBytes(crc)
  {
    WordValue(w);
    BytesOf(w[0], w[1], w[2], crc);
  }

  /** Two registers that differ by v reach the same value only if v makes up the difference. */
  lemma ReachesOnly(r: nat, v: nat, target: nat, n: nat)
    requires Is24(r) && Is24(v) && Is24(target)
    ensures ShiftN(Xor(r, v), n) == ShiftN(target, n) <==> v == Xor(r, target)
  {
    var m := Xor(r, v);
    XorIs24(r, v);
    XorComm(r, v);
    XorComm(r, target);
    XorCancel(v, r);
    XorCancel(target, r);
    if ShiftN(m, n) == ShiftN(target, n) { ShiftNInjective(m, target, n); }
  }

  lemma ThreeBytesReach(r: nat, w: seq<byte>, target: nat, c: nat)
    requires Is24(r) && |w| == 3 && Is24(target) && c == ShiftN(target, 24)
    ensures Register(r, w) == c <==> w == CrcBytes(Xor(r, target))
  {
    FeedThree(r, w);
    WordValue(w);
    ReachesOnly(r, Word(w), target, 24);
    XorIs24(r, target);
    WordOfCrcBytes(w, Xor(r, target));
  }

  /** Masking a register changes nothing. */
  lemma Masked(data: seq<byte>)
    ensures Register(ONES, data) % TOP == Register(ONES, data)
  {
    RegisterIs24(ONES, data);
  }

  /** The checker sees the constant exactly when the last three bytes are what the fixer
      computes for everything before them. */
  lemma CheckIffFixed(p: seq<byte>, w: seq<byte>)
    requires |w| == 3
    ensures Register(ONES, p + w) % TOP == CHECK_CONSTANT
            <==> w == CrcBytes(Xor(Register(ONES, p) % TOP, ONES))
  {
    Masked(p + w);
    Masked(p);
    RegisterIs24(ONES, p);
    assert Register(ONES, p + w) == CHECK_CONSTANT <==> w == CrcBytes(Xor(Register(ONES, p), ONES)) by {
      RegisterAppend(ONES, p, w);
      var ones := ONES;
      CheckValue(ones);
      ThreeBytesReach(Register(ones, p), w, ones, CHECK_CONSTANT);
    }
  }

  /** A register cannot come out the same from two different windows of three bytes. */
  lemma ThreeInjective(r: nat, w: seq<byte>, w': seq<byte>)
    requires Is24(r) && |w| == |w'| == 3 && Register(r, w) == Register(r, w')
    ensures w == w'
  {
    FeedThree(r, w);
    FeedThree(r, w');
    WordValue(w);
    WordValue(w');
    var v, v' := Word(w), Word(w');
    XorIs24(r, v);
    XorIs24(r, v');
    ShiftNInjective(Xor(r, v), Xor(r, v'), 24);
    XorComm(r, v);
    XorComm(r, v');
    XorInjective(v, v', r);
    WordOfCrcBytes(w, v);
    WordOfCrcBytes(w', v);
  }

  lemma {:induction false} WindowInjective(r: nat, w: seq<byte>, w': seq<byte>)
    requires Is24(r) && |w| == |w'| <= 3 && Register(r, w) == Register(r, w')
    ensures w == w'
    decreases 3 - |w|
  {
    if |w| < 3 {
      RegisterAppend(r, w, [0]);
      RegisterAppend(r, w', [0]);
      WindowInjective(r, w + [0], w' + [0]);
      assert (w + [0])[..|w|] == w && (w' + [0])[..|w|] == w';
    } else {
      ThreeInjective(r, w, w');
    }
  }

  lemma {:induction false} RegisterInjective(r: nat, r': nat, q: seq<byte>)
    requires Is24(r) && Is24(r') && Register(r, q) == Register(r', q)
    ensures r == r'
  {
    if q != [] {
      var t, t', b := Register(r, q[..|q| - 1]), Register(r', q[..|q| - 1]), q[|q| - 1];
      RegisterIs24(r, q[..|q| - 1]);
      RegisterIs24(r', q[..|q| - 1]);
      XorIs24(t, Top(b));
      XorIs24(t', Top(b));
      ShiftNInjective(Xor(t, Top(b)), Xor(t', Top(b)), 8);
      XorInjective(t, t', Top(b));
      RegisterInjective(r, r', q[..|q| - 1]);
    }
  }

  lemma WindowChanges(ones: nat, p: seq<byte>, w: seq<byte>, w': seq<byte>, q: seq<byte>)
    requires Is24(ones) && |w| == |w'| <= 3 && w != w'
    ensures Register(ones, p + w + q) != Register(ones, p + w' + q)
  {
    RegisterAppend(ones, p + w, q);
    RegisterAppend(ones, p + w', q);
    RegisterAppend(ones, p, w);
    RegisterAppend(ones, p, w');
    RegisterIs24(ones, p);
    var r := Register(ones, p);
    RegisterIs24(r, w);
    RegisterIs24(r, w');
    if Register(Register(r, w), q) == Register(Register(r, w'), q) {
      RegisterInjective(Register(r, w), Register(r, w'), q);
      WindowInjective(r, w, w');
    }
  }

  /** Any change confined to three consecutive bytes (a single byte in particular) changes
      the module CRC. */
  lemma BurstChangesCrc(p: seq<byte>, w: seq<byte>, w': seq<byte>, q: seq<byte>)
    requires |w| == |w'| <= 3 && w != w'
    ensures Xor(Register(ONES, p + w + q) % TOP, ONES) != Xor(Register(ONES, p + w' + q) % TOP, ONES)
  {
    var a, a' := Register(ONES, p + w + q), Register(ONES, p + w' + q);
    Masked(p + w + q);
    Masked(p + w' + q);
    WindowChanges(ONES, p, w, w', q);
    if Xor(a, ONES) == Xor(a', ONES) { XorInjective(a, a', ONES); }
  }
}
