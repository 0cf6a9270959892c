/** Images that meet what DiskImage asks of one, on which the boot file has to grow: one that lists no
    segment, one whose only segment is the sector behind the descriptor, and one with two segments. */
module SafeImage {
  import opened Bytes
  import opened DiskImage
  import opened Sets

  const BYTES := (FD_LSN + 1) * SECTOR
  const FD_AT := FD_LSN * SECTOR
  const MAP := 4430
  const FD_BYTE := 4401

  /** What the descriptor lists. */
  datatype Listing = Nothing | SectorBehind | TwoSegments

  /** Clusters of 16 sectors, the bitmap behind the header; the cluster of header and bitmap and the
      cluster of the descriptor are marked, and those of the two segments if they are listed. */
  function ByteAt(p: nat, l: Listing): byte {
    if p == 4 then 0x11 else if p == 5 then 0x4E else if p == 7 then 16 else if p == 103 then 1
    else if p == SECTOR || p == SECTOR + FD_BYTE then 0x80
    else match l
      case Nothing => 0
      case SectorBehind =>
        if p == FD_AT + 16 then 0x08 else if p == FD_AT + 17 then 0x98 else if p == FD_AT + 18 then 0x81
        else if p == FD_AT + 20 then 1
        else 0
      case TwoSegments =>
        if p == SECTOR + 12 then 0x08 else if p == SECTOR + 125 then 0x80
        else if p == FD_AT + 17 then 0x06 else if p == FD_AT + 18 then 0x40 else if p == FD_AT + 20 then 16
        else if p == FD_AT + 22 then 0x3E else if p == FD_AT + 23 then 0x80 else if p == FD_AT + 25 then 16
        else 0
  }

  function Image(l: Listing): (d: seq<byte>)
    ensures |d| == BYTES && forall p :: 0 <= p < BYTES ==> d[p] == ByteAt(p, l)
  {
    seq(BYTES, p requires 0 <= p < BYTES => ByteAt(p, l))
  }

  lemma {:induction false} BeZeros(s: seq<byte>)
    requires forall i :: 0 <= i < |s| ==> s[i] == 0
    ensures Be(s) == 0
  {
    if s != [] { BeZeros(s[..|s| - 1]); }
  }

  lemma BeLow(s: seq<byte>, n: nat)
    requires 1 <= n <= |s| && forall i :: 0 <= i < |s| - n ==> s[i] == 0
    requires n <= 2
    ensures Be(s) == if n == 1 then s[|s| - 1] as int else 256 * (s[|s| - 2] as int) + s[|s| - 1]
  {
    var init := s[..|s| - 1];
    if n == 1 {
      BeZeros(init);
    } else {
      BeZeros(init[..|init| - 1]);
      assert Be(init) == 256 * Be(init[..|init| - 1]) + init[|init| - 1];
    }
  }

  lemma ImageHeader(d: seq<byte>, listing: Listing)
    requires d == Image(listing)
    ensures MapBytes(d) == MAP && ClusterSize(d) == 16 && MapLsn(d) == 1
  {
    var h := ReadAt(d, 0, SECTOR);
    assert h == d[0..SECTOR];
    assert h[4] == 0x11 && h[5] == 0x4E && h[6] == 0 && h[7] == 16;
    assert h[100] == 0 && h[101] == 0 && h[102] == 0 && h[103] == 1;
    assert Slice(h, 4, 6) == [0x11, 0x4E];
    assert Slice(h, 6, 8) == [0, 16];
    assert Slice(h, 100, 104) == [0, 0, 0, 1];
    BeLow([0x11, 0x4E], 2);
    BeLow([0, 16], 1);
    BeLow([0, 0, 0, 1], 1);
  }

  lemma ImageTable(d: seq<byte>)
    requires d == Image(Nothing)
    ensures SegsOf(d) == [] && SegCount(Table(FdOf(d), ENTRIES)) == 0
  {
    var fd := FdOf(d);
    assert fd == d[FD_AT..BYTES];
    var t := Table(fd, ENTRIES);
    forall i | 0 <= i < ENTRIES
      ensures t[i].cnt == 0
    {
      EntryZero(fd, i);
    }
    UsedHead(t, 0);
    assert t[..0] == [];
    CountHead(t, 0);
  }

  lemma SliceZeros(s: seq<byte>, lo: nat, hi: nat)
    requires forall i :: 0 <= i < |s| ==> s[i] == 0
    ensures forall i :: 0 <= i < |Slice(s, lo, hi)| ==> Slice(s, lo, hi)[i] == 0
  {
  }

  lemma EntryZero(fd: seq<byte>, i: nat)
    requires |fd| == SECTOR && forall p :: 16 + 5 * i <= p < |fd| ==> fd[p] == 0
    ensures EntryAt(fd, i).cnt == 0
  {
    var e := Slice(fd, 16 + 5 * i, 16 + 5 * (i + 1));
    SliceZeros(e, 3, 5);
    BeZeros(Slice(e, 3, 5));
  }

  lemma {:induction false} CountHead(t: seq<Seg>, k: nat)
    requires k <= |t| && forall i :: k <= i < |t| ==> t[i].cnt == 0
    requires k > 0 ==> t[k - 1].cnt > 0
    ensures SegCount(t) == k
  {
    if k < |t| { CountHead(t[..|t| - 1], k); }
  }

  lemma ImageMap(d: seq<byte>, listing: Listing)
    requires d == Image(listing)
    ensures var bits := MapOf(d);
            && |bits| == MAP && Used(bits, 0) && Used(bits, FD_LSN / 16) && !Used(bits, 1)
            && (forall j :: 0 <= j < MAP ==> bits[j] == ByteAt(SECTOR + j, listing))
            && (listing != TwoSegments ==> forall j :: 1 <= j < MAP && j != FD_BYTE ==> bits[j] == 0)
  {
    ImageHeader(d, listing);
    var bits := MapOf(d);
    assert bits == d[SECTOR..SECTOR + MAP];
    assert bits[0] == 0x80 && bits[FD_BYTE] == 0x80;
    HighBit(0x80);
    assert FD_LSN / 16 == 8 * FD_BYTE;
    assert !Bit(0x80, 6) by {
      assert Bit(0x80, 6) == Bit(0x40, 5) == Bit(0x20, 4) == Bit(0x10, 3) == Bit(8, 2) == Bit(4, 1) == Bit(2, 0);
    }
  }

  lemma HighBit(b: nat)
    requires b == 0x80
    ensures Bit(b, 7)
  {
    assert Bit(b, 7) == Bit(b / 2, 6) == Bit(b / 4, 5) == Bit(b / 8, 4) == Bit(b / 16, 3) == Bit(b / 32, 2)
           == Bit(b / 64, 1) == Bit(b / 128, 0);
  }

  lemma ImageReserved(d: seq<byte>)
    requires d == Image(Nothing)
    ensures MapReserved(d)
  {
    ImageHeader(d, Nothing);
    ImageTable(d);
    ImageMap(d, Nothing);
    var l := LayoutOf(d);
    forall p: nat | p < SECTOR + MAP
      ensures Reserved(l, p)
    {
      assert p / SECTOR < 16 && p / SECTOR / 16 == 0;
    }
  }

  lemma RoomForOne(l: Layout)
    requires l.ratio == 16 && UsedIn(l.table) == [] && |l.bits| == MAP && !Used(l.bits, 1)
    ensures Growth(l, 1) == 1 && !Short(l, 1)
  {
    assert 1 in FreeFrom(l.bits, 0);
    SubsetSize({1}, FreeFrom(l.bits, 0));
  }

  /** The conditions of the update theorems can all be met at once, with a file that has to grow and
      space for it. */
  lemma SafeImageExists()
    ensures var d := Image(Nothing);
            Safe(d, 1) && MapReserved(d) && Capacity(SegsOf(d)) < 1 && !Short(LayoutOf(d), 1)
  {
    var d := Image(Nothing);
    ImageHeader(d, Nothing);
    ImageTable(d);
    ImageMap(d, Nothing);
    ImageReserved(d);
    RoomForOne(LayoutOf(d));
    SafeEmpty(LayoutOf(d), 1);
  }

  lemma SafeEmpty(l: Layout, size: nat)
    requires l.ratio == 16 && |l.bits| == MAP && Used(l.bits, FD_LSN / 16)
    requires |l.table| == ENTRIES && UsedIn(l.table) == []
    ensures SafeBesides(l, size)
  {
  }

  // ----- a file that needs more entries than the table has -----

  const LARGE := 49 * 16 * SECTOR

  /** The clusters first, first + 1, ..., n of them. */
  function Run(first: nat, n: nat): set<nat> {
    if n == 0 then {} else Run(first, n - 1) + {first + n - 1}
  }

  lemma {:induction false} RunFacts(first: nat, n: nat)
    ensures |Run(first, n)| == n && forall x :: x in Run(first, n) ==> first <= x < first + n
  {
    if n > 0 { RunFacts(first, n - 1); }
  }

  lemma {:induction false} NoBits(k: nat)
    ensures !Bit(0, k)
  {
    if k > 0 { NoBits(k - 1); }
  }

  lemma ManyFree(bits: seq<byte>, first: nat, start: nat, n: nat)
    requires |bits| == MAP && first <= start && 8 <= start && start + n <= 8 * MAP
    requires forall j :: 1 <= j < MAP && j != FD_BYTE ==> bits[j] == 0
    requires start + n <= 8 * FD_BYTE || 8 * FD_BYTE + 8 <= start
    ensures |FreeFrom(bits, first)| >= n
  {
    RunFacts(start, n);
    forall x | x in Run(start, n)
      ensures x in FreeFrom(bits, first)
    {
      assert 1 <= x / 8 < MAP && x / 8 != FD_BYTE;
      NoBits(7 - x % 8);
    }
    SubsetSize(Run(start, n), FreeFrom(bits, first));
  }

  /** On the same image a file of 49 clusters finds space, though not in the segment table. */
  lemma OverrunHappens()
    ensures var d := Image(Nothing);
            && SafeApart(d, LARGE) && !Short(LayoutOf(d), LARGE)
            && !Fits(LayoutOf(d), LARGE) && InsideSector(LayoutOf(d), LARGE)
            && Fits(LayoutOf(d), LARGE - 16 * SECTOR)
  {
    var d := Image(Nothing);
    ImageHeader(d, Nothing);
    ImageTable(d);
    ImageMap(d, Nothing);
    OverrunLayout(LayoutOf(d));
    SafeEmpty(LayoutOf(d), LARGE);
  }

  /** So the update reports success, and whoever reads the image afterwards gets too little. */
  method LoseFile(boot: seq<byte>) returns (r: Result, after: seq<byte>)
    requires |boot| == LARGE
    ensures r == Done && |FileIn(after)| < |boot|
  {
    OverrunHappens();
    var disk := new Disk(Image(Nothing));
    ghost var taken;
    r, taken := disk.Update(boot);
    after := disk.data;
  }

  lemma OverrunLayout(l: Layout)
    requires l.ratio == 16 && UsedIn(l.table) == [] && SegCount(l.table) == 0 && |l.bits| == MAP
    requires forall j :: 1 <= j < MAP && j != FD_BYTE ==> l.bits[j] == 0
    ensures !Fits(l, LARGE) && !Short(l, LARGE) && InsideSector(l, LARGE) && Fits(l, LARGE - 16 * SECTOR)
  {
    assert NeededClusters(LARGE, 16) == 49 && NeededClusters(LARGE - 16 * SECTOR, 16) == 48;
    ManyFree(l.bits, 0, 8, 49);
  }

  // ----- a file that starts behind the descriptor -----

  const HUGE := SECTOR + 100 * 16 * SECTOR
  const BEHIND := Seg(FD_LSN + 1, 1)

  lemma ListedEntry(fd: seq<byte>)
    requires |fd| == SECTOR && fd[16..21] == [0x08, 0x98, 0x81, 0, 1]
    ensures EntryAt(fd, 0) == BEHIND
  {
    assert Slice(fd, 16, 21) == fd[16..21];
    assert Slice(fd[16..21], 0, 3) == [0x08, 0x98, 0x81];
    assert Slice(fd[16..21], 3, 5) == [0, 1];
    BeLow([0x08, 0x98], 2);
    assert Be([0x08, 0x98, 0x81]) == 256 * Be([0x08, 0x98]) + 0x81 by {
      assert [0x08, 0x98, 0x81][..2] == [0x08, 0x98];
    }
    BeLow([0, 1], 1);
  }

  lemma ListedTable(d: seq<byte>)
    requires d == Image(SectorBehind)
    ensures SegsOf(d) == [BEHIND] && SegCount(Table(FdOf(d), ENTRIES)) == 1
  {
    var fd := FdOf(d);
    assert fd == d[FD_AT..BYTES];
    assert fd[16] == 0x08 && fd[17] == 0x98 && fd[18] == 0x81 && fd[19] == 0 && fd[20] == 1;
    assert fd[16..21] == [fd[16], fd[17], fd[18], fd[19], fd[20]];
    ListedEntry(fd);
    var t := Table(fd, ENTRIES);
    forall i | 1 <= i < ENTRIES
      ensures t[i].cnt == 0
    {
      EntryZero(fd, i);
    }
    UsedHead(t, 1);
    assert t[..1] == [BEHIND];
    assert UsedIn([BEHIND][..0]) == [];
    CountHead(t, 1);
  }

  lemma ListedLayout(l: Layout)
    requires l.ratio == 16 && |l.bits| == MAP && Used(l.bits, FD_LSN / 16)
    requires |l.table| == ENTRIES && UsedIn(l.table) == [BEHIND] && SegCount(l.table) == 1
    requires forall j :: 1 <= j < MAP && j != FD_BYTE ==> l.bits[j] == 0
    ensures SafeBesides(l, HUGE) && !Short(l, HUGE) && !InsideSector(l, HUGE)
    ensures Growth(l, HUGE) == 100 && SearchFrom(UsedIn(l.table), l.ratio) == 8 * FD_BYTE
  {
    assert Capacity([BEHIND]) == SECTOR + Capacity([BEHIND][1..]);
    assert NeededClusters(100 * 16 * SECTOR, 16) == 100;
    ManyFree(l.bits, 8 * FD_BYTE, 8 * FD_BYTE + 8, 100);
  }

  lemma ListedSafe(d: seq<byte>)
    requires d == Image(SectorBehind)
    ensures SafeApart(d, HUGE) && !Short(LayoutOf(d), HUGE) && !InsideSector(LayoutOf(d), HUGE)
    ensures var l := LayoutOf(d);
            && l.ratio == 16 && |l.bits| == MAP && UsedIn(l.table) == [BEHIND] && SegCount(l.table) == 1
            && Growth(l, HUGE) == 100 && SearchFrom(UsedIn(l.table), l.ratio) == 8 * FD_BYTE
  {
    ImageHeader(d, SectorBehind);
    ListedTable(d);
    ImageMap(d, SectorBehind);
    ListedLayout(LayoutOf(d));
  }

  /** The middle byte of the sector number of any cluster behind the descriptor's. */
  lemma MiddleByte(c: nat)
    requires 8 * FD_BYTE <= c < 8 * MAP
    ensures EntryBytes(Seg(16 * c, 16))[1] != 0
  {
    var n := 16 * c;
    assert ToBe(n, 3) == ToBe(n / 256, 2) + [n % 256] && ToBe(n / 256, 2) == ToBe(n / 65536, 1) + [n / 256 % 256];
  }

  lemma OverrunByte(fd: seq<byte>, taken: seq<nat>, size: nat)
    requires |fd| == SECTOR && |taken| == 100 && 8 * FD_BYTE <= taken[98] < 8 * MAP
    ensures var fd' := NewFd(fd, 1, ClusterSegs(taken, 16), size); |fd'| > SECTOR && fd'[SECTOR] != 0
  {
    var added := ClusterSegs(taken, 16);
    ExtendedLength(fd, 1, added);
    ExtendedByte(fd, 1, added, 98, 1);
    assert added[98] == Seg(16 * taken[98], 16);
    MiddleByte(taken[98]);
    AssignAt(Extended(fd, 1, added), 9, ToBe(size, 4));
  }

  lemma StartsBehind(l: Layout, taken: seq<nat>)
    requires UsedIn(l.table) == [BEHIND]
    ensures GrownSegs(l, taken) != [] && GrownSegs(l, taken)[0] == BEHIND
  {
  }

  /** The descriptor as written puts a byte other than 0 where the file begins. */
  lemma LostByte(d: seq<byte>, taken: seq<nat>, boot: seq<byte>)
    requires d == Image(SectorBehind) && Chosen(LayoutOf(d), HUGE, taken) && |boot| == HUGE && boot[0] == 0
    ensures !Agrees(NewSegs(d, taken), boot, NewFdOf(d, taken, HUGE))
  {
    ListedSafe(d);
    OverrunByte(FdOf(d), taken, HUGE);
    StartsBehind(LayoutOf(d), taken);
    FirstByteLost(NewSegs(d, taken), boot, NewFdOf(d, taken, HUGE));
  }

  /** Here the update destroys its own file, and the read-back notices. */
  method VerifyFails(boot: seq<byte>) returns (r: Result)
    requires |boot| == HUGE && boot[0] == 0
    ensures r == VerifyFailed
  {
    ListedSafe(Image(SectorBehind));
    var disk := new Disk(Image(SectorBehind));
    ghost var taken;
    r, taken := disk.Update(boot);
    LostByte(Image(SectorBehind), taken, boot);
  }

  // ----- a file of two segments -----

  const FIRST := Seg(1600, 16)
  const LAST := Seg(16000, 16)
  const GROWN := 2 * 16 * SECTOR + 1

  lemma TwoTable(d: seq<byte>)
    requires d == Image(TwoSegments)
    ensures SegsOf(d) == [FIRST, LAST] && SegCount(Table(FdOf(d), ENTRIES)) == 2
  {
    var fd := FdOf(d);
    assert fd == d[FD_AT..BYTES];
    assert fd[16] == 0 && fd[17] == 0x06 && fd[18] == 0x40 && fd[19] == 0 && fd[20] == 16;
    assert fd[21] == 0 && fd[22] == 0x3E && fd[23] == 0x80 && fd[24] == 0 && fd[25] == 16;
    EntryTold(fd, 0);
    EntryTold(fd, 1);
    var t := Table(fd, ENTRIES);
    assert t[0] == FIRST && t[1] == LAST;
    forall i | 2 <= i < ENTRIES
      ensures t[i].cnt == 0
    {
      EntryZero(fd, i);
    }
    UsedHead(t, 2);
    UsedTwo(t[..2]);
    CountHead(t, 2);
  }

  lemma UsedTwo(t: seq<Seg>)
    requires |t| == 2 && t[0].cnt > 0 && t[1].cnt > 0
    ensures UsedIn(t) == [t[0], t[1]]
  {
    UsedAll(t);
  }

  /** Cluster 1001 is the lowest free one from the cluster of the last segment on, though 101, behind the
      first one, is free too. */
  lemma TwoMap(bits: seq<byte>)
    requires |bits| == MAP && bits[12] == 0x08 && bits[125] == 0x80
    ensures Used(bits, 100) && !Used(bits, 101) && Used(bits, 1000) && !Used(bits, 1001)
  {
    HighBit(0x80);
    assert Bit(0x08, 3) == Bit(0x04, 2) == Bit(0x02, 1) == Bit(0x01, 0);
    assert Bit(0x08, 2) == Bit(0x04, 1) == Bit(0x02, 0);
    assert Bit(0x80, 6) == Bit(0x40, 5) == Bit(0x20, 4) == Bit(0x10, 3) == Bit(8, 2) == Bit(4, 1) == Bit(2, 0);
  }

  lemma TwoLayout(l: Layout)
    requires l.ratio == 16 && |l.bits| == MAP && l.bits[12] == 0x08 && l.bits[125] == 0x80
    requires |l.table| == ENTRIES && UsedIn(l.table) == [FIRST, LAST] && SegCount(l.table) == 2
    requires Used(l.bits, FD_LSN / 16)
    ensures SafeBesides(l, GROWN) && Fits(l, GROWN) && !Short(l, GROWN) && Chosen(l, GROWN, [1001])
  {
    TwoMap(l.bits);
    assert Capacity([FIRST, LAST]) == 16 * SECTOR + Capacity([LAST]) by { assert [FIRST, LAST][1..] == [LAST]; }
    assert Capacity([LAST]) == 16 * SECTOR + Capacity([]) by { assert [LAST][1..] == []; }
    assert NeededClusters(1, 16) == 1;
    ShortIff(l, GROWN);
    var free := set c: nat | c < 8 * |l.bits| && FromLast(l, c) && !Used(l.bits, c);
    assert 1001 in free;
    SubsetSize({1001}, free);
  }

  lemma TwoSafe(d: seq<byte>)
    requires d == Image(TwoSegments)
    ensures Safe(d, GROWN) && !Short(LayoutOf(d), GROWN) && Chosen(LayoutOf(d), GROWN, [1001])
    ensures NewSegs(d, [1001]) == [FIRST, LAST, Seg(16016, 16)]
  {
    ImageHeader(d, TwoSegments);
    ImageMap(d, TwoSegments);
    TwoTable(d);
    TwoLayout(LayoutOf(d));
    TwoGrown(LayoutOf(d));
  }

  lemma TwoGrown(l: Layout)
    requires l.ratio == 16 && UsedIn(l.table) == [FIRST, LAST]
    ensures GrownSegs(l, [1001]) == [FIRST, LAST, Seg(16016, 16)]
  {
    assert ClusterSegs([1001], 16) == [Seg(16016, 16)];
  }

  /** So the file grows by that cluster. */
  method GrowBehindLast(boot: seq<byte>) returns (r: Result, after: seq<byte>)
    requires |boot| == GROWN
    ensures r == Done && FileIn(after) == boot && SegsOf(after) == [FIRST, LAST, Seg(16016, 16)]
  {
    ghost var d := Image(TwoSegments);
    TwoSafe(d);
    var disk := new Disk(Image(TwoSegments));
    ghost var taken;
    r, taken := disk.Update(boot);
    ChosenUnique(LayoutOf(d), GROWN, taken, [1001]);
    after := disk.data;
  }

  // ----- space that is not looked at -----

  /** Free clusters below the last segment do not count: if all from there on are used, the update
      reports lack of space however many are free below. */
  lemma SpaceBelowIgnored(l: Layout, size: nat)
    requires l.ratio > 0 && size > Capacity(UsedIn(l.table))
    requires forall c: nat :: FromLast(l, c) && c < 8 * |l.bits| ==> Used(l.bits, c)
    ensures Short(l, size)
  {
    ShortIff(l, size);
    assert (set c: nat | c < 8 * |l.bits| && FromLast(l, c) && !Used(l.bits, c)) == {};
    NoSpareCluster(size - Capacity(UsedIn(l.table)), l.ratio, 0);
  }
}
