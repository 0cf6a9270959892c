/** update_hda.py: put a boot file into a disk image, growing its segment list from the allocation
    bitmap where needed, and read it back. */
module DiskImage {
  import opened Bytes
  import opened Sets

  const SECTOR := 512
  const FD_LSN := 563328

  datatype Seg = Seg(lsn: nat, cnt: nat)

  // ----- the image as a file -----

  /** The byte at p, or -1 beyond the end. */
  function Get(d: seq<byte>, p: nat): int { if p < |d| then d[p] else -1 }

  function Zeros(n: nat): (z: seq<byte>)
    ensures |z| == n && forall i :: 0 <= i < n ==> z[i] == 0
  {
    seq(n, _ => 0)
  }

  function ReadAt(d: seq<byte>, off: nat, n: nat): seq<byte> { Slice(d, off, off + n) }

  /** seek and write: a gap behind the old end is filled with zeros. */
  function WriteAt(d: seq<byte>, off: nat, v: seq<byte>): (r: seq<byte>)
    ensures |r| >= |d|
  {
    if v == [] then d
    else
      var e := if |d| < off then d + Zeros(off - |d|) else d;
      e[..off] + v + (if off + |v| < |e| then e[off + |v|..] else [])
  }

  lemma WriteGet(d: seq<byte>, off: nat, v: seq<byte>, p: nat)
    ensures off <= p < off + |v| ==> Get(WriteAt(d, off, v), p) == v[p - off]
    ensures !(off <= p < off + |v|) && p < |d| ==> Get(WriteAt(d, off, v), p) == d[p]
    ensures v != [] ==> |WriteAt(d, off, v)| == if |d| < off + |v| then off + |v| else |d|
    ensures v != [] && |d| <= p < off ==> Get(WriteAt(d, off, v), p) == 0
  {
  }

  /** A read depends only on the bytes it covers. */
  lemma ReadSame(d: seq<byte>, d': seq<byte>, off: nat, n: nat)
    requires off + n <= |d| && off + n <= |d'|
    requires forall p :: off <= p < off + n ==> Get(d, p) == Get(d', p)
    ensures ReadAt(d, off, n) == ReadAt(d', off, n)
  {
    forall k | 0 <= k < n
      ensures ReadAt(d, off, n)[k] == ReadAt(d', off, n)[k]
    {
      assert Get(d, off + k) == Get(d', off + k);
    }
  }

  lemma ReadWritten(d: seq<byte>, off: nat, v: seq<byte>)
    ensures ReadAt(WriteAt(d, off, v), off, |v|) == v
  {
  }

  // ----- segments -----

  /** Byte p lies in the segment. */
  predicate InSeg(s: Seg, p: nat) { s.lsn * SECTOR <= p < (s.lsn + s.cnt) * SECTOR }

  predicate SegsDisjoint(s: Seg, t: Seg) { s.lsn + s.cnt <= t.lsn || t.lsn + t.cnt <= s.lsn }

  predicate AllDisjoint(segs: seq<Seg>) {
    forall i, j :: 0 <= i < j < |segs| ==> SegsDisjoint(segs[i], segs[j])
  }

  predicate InAny(segs: seq<Seg>, p: nat) {
    exists i :: 0 <= i < |segs| && InSeg(segs[i], p)
  }

  function Capacity(segs: seq<Seg>): nat {
    if segs == [] then 0 else segs[0].cnt * SECTOR + Capacity(segs[1..])
  }

  function Min(a: nat, b: nat): nat { if a < b then a else b }

  /** The boot data cut over the segments, one after the other. */
  function WriteSegs(d: seq<byte>, segs: seq<Seg>, data: seq<byte>): (r: seq<byte>)
    ensures |r| >= |d|
    decreases |segs|
  {
    if segs == [] then d
    else
      var chunk := Min(|data|, segs[0].cnt * SECTOR);
      var d1 := WriteAt(d, segs[0].lsn * SECTOR, data[..chunk]);
      if |data| == chunk then d1 else WriteSegs(d1, segs[1..], data[chunk..])
  }

  /** What is read back for a given size. */
  function ReadSegs(d: seq<byte>, segs: seq<Seg>, size: nat): seq<byte>
    decreases |segs|
  {
    if segs == [] then []
    else
      var piece := ReadAt(d, segs[0].lsn * SECTOR, Min(size, segs[0].cnt * SECTOR));
      if |piece| >= size then piece else piece + ReadSegs(d, segs[1..], size - |piece|)
  }

  lemma NotInTail(segs: seq<Seg>, p: nat)
    requires segs != [] && !InAny(segs, p)
    ensures !InAny(segs[1..], p)
  {
    forall i | 0 <= i < |segs[1..]|
      ensures !InSeg(segs[1..][i], p)
    {
      assert segs[1..][i] == segs[i + 1];
    }
  }

  /** Writing segments leaves every other byte alone. */
  lemma {:induction false} WriteSegsFrame(d: seq<byte>, segs: seq<Seg>, data: seq<byte>, p: nat)
    requires p < |d| && !InAny(segs, p)
    ensures Get(WriteSegs(d, segs, data), p) == d[p]
    decreases |segs|
  {
    if segs != [] {
      var chunk := Min(|data|, segs[0].cnt * SECTOR);
      var d1 := WriteAt(d, segs[0].lsn * SECTOR, data[..chunk]);
      assert !InSeg(segs[0], p);
      WriteGet(d, segs[0].lsn * SECTOR, data[..chunk], p);
      if |data| != chunk {
        NotInTail(segs, p);
        WriteSegsFrame(d1, segs[1..], data[chunk..], p);
      }
    }
  }

  lemma DisjointBytes(s: Seg, t: Seg, p: nat)
    requires SegsDisjoint(s, t) && InSeg(s, p)
    ensures !InSeg(t, p)
  {
  }

  lemma HeadNotInTail(segs: seq<Seg>, p: nat)
    requires segs != [] && AllDisjoint(segs) && InSeg(segs[0], p)
    ensures !InAny(segs[1..], p)
  {
    forall i | 0 <= i < |segs[1..]|
      ensures !InSeg(segs[1..][i], p)
    {
      assert SegsDisjoint(segs[0], segs[i + 1]);
      DisjointBytes(segs[0], segs[i + 1], p);
    }
  }

  /** What a write leaves in the first segment is still there after the rest was written. */
  lemma HeadSurvives(d1: seq<byte>, segs: seq<Seg>, chunk: nat, rest: seq<byte>)
    requires segs != [] && AllDisjoint(segs) && chunk <= segs[0].cnt * SECTOR
    requires segs[0].lsn * SECTOR + chunk <= |d1|
    ensures ReadAt(WriteSegs(d1, segs[1..], rest), segs[0].lsn * SECTOR, chunk)
            == ReadAt(d1, segs[0].lsn * SECTOR, chunk)
  {
    var d2 := WriteSegs(d1, segs[1..], rest);
    forall p | segs[0].lsn * SECTOR <= p < segs[0].lsn * SECTOR + chunk
      ensures Get(d2, p) == Get(d1, p)
    {
      HeadNotInTail(segs, p);
      WriteSegsFrame(d1, segs[1..], rest, p);
    }
    ReadSame(d2, d1, segs[0].lsn * SECTOR, chunk);
  }

  /** d' holds everything that w holds in the segments. */
  ghost predicate KeepsSegs(w: seq<byte>, d': seq<byte>, segs: seq<Seg>) {
    |d'| >= |w| && forall p: nat :: p < |w| && InAny(segs, p) ==> Get(d', p) == Get(w, p)
  }

  lemma KeepsTail(w: seq<byte>, d': seq<byte>, segs: seq<Seg>)
    requires segs != [] && KeepsSegs(w, d', segs)
    ensures KeepsSegs(w, d', segs[1..])
  {
    forall p: nat | p < |w| && InAny(segs[1..], p)
      ensures Get(d', p) == Get(w, p)
    {
      var i :| 0 <= i < |segs[1..]| && InSeg(segs[1..][i], p);
      assert InSeg(segs[i + 1], p);
    }
  }

  lemma KeepsHead(w: seq<byte>, d': seq<byte>, segs: seq<Seg>, n: nat)
    requires segs != [] && KeepsSegs(w, d', segs)
    requires n <= segs[0].cnt * SECTOR && segs[0].lsn * SECTOR + n <= |w|
    ensures ReadAt(d', segs[0].lsn * SECTOR, n) == ReadAt(w, segs[0].lsn * SECTOR, n)
  {
    forall p | segs[0].lsn * SECTOR <= p < segs[0].lsn * SECTOR + n
      ensures Get(d', p) == Get(w, p)
    {
      assert InSeg(segs[0], p);
      assert InAny(segs, p);
    }
    ReadSame(d', w, segs[0].lsn * SECTOR, n);
  }

  /** Whatever is written over disjoint segments with enough room is read back unchanged, from
      any later image that kept the segments. */
  lemma {:induction false} WriteThenRead(d: seq<byte>, segs: seq<Seg>, data: seq<byte>, d': seq<byte>)
    requires AllDisjoint(segs) && |data| <= Capacity(segs)
    requires KeepsSegs(WriteSegs(d, segs, data), d', segs)
    ensures ReadSegs(d', segs, |data|) == data
    decreases |segs|
  {
    if segs != [] {
      var chunk := Min(|data|, segs[0].cnt * SECTOR);
      var w := WriteSegs(d, segs, data);
      if chunk > 0 { HeadRead(d, segs, data, d', chunk); }
      if |data| != chunk {
        var d1 := WriteAt(d, segs[0].lsn * SECTOR, data[..chunk]);
        KeepsTail(w, d', segs);
        assert w == WriteSegs(d1, segs[1..], data[chunk..]);
        assert AllDisjoint(segs[1..]) by { TailDisjoint(segs); }
        WriteThenRead(d1, segs[1..], data[chunk..], d');
      }
      ReadStep(d', segs, data, chunk);
    }
  }

  lemma TailDisjoint(segs: seq<Seg>)
    requires segs != [] && AllDisjoint(segs)
    ensures AllDisjoint(segs[1..])
  {
    forall i, j | 0 <= i < j < |segs[1..]|
      ensures SegsDisjoint(segs[1..][i], segs[1..][j])
    {
      assert SegsDisjoint(segs[i + 1], segs[j + 1]);
    }
  }

  lemma ReadStep(d': seq<byte>, segs: seq<Seg>, data: seq<byte>, chunk: nat)
    requires segs != [] && chunk == Min(|data|, segs[0].cnt * SECTOR)
    requires chunk > 0 ==> ReadAt(d', segs[0].lsn * SECTOR, chunk) == data[..chunk]
    requires |data| != chunk ==> ReadSegs(d', segs[1..], |data| - chunk) == data[chunk..]
    ensures ReadSegs(d', segs, |data|) == data
  {
    var piece, rest := data[..chunk], data[chunk..];
    if chunk == 0 { ReadNothing(d', segs[0].lsn * SECTOR); }
    ReadPieces(d', segs, |data|, chunk, piece, rest);
    CutAndJoin(data, chunk);
  }

  lemma ReadNothing(d: seq<byte>, off: nat)
    ensures ReadAt(d, off, 0) == []
  {
  }

  lemma ReadPieces(d: seq<byte>, segs: seq<Seg>, size: nat, chunk: nat, piece: seq<byte>, rest: seq<byte>)
    requires segs != [] && chunk == Min(size, segs[0].cnt * SECTOR)
    requires ReadAt(d, segs[0].lsn * SECTOR, chunk) == piece && |piece| == chunk
    requires if chunk >= size then rest == [] else ReadSegs(d, segs[1..], size - chunk) == rest
    ensures ReadSegs(d, segs, size) == piece + rest
  {
    if chunk >= size { assert piece + [] == piece; }
  }

  lemma CutAndJoin(data: seq<byte>, chunk: nat)
    requires chunk <= |data|
    ensures data[..chunk] + data[chunk..] == data
  {
  }

  lemma HeadRead(d: seq<byte>, segs: seq<Seg>, data: seq<byte>, d': seq<byte>, chunk: nat)
    requires segs != [] && AllDisjoint(segs) && chunk == Min(|data|, segs[0].cnt * SECTOR) && chunk > 0
    requires KeepsSegs(WriteSegs(d, segs, data), d', segs)
    ensures ReadAt(d', segs[0].lsn * SECTOR, chunk) == data[..chunk]
  {
    var off := segs[0].lsn * SECTOR;
    var d1 := WriteAt(d, off, data[..chunk]);
    WriteGet(d, off, data[..chunk], off);
    ReadWritten(d, off, data[..chunk]);
    if |data| != chunk { HeadSurvives(d1, segs, chunk, data[chunk..]); }
    KeepsHead(WriteSegs(d, segs, data), d', segs, chunk);
  }

  // ----- the file descriptor sector -----

  const ENTRIES := 48

  /** Entry i of the segment table: 3 bytes sector number, 2 bytes count. */
  function EntryAt(fd: seq<byte>, i: nat): Seg {
    var e := Slice(fd, 16 + 5 * i, 16 + 5 * (i + 1));
    Seg(Be(Slice(e, 0, 3)), Be(Slice(e, 3, 5)))
  }

  /** The whole table. */
  function Table(fd: seq<byte>, n: nat): (t: seq<Seg>)
    ensures |t| == n && forall i :: 0 <= i < n ==> t[i] == EntryAt(fd, i)
  {
    if n == 0 then [] else Table(fd, n - 1) + [EntryAt(fd, n - 1)]
  }

  /** The used entries of a table ... */
  function UsedIn(t: seq<Seg>): seq<Seg> {
    if t == [] then []
    else if t[|t| - 1].cnt > 0 then UsedIn(t[..|t| - 1]) + [t[|t| - 1]]
    else UsedIn(t[..|t| - 1])
  }

  /** ... and the index behind the last of them. */
  function SegCount(t: seq<Seg>): (k: nat)
    ensures k <= |t| && forall i :: k <= i < |t| ==> t[i].cnt == 0
  {
    if t == [] then 0 else if t[|t| - 1].cnt > 0 then |t| else SegCount(t[..|t| - 1])
  }

  method ParseSegs(fd: seq<byte>) returns (segs: seq<Seg>, segCount: nat)
    ensures segs == UsedIn(Table(fd, ENTRIES)) && segCount == SegCount(Table(fd, ENTRIES))
  {
    segs, segCount := [], 0;
    for i := 0 to ENTRIES
      invariant segs == UsedIn(Table(fd, i)) && segCount == SegCount(Table(fd, i))
    {
      var entry := EntryAt(fd, i);
      assert Table(fd, i + 1)[..i] == Table(fd, i);
      if entry.cnt > 0 {
        segs := segs + [entry];
        segCount := i + 1;
      }
    }
  }

  /** Slice assignment on a bytearray. */
  function Assign(s: seq<byte>, lo: nat, v: seq<byte>): seq<byte> {
    s[..Min(lo, |s|)] + v + s[Min(lo + |v|, |s|)..]
  }

  /** The five bytes of a table entry. */
  function EntryBytes(s: Seg): (e: seq<byte>)
    ensures |e| == 5
  {
    ToBe(s.lsn, 3) + ToBe(s.cnt, 2)
  }

  lemma AssignAt(fd: seq<byte>, lo: nat, v: seq<byte>)
    requires lo + |v| <= |fd|
    ensures |Assign(fd, lo, v)| == |fd| && Assign(fd, lo, v)[lo..lo + |v|] == v
    ensures forall p :: 0 <= p < |fd| && !(lo <= p < lo + |v|) ==> Assign(fd, lo, v)[p] == fd[p]
  {
  }

  lemma EntrySame(fd: seq<byte>, fd': seq<byte>, i: nat)
    requires |fd| == |fd'| && 16 + 5 * (i + 1) <= |fd|
    requires forall p :: 16 + 5 * i <= p < 16 + 5 * (i + 1) ==> fd'[p] == fd[p]
    ensures EntryAt(fd', i) == EntryAt(fd, i)
  {
    assert Slice(fd', 16 + 5 * i, 16 + 5 * (i + 1)) == Slice(fd, 16 + 5 * i, 16 + 5 * (i + 1));
  }

  /** The table with entries k, k+1, ... set to the new segments. */
  function Extended(fd: seq<byte>, k: nat, added: seq<Seg>): seq<byte>
    decreases |added|
  {
    if added == [] then fd else Extended(Assign(fd, 16 + 5 * k, EntryBytes(added[0])), k + 1, added[1..])
  }

  predicate Encodable(added: seq<Seg>) {
    forall j :: 0 <= j < |added| ==> added[j].lsn < 0x100_0000 && 0 < added[j].cnt < 0x1_0000
  }

  lemma AssignBehind(fd: seq<byte>, lo: nat, v: seq<byte>, p: nat)
    requires p < lo && p < |fd|
    ensures |Assign(fd, lo, v)| >= |fd| && Assign(fd, lo, v)[p] == fd[p]
  {
  }

  /** Entries from k on leave everything before them alone, even where they run over the sector. */
  lemma {:induction false} ExtendedBehind(fd: seq<byte>, k: nat, added: seq<Seg>, p: nat)
    requires p < 16 + 5 * k && p < |fd|
    ensures |Extended(fd, k, added)| >= |fd| && Extended(fd, k, added)[p] == fd[p]
    decreases |added|
  {
    if added != [] {
      AssignBehind(fd, 16 + 5 * k, EntryBytes(added[0]), p);
      ExtendedBehind(Assign(fd, 16 + 5 * k, EntryBytes(added[0])), k + 1, added[1..], p);
    }
  }

  function Max(a: nat, b: nat): nat { if a < b then b else a }

  /** Slice assignment at or before the end may make the array longer. */
  lemma AssignWide(fd: seq<byte>, lo: nat, v: seq<byte>)
    requires lo <= |fd|
    ensures |Assign(fd, lo, v)| == Max(|fd|, lo + |v|)
    ensures forall q :: 0 <= q < |v| ==> Assign(fd, lo, v)[lo + q] == v[q]
    ensures forall p :: 0 <= p < lo ==> Assign(fd, lo, v)[p] == fd[p]
  {
  }

  lemma {:induction false} ExtendedLength(fd: seq<byte>, k: nat, added: seq<Seg>)
    requires 16 + 5 * k <= |fd|
    ensures |Extended(fd, k, added)| == Max(|fd|, 16 + 5 * (k + |added|))
    decreases |added|
  {
    if added != [] {
      AssignWide(fd, 16 + 5 * k, EntryBytes(added[0]));
      ExtendedLength(Assign(fd, 16 + 5 * k, EntryBytes(added[0])), k + 1, added[1..]);
    }
  }

  lemma EntryWide(fd: seq<byte>, k: nat, added: seq<Seg>, q: nat) returns (fd1: seq<byte>, rest: seq<Seg>)
    requires added != [] && 16 + 5 * k <= |fd| && q < 5
    ensures Extended(fd, k, added) == Extended(fd1, k + 1, rest) && rest == added[1..]
    ensures 16 + 5 * (k + 1) <= |fd1| && fd1[16 + 5 * k + q] == EntryBytes(added[0])[q]
  {
    fd1, rest := Assign(fd, 16 + 5 * k, EntryBytes(added[0])), added[1..];
    AssignWide(fd, 16 + 5 * k, EntryBytes(added[0]));
  }

  /** Byte q of the j-th new entry, wherever it lies. */
  lemma {:induction false} ExtendedByte(fd: seq<byte>, k: nat, added: seq<Seg>, j: nat, q: nat)
    requires 16 + 5 * k <= |fd| && j < |added| && q < 5
    ensures 16 + 5 * (k + j) + q < |Extended(fd, k, added)|
    ensures Extended(fd, k, added)[16 + 5 * (k + j) + q] == EntryBytes(added[j])[q]
    decreases |added|
  {
    var fd1, rest := EntryWide(fd, k, added, q);
    if j == 0 {
      ExtendedBehind(fd1, k + 1, rest, 16 + 5 * k + q);
    } else {
      ExtendedByte(fd1, k + 1, rest, j - 1, q);
    }
  }

  lemma FirstEntered(fd: seq<byte>, k: nat, added: seq<Seg>, p: nat) returns (fd1: seq<byte>, rest: seq<Seg>)
    requires added != [] && 16 + 5 * (k + 1) <= |fd| && p < |fd| && !(16 + 5 * k <= p < 16 + 5 * (k + 1))
    ensures Extended(fd, k, added) == Extended(fd1, k + 1, rest) && |rest| == |added| - 1
    ensures |fd1| == |fd| && fd1[p] == fd[p]
  {
    fd1, rest := Assign(fd, 16 + 5 * k, EntryBytes(added[0])), added[1..];
    AssignAt(fd, 16 + 5 * k, EntryBytes(added[0]));
  }

  /** All bytes but those of the new entries stay. */
  lemma {:induction false} ExtendedFrame(fd: seq<byte>, k: nat, added: seq<Seg>, p: nat)
    requires 16 + 5 * (k + |added|) <= |fd| && p < |fd| && !(16 + 5 * k <= p < 16 + 5 * (k + |added|))
    ensures |Extended(fd, k, added)| == |fd| && Extended(fd, k, added)[p] == fd[p]
    decreases |added|
  {
    if added != [] {
      var fd1, rest := FirstEntered(fd, k, added, p);
      ExtendedFrame(fd1, k + 1, rest, p);
    }
  }

  /** Five bytes as written parse as the entry. */
  lemma EntryFrom(fd: seq<byte>, i: nat, s: Seg)
    requires 16 + 5 * (i + 1) <= |fd| && s.lsn < 0x100_0000 && s.cnt < 0x1_0000
    requires forall q :: 0 <= q < 5 ==> fd[16 + 5 * i + q] == EntryBytes(s)[q]
    ensures EntryAt(fd, i) == s
  {
    var e := EntryBytes(s);
    assert Slice(fd, 16 + 5 * i, 16 + 5 * (i + 1)) == e;
    assert Slice(e, 0, 3) == ToBe(s.lsn, 3) && Slice(e, 3, 5) == ToBe(s.cnt, 2);
    Widths();
    BeToBe(s.lsn, 3);
    BeToBe(s.cnt, 2);
  }

  lemma ExtendedEntry(fd: seq<byte>, k: nat, added: seq<Seg>, i: nat)
    requires 16 + 5 * (k + |added|) <= |fd| && 16 + 5 * (i + 1) <= |fd| && Encodable(added)
    ensures EntryAt(Extended(fd, k, added), i) == if k <= i < k + |added| then added[i - k] else EntryAt(fd, i)
  {
    var fd' := Extended(fd, k, added);
    ExtendedFrame(fd, k, added, 0);
    if k <= i < k + |added| {
      var e := EntryBytes(added[i - k]);
      forall q | 0 <= q < 5
        ensures fd'[16 + 5 * i + q] == e[q]
      {
        ExtendedByte(fd, k, added, i - k, q);
      }
      EntryFrom(fd', i, added[i - k]);
    } else {
      forall p | 16 + 5 * i <= p < 16 + 5 * (i + 1)
        ensures fd'[p] == fd[p]
      {
        ExtendedFrame(fd, k, added, p);
      }
      EntrySame(fd, fd', i);
    }
  }

  lemma {:induction false} UsedSplit(t: seq<Seg>, u: seq<Seg>)
    ensures UsedIn(t + u) == UsedIn(t) + UsedIn(u)
  {
    if u == [] {
      assert t + u == t;
    } else {
      assert (t + u)[..|t + u| - 1] == t + u[..|u| - 1];
      UsedSplit(t, u[..|u| - 1]);
    }
  }

  lemma {:induction false} UsedAll(t: seq<Seg>)
    requires forall i :: 0 <= i < |t| ==> t[i].cnt > 0
    ensures UsedIn(t) == t
  {
    if t != [] { UsedAll(t[..|t| - 1]); }
  }

  /** Unused entries at the end of a table do not matter. */
  lemma {:induction false} UsedHead(t: seq<Seg>, k: nat)
    requires k <= |t| && forall i :: k <= i < |t| ==> t[i].cnt == 0
    ensures UsedIn(t) == UsedIn(t[..k])
  {
    if k < |t| {
      UsedHead(t[..|t| - 1], k);
      assert t[..|t| - 1][..k] == t[..k];
    } else {
      assert t[..k] == t;
    }
  }

  /** New entries stand at k in an otherwise unchanged table. */
  predicate Grown(t: seq<Seg>, t': seq<Seg>, k: nat, added: seq<Seg>) {
    && |t| == |t'| && k + |added| <= |t|
    && (forall i :: 0 <= i < k ==> t'[i] == t[i])
    && (forall i :: k <= i < k + |added| ==> t'[i] == added[i - k])
    && (forall i :: k + |added| <= i < |t| ==> t'[i] == t[i])
  }

  lemma GrownHead(t: seq<Seg>, t': seq<Seg>, k: nat, added: seq<Seg>)
    requires Grown(t, t', k, added)
    ensures t'[..k + |added|] == t[..k] + added
  {
    forall i | 0 <= i < k + |added|
      ensures t'[i] == (t[..k] + added)[i]
    {
    }
  }

  /** A table with new entries behind its last used one holds the old segments and then the new. */
  lemma UsedGrown(t: seq<Seg>, t': seq<Seg>, k: nat, added: seq<Seg>)
    requires Grown(t, t', k, added) && Encodable(added)
    requires forall i :: k <= i < |t| ==> t[i].cnt == 0
    ensures UsedIn(t') == UsedIn(t) + added
  {
    GrownHead(t, t', k, added);
    assert UsedIn(t) == UsedIn(t[..k]) by { UsedHead(t, k); }
    assert UsedIn(t') == UsedIn(t'[..k + |added|]) by { UsedHead(t', k + |added|); }
    assert UsedIn(t[..k] + added) == UsedIn(t[..k]) + added by {
      UsedSplit(t[..k], added);
      UsedAll(added);
    }
  }

  // ----- the allocation bitmap -----

  /** b & (1 << r) */
  predicate Bit(b: nat, r: nat) {
    if r == 0 then b % 2 == 1 else Bit(b / 2, r - 1)
  }

  /** b | (1 << r) */
  function OrBit(b: nat, r: nat): nat {
    if r == 0 then (if b % 2 == 1 then b else b + 1) else 2 * OrBit(b / 2, r - 1) + b % 2
  }

  lemma {:induction false} OrBitBits(b: nat, r: nat, q: nat)
    ensures Bit(OrBit(b, r), q) <==> q == r || Bit(b, q)
  {
    if r > 0 && q > 0 { OrBitBits(b / 2, r - 1, q - 1); }
  }

  function Pow2(m: nat): nat { if m == 0 then 1 else 2 * Pow2(m - 1) }

  lemma {:induction false} OrBitBound(b: nat, r: nat, m: nat)
    requires b < Pow2(m) && r < m
    ensures OrBit(b, r) < Pow2(m)
  {
    if r > 0 { OrBitBound(b / 2, r - 1, m - 1); }
  }

  lemma OrBitByte(b: byte, r: nat)
    requires r < 8
    ensures OrBit(b, r) < 256
  {
    assert Pow2(8) == 256;
    OrBitBound(b, r, 8);
  }

  /** Cluster c is marked used. */
  predicate Used(bits: seq<byte>, c: nat) {
    c < 8 * |bits| && Bit(bits[c / 8], 7 - c % 8)
  }

  function Mark(bits: seq<byte>, c: nat): (r: seq<byte>)
    requires c < 8 * |bits|
    ensures |r| == |bits|
  {
    OrBitByte(bits[c / 8], 7 - c % 8);
    bits[c / 8 := OrBit(bits[c / 8], 7 - c % 8)]
  }

  lemma MarkUses(bits: seq<byte>, c: nat, x: nat)
    requires c < 8 * |bits|
    ensures Used(Mark(bits, c), x) <==> x == c || Used(bits, x)
  {
    if x < 8 * |bits| && x / 8 == c / 8 {
      OrBitBits(bits[c / 8], 7 - c % 8, 7 - x % 8);
    }
  }

  function FreeFrom(bits: seq<byte>, first: nat): set<nat> {
    set c: nat | first <= c < 8 * |bits| && !Used(bits, c)
  }

  predicate Increasing(s: seq<nat>) {
    forall i, j :: 0 <= i < j < |s| ==> s[i] < s[j]
  }

  /** Exactly the given clusters were newly marked, and they were free before. */
  ghost predicate Marked(bits: seq<byte>, bits': seq<byte>, taken: seq<nat>) {
    && |bits'| == |bits| && Increasing(taken)
    && (forall k :: 0 <= k < |taken| ==> taken[k] < 8 * |bits| && !Used(bits, taken[k]))
    && (forall x: nat :: Used(bits', x) <==> Used(bits, x) || x in taken)
  }

  lemma MarkedStep(bits: seq<byte>, bits': seq<byte>, taken: seq<nat>, c: nat)
    requires Marked(bits, bits', taken) && c < 8 * |bits| && !Used(bits', c)
    requires forall k :: 0 <= k < |taken| ==> taken[k] < c
    ensures Marked(bits, Mark(bits', c), taken + [c])
  {
    forall x: nat
      ensures Used(Mark(bits', c), x) <==> Used(bits, x) || x in taken + [c]
    {
      MarkUses(bits', c, x);
    }
  }

  /** The clusters taken are the free ones from `first` up to c. */
  ghost predicate Scanned(bits: seq<byte>, first: nat, c: nat, taken: seq<nat>) {
    && (forall k :: 0 <= k < |taken| ==> first <= taken[k] < c)
    && (forall x: nat :: first <= x < c && x < 8 * |bits| && !Used(bits, x) ==> x in taken)
  }

  lemma ScannedStep(bits: seq<byte>, bits': seq<byte>, first: nat, c: nat, taken: seq<nat>)
    requires Scanned(bits, first, c, taken) && Marked(bits, bits', taken) && first <= c < 8 * |bits|
    ensures Scanned(bits, first, c + 1, if Used(bits', c) then taken else taken + [c])
  {
    var more := if Used(bits', c) then taken else taken + [c];
    forall x: nat | first <= x < c + 1 && x < 8 * |bits| && !Used(bits, x)
      ensures x in more
    {
      if x == c { assert Used(bits', c) <==> Used(bits, c) || c in taken; }
    }
  }

  /** Free clusters from `first` on, none of them left out below the last. */
  ghost predicate Lowest(bits: seq<byte>, first: nat, taken: seq<nat>) {
    && Increasing(taken)
    && (forall k :: 0 <= k < |taken| ==> first <= taken[k] < 8 * |bits| && !Used(bits, taken[k]))
    && (forall k, x: nat :: 0 <= k < |taken| && first <= x < taken[k] && !Used(bits, x) ==> x in taken)
  }

  lemma ScannedLow(bits: seq<byte>, bits': seq<byte>, first: nat, c: nat, taken: seq<nat>)
    requires Scanned(bits, first, c, taken) && Marked(bits, bits', taken)
    ensures Lowest(bits, first, taken)
  {
    forall k, x: nat | 0 <= k < |taken| && first <= x < taken[k] && !Used(bits, x)
      ensures x in taken
    {
      assert x < taken[k] < c;
    }
  }

  /** So the bitmap and the number of clusters determine which ones are taken. */
  lemma {:induction false} LowestUnique(bits: seq<byte>, first: nat, a: seq<nat>, b: seq<nat>, n: nat)
    requires Lowest(bits, first, a) && Lowest(bits, first, b) && n <= |a| && n <= |b|
    ensures a[..n] == b[..n]
  {
    if n > 0 {
      LowestUnique(bits, first, a, b, n - 1);
      NextUnique(bits, first, a, b, n - 1);
      NextUnique(bits, first, b, a, n - 1);
      assert a[..n] == a[..n - 1] + [a[n - 1]] && b[..n] == b[..n - 1] + [b[n - 1]];
    }
  }

  lemma NextUnique(bits: seq<byte>, first: nat, a: seq<nat>, b: seq<nat>, k: nat)
    requires Lowest(bits, first, a) && Lowest(bits, first, b) && k < |a| && k < |b| && a[..k] == b[..k]
    ensures a[k] >= b[k]
  {
    forall m | 0 <= m < k
      ensures a[m] == b[m]
    {
      assert a[..k][m] == b[..k][m];
    }
    var x := a[k];
    assert x < b[k] ==> x in b;
  }

  /** The search for free clusters: the lowest `needed` free ones from `first` on, or all of them. */
  method TakeClusters(bits: seq<byte>, first: nat, needed: nat) returns (bits': seq<byte>, taken: seq<nat>)
    requires needed > 0
    ensures Marked(bits, bits', taken)
    ensures |taken| == Min(needed, |FreeFrom(bits, first)|) && Lowest(bits, first, taken)
  {
    bits', taken := bits, [];
    var c: nat := first;
    while c < 8 * |bits|
      invariant first <= c && Marked(bits, bits', taken) && |taken| < needed
      invariant Scanned(bits, first, c, taken)
      decreases 8 * |bits| - c
    {
      ScannedStep(bits, bits', first, c, taken);
      if !Used(bits', c) {
        MarkedStep(bits, bits', taken, c);
        bits' := Mark(bits', c);
        taken := taken + [c];
      }
      c := c + 1;
      if |taken| == needed { break; }
    }
    TakenCount(bits, bits', first, c, needed, taken);
    ScannedLow(bits, bits', first, c, taken);
  }

  lemma TakenCount(bits: seq<byte>, bits': seq<byte>, first: nat, c: nat, needed: nat, taken: seq<nat>)
    requires Scanned(bits, first, c, taken) && Marked(bits, bits', taken)
    requires |taken| == needed || (|taken| < needed && c >= 8 * |bits|)
    ensures |taken| == Min(needed, |FreeFrom(bits, first)|)
  {
    if |taken| == needed { TakenSome(bits, first, taken); } else { TakenAll(bits, first, taken); }
  }

  function AsSet(s: seq<nat>): set<nat> {
    if s == [] then {} else AsSet(s[..|s| - 1]) + {s[|s| - 1]}
  }

  lemma {:induction false} AsSetFacts(s: seq<nat>)
    requires Increasing(s)
    ensures |AsSet(s)| == |s| && forall x :: x in AsSet(s) <==> x in s
  {
    if s != [] {
      var init, last := s[..|s| - 1], s[|s| - 1];
      assert s == init + [last];
      AsSetFacts(init);
      assert forall k :: 0 <= k < |init| ==> init[k] < last;
      AsSetStep(AsSet(init), init, last);
    }
  }

  lemma AsSetStep(a: set<nat>, init: seq<nat>, last: nat)
    requires |a| == |init| && forall x :: x in a <==> x in init
    requires last !in init
    ensures |a + {last}| == |init| + 1 && forall x :: x in a + {last} <==> x in init + [last]
  {
  }

  lemma TakenSome(bits: seq<byte>, first: nat, taken: seq<nat>)
    requires Increasing(taken)
    requires forall k :: 0 <= k < |taken| ==> first <= taken[k] < 8 * |bits| && !Used(bits, taken[k])
    ensures |taken| <= |FreeFrom(bits, first)|
  {
    AsSetFacts(taken);
    SubsetSize(AsSet(taken), FreeFrom(bits, first));
  }

  lemma TakenAll(bits: seq<byte>, first: nat, taken: seq<nat>)
    requires Increasing(taken)
    requires forall k :: 0 <= k < |taken| ==> first <= taken[k] < 8 * |bits| && !Used(bits, taken[k])
    requires forall x: nat :: first <= x < 8 * |bits| && !Used(bits, x) ==> x in taken
    ensures |taken| == |FreeFrom(bits, first)|
  {
    AsSetFacts(taken);
    assert AsSet(taken) == FreeFrom(bits, first);
  }

  // ----- reading an image -----

  function FdOf(d: seq<byte>): seq<byte> { ReadAt(d, FD_LSN * SECTOR, SECTOR) }

  function SegsOf(d: seq<byte>): seq<Seg> { UsedIn(Table(FdOf(d), ENTRIES)) }

  function MapBytes(d: seq<byte>): nat { Be(Slice(ReadAt(d, 0, SECTOR), 4, 6)) }

  function ClusterSize(d: seq<byte>): nat { Be(Slice(ReadAt(d, 0, SECTOR), 6, 8)) }

  function MapLsn(d: seq<byte>): nat { Be(Slice(ReadAt(d, 0, SECTOR), 100, 104)) }

  function MapOf(d: seq<byte>): seq<byte> { ReadAt(d, MapLsn(d) * SECTOR, MapBytes(d)) }

  function SizeIn(fd: seq<byte>): nat { Be(Slice(fd, 9, 13)) }

  /** The file as anyone reads it who has only the image: descriptor, segment table, size. */
  function FileIn(d: seq<byte>): seq<byte> { ReadSegs(d, SegsOf(d), SizeIn(FdOf(d))) }

  /** Where the tool finds its numbers, in bytes of the image. */
  lemma FieldsTold(d: seq<byte>)
    requires |d| >= SECTOR
    ensures MapBytes(d) == TwoAt(d, 4) && ClusterSize(d) == TwoAt(d, 6) && MapLsn(d) == FourAt(d, 100)
  {
    var h := ReadAt(d, 0, SECTOR);
    assert h == d[..SECTOR];
    assert Slice(h, 4, 6) == d[4..6] && Slice(h, 6, 8) == d[6..8] && Slice(h, 100, 104) == d[100..104];
    TwoIn(d, 4);
    TwoIn(d, 6);
    FourIn(d, 100);
  }

  lemma SizeTold(fd: seq<byte>)
    requires |fd| >= 13
    ensures SizeIn(fd) == FourAt(fd, 9)
  {
    assert Slice(fd, 9, 13) == fd[9..13];
    FourIn(fd, 9);
  }

  /** A table entry in bytes of the descriptor: three for the sector, two for the number of sectors. */
  lemma EntryTold(fd: seq<byte>, i: nat)
    requires 16 + 5 * (i + 1) <= |fd|
    ensures var p := 16 + 5 * i;
            EntryAt(fd, i) == Seg(0x1_0000 * (fd[p] as int) + TwoAt(fd, p + 1), TwoAt(fd, p + 3))
  {
    var p := 16 + 5 * i;
    var e := Slice(fd, p, p + 5);
    var lsn := Slice(e, 0, 3);
    assert lsn == [fd[p], fd[p + 1], fd[p + 2]] && Slice(e, 3, 5) == fd[p + 3..p + 5];
    TwoIn(fd, p + 3);
    assert lsn[..2] == [fd[p], fd[p + 1]] && lsn[..2][..1] == [fd[p]] && lsn[..2][..1][..0] == [];
    assert Be(lsn[..2][..1]) == fd[p] && Be(lsn[..2]) == 256 * Be(lsn[..2][..1]) + fd[p + 1];
  }

  /** The bit of a byte that stands for the k-th of its eight clusters. */
  function Mask(k: nat): (m: nat)
    requires k < 8
    ensures m > 0
  {
    if k == 0 then 128 else if k == 1 then 64 else if k == 2 then 32 else if k == 3 then 16
    else if k == 4 then 8 else if k == 5 then 4 else if k == 6 then 2 else 1
  }

  /** Where cluster c stands in the bitmap: eight to a byte, the highest bit first. */
  lemma UsedTold(bits: seq<byte>, c: nat)
    ensures Used(bits, c) <==> c / 8 < |bits| && (bits[c / 8] as int) / Mask(c % 8) % 2 == 1
  {
    if c / 8 < |bits| { BitTold(bits[c / 8], c % 8); }
  }

  lemma {:induction false} BitTold(b: nat, k: nat)
    requires k < 8
    ensures Bit(b, 7 - k) <==> b / Mask(k) % 2 == 1
    decreases 8 - k
  {
    if k < 7 {
      BitTold(b / 2, k + 1);
      MaskHalf(b, k);
    }
  }

  lemma MaskHalf(b: nat, k: nat)
    requires k < 7
    ensures b / 2 / Mask(k + 1) == b / Mask(k)
  {
    if k == 0 { assert b / 2 / 64 == b / 128; }
    if k == 1 { assert b / 2 / 32 == b / 64; }
    if k == 2 { assert b / 2 / 16 == b / 32; }
    if k == 3 { assert b / 2 / 8 == b / 16; }
    if k == 4 { assert b / 2 / 4 == b / 8; }
    if k == 5 { assert b / 2 / 2 == b / 4; }
  }

  // ----- growing the file -----

  datatype Result =
    | Done | NoSpace | ZeroClusterSize | SectorTooLarge | FileTooLarge | DoesNotFit | VerifyFailed

  function NeededClusters(bytes: nat, ratio: nat): nat
    requires ratio > 0
  {
    ((bytes + SECTOR - 1) / SECTOR + ratio - 1) / ratio
  }

  /** The new segments: one per cluster taken. */
  function ClusterSegs(taken: seq<nat>, ratio: nat): (r: seq<Seg>)
    ensures |r| == |taken| && forall k :: 0 <= k < |taken| ==> r[k] == Seg(taken[k] * ratio, ratio)
  {
    if taken == [] then []
    else ClusterSegs(taken[..|taken| - 1], ratio) + [Seg(taken[|taken| - 1] * ratio, ratio)]
  }

  lemma {:induction false} CapacityAppend(s: seq<Seg>, t: seq<Seg>)
    ensures Capacity(s + t) == Capacity(s) + Capacity(t)
  {
    if s == [] {
      assert s + t == t;
    } else {
      assert (s + t)[1..] == s[1..] + t;
      CapacityAppend(s[1..], t);
    }
  }

  lemma {:induction false} ClusterCapacity(taken: seq<nat>, ratio: nat)
    ensures Capacity(ClusterSegs(taken, ratio)) == |taken| * (ratio * SECTOR)
  {
    if taken != [] {
      var init := taken[..|taken| - 1];
      var last := Seg(taken[|taken| - 1] * ratio, ratio);
      ClusterCapacity(init, ratio);
      CapacityAppend(ClusterSegs(init, ratio), [last]);
      assert [last][1..] == [];
      assert |taken| * (ratio * SECTOR) == |init| * (ratio * SECTOR) + ratio * SECTOR;
    }
  }

  /** Rounding up: n units of size r hold at least x. */
  lemma RoundUp(x: nat, r: nat)
    requires r > 0
    ensures (x + r - 1) / r * r >= x
  {
    DivBounds(x + r - 1, r, (x + r - 1) / r);
  }

  lemma DivBounds(x: nat, r: nat, q: nat)
    requires r > 0 && q == x / r
    ensures q * r <= x < q * r + r
  {
  }

  lemma MulMono(a: nat, b: nat, r: nat)
    requires a <= b
    ensures a * r <= b * r
  {
  }

  /** The clusters asked for are enough for the bytes that had no room. */
  lemma EnoughClusters(bytes: nat, ratio: nat)
    requires ratio > 0
    ensures NeededClusters(bytes, ratio) * (ratio * SECTOR) >= bytes
  {
    var sectors := (bytes + SECTOR - 1) / SECTOR;
    RoundUp(bytes, SECTOR);
    RoundUp(sectors, ratio);
    var n := NeededClusters(bytes, ratio);
    assert n * (ratio * SECTOR) == (n * ratio) * SECTOR;
    assert (n * ratio) * SECTOR >= sectors * SECTOR;
  }

  /** ... and with one cluster less some of them still have none. */
  lemma NoSpareCluster(bytes: nat, ratio: nat, n: nat)
    requires ratio > 0 && n < NeededClusters(bytes, ratio)
    ensures n * (ratio * SECTOR) < bytes
  {
    var sectors := (bytes + SECTOR - 1) / SECTOR;
    RoundDown(sectors, ratio, n);
    assert n * (ratio * SECTOR) == (n * ratio) * SECTOR;
  }

  lemma RoundDown(x: nat, r: nat, n: nat)
    requires r > 0 && n < (x + r - 1) / r
    ensures n * r < x
  {
    var q := (x + r - 1) / r;
    DivBounds(x + r - 1, r, q);
    MulMono(n + 1, q, r);
    assert (n + 1) * r == n * r + r;
  }

  // ----- what makes an image safe to update -----

  predicate InSector(s: Seg, sector: nat) { s.lsn <= sector < s.lsn + s.cnt }

  predicate Misses(segs: seq<Seg>, sector: nat) {
    forall i :: 0 <= i < |segs| ==> !InSector(segs[i], sector)
  }

  /** Every sector of the segment belongs to a cluster that is marked used. */
  ghost predicate MarkedUsed(bits: seq<byte>, ratio: nat, s: Seg)
    requires ratio > 0
  {
    forall x: nat :: InSector(s, x) ==> Used(bits, x / ratio)
  }

  lemma ClusterOf(c: nat, ratio: nat, x: nat)
    requires ratio > 0 && c * ratio <= x < c * ratio + ratio
    ensures x / ratio == c
  {
    var q, r := x / ratio, x % ratio;
    assert x == q * ratio + r;
    MulStep(q, c, ratio);
    MulStep(c, q, ratio);
  }

  lemma MulStep(a: nat, b: nat, r: nat)
    ensures a < b ==> a * r + r <= b * r
  {
    if a < b { assert (a + 1) * r <= b * r; }
  }

  /** A freshly taken cluster meets nothing that was marked used. */
  lemma FreshDisjoint(bits: seq<byte>, ratio: nat, c: nat, s: Seg)
    requires ratio > 0 && !Used(bits, c) && MarkedUsed(bits, ratio, s) && s.cnt > 0
    ensures SegsDisjoint(s, Seg(c * ratio, ratio))
  {
    var t := Seg(c * ratio, ratio);
    if !SegsDisjoint(s, t) {
      var x := if s.lsn < t.lsn then t.lsn else s.lsn;
      assert InSector(s, x);
      ClusterOf(c, ratio, x);
    }
  }

  lemma ClustersDisjoint(c: nat, c': nat, ratio: nat)
    requires c < c'
    ensures SegsDisjoint(Seg(c * ratio, ratio), Seg(c' * ratio, ratio))
  {
    MulStep(c, c', ratio);
  }

  lemma {:induction false} UsedPositive(t: seq<Seg>)
    ensures forall i :: 0 <= i < |UsedIn(t)| ==> UsedIn(t)[i].cnt > 0
  {
    if t != [] { UsedPositive(t[..|t| - 1]); }
  }

  /** Old segments and new clusters together are pairwise disjoint. */
  lemma GrownDisjoint(segs: seq<Seg>, bits: seq<byte>, ratio: nat, taken: seq<nat>)
    requires ratio > 0 && AllDisjoint(segs) && Increasing(taken)
    requires forall i :: 0 <= i < |segs| ==> segs[i].cnt > 0 && MarkedUsed(bits, ratio, segs[i])
    requires forall k :: 0 <= k < |taken| ==> !Used(bits, taken[k])
    ensures AllDisjoint(segs + ClusterSegs(taken, ratio))
  {
    var all := segs + ClusterSegs(taken, ratio);
    forall i, j | 0 <= i < j < |all|
      ensures SegsDisjoint(all[i], all[j])
    {
      if j < |segs| {
        assert SegsDisjoint(segs[i], segs[j]);
      } else if i < |segs| {
        FreshDisjoint(bits, ratio, taken[j - |segs|], segs[i]);
      } else {
        ClustersDisjoint(taken[i - |segs|], taken[j - |segs|], ratio);
      }
    }
  }

  /** The descriptor sector is in none of them either. */
  lemma GrownMissesFd(segs: seq<Seg>, bits: seq<byte>, ratio: nat, taken: seq<nat>, sector: nat)
    requires ratio > 0 && Used(bits, sector / ratio)
    requires Misses(segs, sector)
    requires forall k :: 0 <= k < |taken| ==> !Used(bits, taken[k])
    ensures Misses(segs + ClusterSegs(taken, ratio), sector)
  {
    var all := segs + ClusterSegs(taken, ratio);
    forall i | 0 <= i < |all|
      ensures !InSector(all[i], sector)
    {
      if i >= |segs| && InSector(all[i], sector) { ClusterOf(taken[i - |segs|], ratio, sector); }
    }
  }

  /** What the tool takes from an image before it writes. */
  datatype Layout = Layout(table: seq<Seg>, ratio: nat, bits: seq<byte>)

  function LayoutOf(d: seq<byte>): Layout {
    Layout(Table(FdOf(d), ENTRIES), ClusterSize(d), MapOf(d))
  }

  /** Clusters missing for a file of this size. */
  function Growth(l: Layout, size: nat): nat {
    if size > Capacity(UsedIn(l.table)) && l.ratio > 0
    then NeededClusters(size - Capacity(UsedIn(l.table)), l.ratio) else 0
  }

  /** The cluster in which the search starts: that of the last segment. */
  function SearchFrom(segs: seq<Seg>, ratio: nat): nat
    requires ratio > 0
  {
    (if segs == [] then 0 else segs[|segs| - 1].lsn) / ratio
  }

  /** Segments pairwise disjoint and apart from the descriptor. */
  predicate SafeSegs(segs: seq<Seg>) {
    AllDisjoint(segs) && Misses(segs, FD_LSN)
  }

  /** Segments and descriptor are marked used, and every cluster has a 24-bit sector number. */
  ghost predicate SafeToGrow(l: Layout) {
    && l.ratio > 0
    && (forall i :: 0 <= i < |UsedIn(l.table)| ==> MarkedUsed(l.bits, l.ratio, UsedIn(l.table)[i]))
    && Used(l.bits, FD_LSN / l.ratio)
    && 8 * |l.bits| * l.ratio <= 0x100_0000
  }

  /** The new entries have room in the segment table.  The tool does not ask. */
  predicate Fits(l: Layout, size: nat) { SegCount(l.table) + Growth(l, size) <= ENTRIES }

  ghost predicate SafeBesides(l: Layout, size: nat) {
    && SafeSegs(UsedIn(l.table)) && |l.table| == ENTRIES
    && (size > Capacity(UsedIn(l.table)) ==> SafeToGrow(l))
  }

  /** What the tool relies on, room in the segment table apart. */
  ghost predicate SafeApart(d: seq<byte>, size: nat) {
    && |d| >= (FD_LSN + 1) * SECTOR
    && size < 0x1_0000_0000
    && SafeBesides(LayoutOf(d), size)
  }

  /** All that the tool relies on. */
  ghost predicate Safe(d: seq<byte>, size: nat) {
    SafeApart(d, size) && Fits(LayoutOf(d), size)
  }

  /** Fewer free clusters from the last segment on than the file lacks. */
  ghost predicate Short(l: Layout, size: nat) {
    && size > Capacity(UsedIn(l.table)) && l.ratio > 0
    && |FreeFrom(l.bits, SearchFrom(UsedIn(l.table), l.ratio))| < Growth(l, size)
  }

  /** The clusters were taken from the bitmap, as many as the file lacked. */
  ghost predicate TakenFor(l: Layout, size: nat, taken: seq<nat>, bits': seq<byte>) {
    && |taken| == Growth(l, size)
    && (if size > Capacity(UsedIn(l.table)) then l.ratio > 0 && Marked(l.bits, bits', taken) else taken == [])
  }

  /** The clusters the tool takes: as many as the file lacks, the lowest free ones from the last segment on. */
  ghost predicate Chosen(l: Layout, size: nat, taken: seq<nat>) {
    |taken| == Growth(l, size) && (l.ratio > 0 ==> Lowest(l.bits, SearchFrom(UsedIn(l.table), l.ratio), taken))
  }

  /** The cluster in which the last segment starts, or the first cluster if there is no segment, lies at
      or before c. */
  predicate FromLast(l: Layout, c: nat)
    requires l.ratio > 0
  {
    var used := UsedIn(l.table);
    used != [] ==> c >= used[|used| - 1].lsn / l.ratio
  }

  /** Every cluster taken was free and not before that one, and no such cluster below it was left out. */
  ghost predicate BehindLast(l: Layout, taken: seq<nat>)
    requires l.ratio > 0
  {
    && (forall k :: 0 <= k < |taken| ==> FromLast(l, taken[k]) && taken[k] < 8 * |l.bits| && !Used(l.bits, taken[k]))
    && (forall k, c: nat :: 0 <= k < |taken| && FromLast(l, c) && c < taken[k] && !Used(l.bits, c) ==> c in taken)
  }

  lemma FromLastIff(l: Layout, c: nat)
    requires l.ratio > 0
    ensures FromLast(l, c) <==> SearchFrom(UsedIn(l.table), l.ratio) <= c
  {
  }

  /** Where the search for free clusters starts. */
  lemma ChosenBehindLast(l: Layout, size: nat, taken: seq<nat>)
    requires l.ratio > 0 && Chosen(l, size, taken)
    ensures BehindLast(l, taken)
  {
    var first := SearchFrom(UsedIn(l.table), l.ratio);
    assert Lowest(l.bits, first, taken);
    forall c: nat
      ensures FromLast(l, c) <==> first <= c
    {
      FromLastIff(l, c);
    }
  }

  /** Lack of space counts the free clusters from there on. */
  lemma ShortIff(l: Layout, size: nat)
    requires l.ratio > 0 && size > Capacity(UsedIn(l.table))
    ensures Short(l, size) <==>
            |set c: nat | c < 8 * |l.bits| && FromLast(l, c) && !Used(l.bits, c)| < Growth(l, size)
  {
    assert (set c: nat | c < 8 * |l.bits| && FromLast(l, c) && !Used(l.bits, c))
           == FreeFrom(l.bits, SearchFrom(UsedIn(l.table), l.ratio));
  }

  lemma ChosenUnique(l: Layout, size: nat, a: seq<nat>, b: seq<nat>)
    requires Chosen(l, size, a) && Chosen(l, size, b)
    ensures a == b
  {
    if l.ratio > 0 {
      LowestUnique(l.bits, SearchFrom(UsedIn(l.table), l.ratio), a, b, |a|);
      assert a[..|a|] == a && b[..|b|] == b;
    }
  }

  function GrownSegs(l: Layout, taken: seq<nat>): seq<Seg> {
    UsedIn(l.table) + ClusterSegs(taken, l.ratio)
  }

  lemma CntBound(fd: seq<byte>)
    ensures ClusterSize(fd) < 0x1_0000
  {
    var s := Slice(ReadAt(fd, 0, SECTOR), 6, 8);
    BeBound(s);
    Widths();
    assert |s| <= 2;
    if |s| == 0 { assert Pow256(0) == 1; }
  }

  /** New segments have entries of the right width. */
  lemma ClustersEncodable(bits: seq<byte>, taken: seq<nat>, ratio: nat)
    requires 0 < ratio < 0x1_0000 && 8 * |bits| * ratio <= 0x100_0000
    requires forall k :: 0 <= k < |taken| ==> taken[k] < 8 * |bits|
    ensures Encodable(ClusterSegs(taken, ratio))
  {
    var segs := ClusterSegs(taken, ratio);
    forall k | 0 <= k < |segs|
      ensures segs[k].lsn < 0x100_0000 && 0 < segs[k].cnt < 0x1_0000
    {
      MulStep(taken[k], 8 * |bits|, ratio);
    }
  }

  /** The descriptor as it is written back: grown table and new size. */
  function NewFd(fd: seq<byte>, k: nat, added: seq<Seg>, size: nat): seq<byte> {
    Assign(Extended(fd, k, added), 9, ToBe(size, 4))
  }

  lemma NewFdSize(fd: seq<byte>, k: nat, added: seq<Seg>, size: nat)
    requires |fd| == SECTOR && 16 + 5 * (k + |added|) <= SECTOR && size < 0x1_0000_0000
    ensures |NewFd(fd, k, added, size)| == SECTOR && SizeIn(NewFd(fd, k, added, size)) == size
  {
    var fd1 := Extended(fd, k, added);
    ExtendedFrame(fd, k, added, 0);
    var v := ToBe(size, 4);
    AssignAt(fd1, 9, v);
    assert Slice(Assign(fd1, 9, v), 9, 13) == v;
    Widths();
    BeToBe(size, 4);
  }

  lemma NewFdEntry(fd: seq<byte>, k: nat, added: seq<Seg>, size: nat, i: nat)
    requires |fd| == SECTOR && k + |added| <= ENTRIES && Encodable(added) && i < ENTRIES
    ensures EntryAt(NewFd(fd, k, added, size), i) == if k <= i < k + |added| then added[i - k] else EntryAt(fd, i)
  {
    var fd1, fd2 := Extended(fd, k, added), NewFd(fd, k, added, size);
    ExtendedFrame(fd, k, added, 0);
    ExtendedEntry(fd, k, added, i);
    AssignAt(fd1, 9, ToBe(size, 4));
    EntrySame(fd1, fd2, i);
  }

  lemma TableGrown(fd: seq<byte>, fd': seq<byte>, k: nat, added: seq<Seg>)
    requires k + |added| <= ENTRIES
    requires forall i :: 0 <= i < ENTRIES ==>
               EntryAt(fd', i) == if k <= i < k + |added| then added[i - k] else EntryAt(fd, i)
    ensures Grown(Table(fd, ENTRIES), Table(fd', ENTRIES), k, added)
  {
  }

  lemma NewFdTable(fd: seq<byte>, k: nat, added: seq<Seg>, size: nat)
    requires |fd| == SECTOR && k + |added| <= ENTRIES && Encodable(added)
    ensures Grown(Table(fd, ENTRIES), Table(NewFd(fd, k, added, size), ENTRIES), k, added)
  {
    forall i | 0 <= i < ENTRIES
      ensures EntryAt(NewFd(fd, k, added, size), i) == if k <= i < k + |added| then added[i - k] else EntryAt(fd, i)
    {
      NewFdEntry(fd, k, added, size, i);
    }
    TableGrown(fd, NewFd(fd, k, added, size), k, added);
  }

  lemma FdApart(s: Seg, p: nat)
    requires InSeg(s, p) && !InSector(s, FD_LSN)
    ensures !(FD_LSN * SECTOR <= p < FD_LSN * SECTOR + SECTOR)
  {
  }

  lemma FdWriteKeeps(w: seq<byte>, segs: seq<Seg>, fd: seq<byte>)
    requires SafeSegs(segs) && |fd| == SECTOR
    ensures KeepsSegs(w, WriteAt(w, FD_LSN * SECTOR, fd), segs)
  {
    var d := WriteAt(w, FD_LSN * SECTOR, fd);
    forall p: nat | p < |w| && InAny(segs, p)
      ensures Get(d, p) == Get(w, p)
    {
      var i :| 0 <= i < |segs| && InSeg(segs[i], p);
      FdApart(segs[i], p);
      WriteGet(w, FD_LSN * SECTOR, fd, p);
    }
  }

  /** Data over the segments, then the descriptor: reading the same segments gives the data ... */
  lemma FinalRead(d: seq<byte>, segs: seq<Seg>, boot: seq<byte>, fd: seq<byte>)
    requires SafeSegs(segs) && |boot| <= Capacity(segs) && |fd| == SECTOR && SizeIn(fd) == |boot|
    ensures var d' := WriteAt(WriteSegs(d, segs, boot), FD_LSN * SECTOR, fd);
            FdOf(d') == fd && ReadSegs(d', segs, SizeIn(FdOf(d'))) == boot
  {
    var w := WriteSegs(d, segs, boot);
    var d' := WriteAt(w, FD_LSN * SECTOR, fd);
    ReadWritten(w, FD_LSN * SECTOR, fd);
    FdWriteKeeps(w, segs, fd);
    WriteThenRead(d, segs, boot, d');
  }

  /** ... and if the descriptor lists them, so does whoever has only the image. */
  lemma FinalImage(d: seq<byte>, segs: seq<Seg>, boot: seq<byte>, fd: seq<byte>)
    requires SafeSegs(segs) && |boot| <= Capacity(segs)
    requires |fd| == SECTOR && SizeIn(fd) == |boot| && UsedIn(Table(fd, ENTRIES)) == segs
    ensures var d' := WriteAt(WriteSegs(d, segs, boot), FD_LSN * SECTOR, fd);
            FdOf(d') == fd && SegsOf(d') == segs && FileIn(d') == boot
  {
    FinalRead(d, segs, boot, fd);
  }

  /** Bytes of the image that the tool has no business with. */
  ghost predicate Untouched(d: seq<byte>, segs: seq<Seg>, mapAt: nat, mapBytes: nat, fdBytes: nat, p: nat) {
    && p < |d| && !InAny(segs, p)
    && !(FD_LSN * SECTOR <= p < FD_LSN * SECTOR + fdBytes)
    && !(mapAt <= p < mapAt + mapBytes)
  }

  /** The rewritten descriptor lists the old segments and then the added ones. */
  lemma NewFdLists(fd: seq<byte>, added: seq<Seg>, size: nat)
    requires |fd| == SECTOR && Encodable(added) && size < 0x1_0000_0000
    requires SegCount(Table(fd, ENTRIES)) + |added| <= ENTRIES
    ensures var fd' := NewFd(fd, SegCount(Table(fd, ENTRIES)), added, size);
            && |fd'| == SECTOR && SizeIn(fd') == size
            && UsedIn(Table(fd', ENTRIES)) == UsedIn(Table(fd, ENTRIES)) + added
  {
    var t := Table(fd, ENTRIES);
    var k := SegCount(t);
    NewFdSize(fd, k, added, size);
    NewFdTable(fd, k, added, size);
    UsedGrown(t, Table(NewFd(fd, k, added, size), ENTRIES), k, added);
  }

  /** Growing a safe image: the segments stay disjoint and apart from the descriptor. */
  lemma GrownSafe(l: Layout, taken: seq<nat>, bits': seq<byte>)
    requires SafeSegs(UsedIn(l.table)) && SafeToGrow(l) && l.ratio < 0x1_0000
    requires Marked(l.bits, bits', taken)
    ensures SafeSegs(UsedIn(l.table) + ClusterSegs(taken, l.ratio)) && Encodable(ClusterSegs(taken, l.ratio))
  {
    var segs := UsedIn(l.table);
    UsedPositive(l.table);
    GrownDisjoint(segs, l.bits, l.ratio, taken);
    GrownMissesFd(segs, l.bits, l.ratio, taken, FD_LSN);
    ClustersEncodable(l.bits, taken, l.ratio);
  }

  /** A sector that was marked used and not in the file is not in the grown file either: nobody
      else's data is overwritten. */
  lemma OthersSafe(segs: seq<Seg>, bits: seq<byte>, bits': seq<byte>, ratio: nat, taken: seq<nat>, sector: nat)
    requires ratio > 0 && Marked(bits, bits', taken) && Used(bits, sector / ratio)
    requires Misses(segs, sector)
    ensures Misses(segs + ClusterSegs(taken, ratio), sector)
  {
    GrownMissesFd(segs, bits, ratio, taken, sector);
  }

  /** Bytes outside the segments, the descriptor and the bitmap come through all three writes. */
  lemma Frame(d: seq<byte>, mapAt: nat, bits: seq<byte>, segs: seq<Seg>, boot: seq<byte>, fd: seq<byte>, p: nat)
    requires Untouched(d, segs, mapAt, |bits|, |fd|, p)
    ensures Get(WriteAt(WriteSegs(WriteAt(d, mapAt, bits), segs, boot), FD_LSN * SECTOR, fd), p) == d[p]
    ensures Get(WriteAt(WriteSegs(d, segs, boot), FD_LSN * SECTOR, fd), p) == d[p]
  {
    var d1 := WriteAt(d, mapAt, bits);
    WriteGet(d, mapAt, bits, p);
    WriteSegsFrame(d1, segs, boot, p);
    WriteGet(WriteSegs(d1, segs, boot), FD_LSN * SECTOR, fd, p);
    WriteSegsFrame(d, segs, boot, p);
    WriteGet(WriteSegs(d, segs, boot), FD_LSN * SECTOR, fd, p);
  }

  lemma RoomAfterGrowth(segs: seq<Seg>, taken: seq<nat>, ratio: nat, size: nat)
    requires ratio > 0 && size > Capacity(segs) && |taken| == NeededClusters(size - Capacity(segs), ratio)
    ensures size <= Capacity(segs + ClusterSegs(taken, ratio))
  {
    CapacityAppend(segs, ClusterSegs(taken, ratio));
    ClusterCapacity(taken, ratio);
    EnoughClusters(size - Capacity(segs), ratio);
  }

  /** The clusters taken give the file enough room. */
  lemma GrownRoom(l: Layout, size: nat, taken: seq<nat>, bits': seq<byte>)
    requires TakenFor(l, size, taken, bits')
    ensures size <= Capacity(GrownSegs(l, taken))
  {
    if size > Capacity(UsedIn(l.table)) {
      RoomAfterGrowth(UsedIn(l.table), taken, l.ratio, size);
    } else {
      assert GrownSegs(l, taken) == UsedIn(l.table);
    }
  }

  lemma GrownSegsSafe(l: Layout, size: nat, taken: seq<nat>, bits': seq<byte>)
    requires SafeBesides(l, size) && TakenFor(l, size, taken, bits') && l.ratio < 0x1_0000
    ensures SafeSegs(GrownSegs(l, taken)) && Encodable(ClusterSegs(taken, l.ratio))
  {
    if size > Capacity(UsedIn(l.table)) {
      GrownSafe(l, taken, bits');
    } else {
      assert GrownSegs(l, taken) == UsedIn(l.table);
    }
  }

  /** The segments and the image after an update that took the given clusters. */
  function NewSegs(d: seq<byte>, taken: seq<nat>): seq<Seg> { GrownSegs(LayoutOf(d), taken) }

  function NewFdOf(d: seq<byte>, taken: seq<nat>, size: nat): seq<byte> {
    Assign(GrownFd(d, taken), 9, ToBe(size, 4))
  }

  function NewImage(d: seq<byte>, d1: seq<byte>, boot: seq<byte>, taken: seq<nat>): seq<byte> {
    WriteAt(WriteSegs(d1, NewSegs(d, taken), boot), FD_LSN * SECTOR, NewFdOf(d, taken, |boot|))
  }

  /** The new descriptor lists the grown segments, which are safe and large enough. */
  lemma DescriptorSafe(fd: seq<byte>, l: Layout, size: nat, taken: seq<nat>, bits': seq<byte>)
    requires |fd| == SECTOR && l.table == Table(fd, ENTRIES) && l.ratio < 0x1_0000 && size < 0x1_0000_0000
    requires SafeBesides(l, size) && Fits(l, size) && TakenFor(l, size, taken, bits')
    ensures SafeSegs(GrownSegs(l, taken)) && size <= Capacity(GrownSegs(l, taken))
    ensures var fd' := NewFd(fd, SegCount(l.table), ClusterSegs(taken, l.ratio), size);
            |fd'| == SECTOR && SizeIn(fd') == size && UsedIn(Table(fd', ENTRIES)) == GrownSegs(l, taken)
  {
    GrownRoom(l, size, taken, bits');
    GrownSegsSafe(l, size, taken, bits');
    NewFdLists(fd, ClusterSegs(taken, l.ratio), size);
  }

  lemma NewSegsSafe(d: seq<byte>, size: nat, taken: seq<nat>, bits': seq<byte>)
    requires Safe(d, size) && TakenFor(LayoutOf(d), size, taken, bits')
    ensures SafeSegs(NewSegs(d, taken)) && size <= Capacity(NewSegs(d, taken))
    ensures var fd := NewFdOf(d, taken, size);
            |fd| == SECTOR && SizeIn(fd) == size && UsedIn(Table(fd, ENTRIES)) == NewSegs(d, taken)
  {
    CntBound(d);
    DescriptorSafe(FdOf(d), LayoutOf(d), size, taken, bits');
  }

  function GrownFd(d: seq<byte>, taken: seq<nat>): seq<byte> {
    Extended(FdOf(d), SegCount(Table(FdOf(d), ENTRIES)), ClusterSegs(taken, ClusterSize(d)))
  }

  /** Before the data is written: only a file that grows has had its bitmap written. */
  predicate MapWritten(d: seq<byte>, d1: seq<byte>, size: nat, bits': seq<byte>) {
    d1 == if size > Capacity(SegsOf(d)) then WriteAt(d, MapLsn(d) * SECTOR, bits') else d
  }

  /** What a successful update comes to: the file is the boot data, its segments are the old ones
      and clusters that were free, and nothing else changed. */
  ghost predicate Updated(d: seq<byte>, d': seq<byte>, boot: seq<byte>, taken: seq<nat>) {
    && FileIn(d') == boot && SegsOf(d') == NewSegs(d, taken)
    && (forall k :: 0 <= k < |taken| ==> !Used(MapOf(d), taken[k]))
    && forall p: nat :: Untouched(d, SegsOf(d'), MapLsn(d) * SECTOR, |MapOf(d)|, SECTOR, p) ==> Get(d', p) == d[p]
  }

  lemma SafeUpdate(d: seq<byte>, d1: seq<byte>, boot: seq<byte>, taken: seq<nat>, bits': seq<byte>)
    requires Safe(d, |boot|) && TakenFor(LayoutOf(d), |boot|, taken, bits') && MapWritten(d, d1, |boot|, bits')
    ensures var d' := NewImage(d, d1, boot, taken);
            && Updated(d, d', boot, taken)
            && ReadSegs(d', NewSegs(d, taken), SizeIn(FdOf(d'))) == boot
  {
    var segs, fd := NewSegs(d, taken), NewFdOf(d, taken, |boot|);
    NewSegsSafe(d, |boot|, taken, bits');
    FinalImage(d1, segs, boot, fd);
    forall p: nat | Untouched(d, segs, MapLsn(d) * SECTOR, |MapOf(d)|, SECTOR, p)
      ensures Get(NewImage(d, d1, boot, taken), p) == d[p]
    {
      if |boot| > Capacity(SegsOf(d)) { Frame(d, MapLsn(d) * SECTOR, bits', segs, boot, fd, p); }
      else { Frame(d, MapLsn(d) * SECTOR, MapOf(d), segs, boot, fd, p); }
    }
  }

  // ----- a full segment table -----

  lemma {:induction false} ExtendedSplit(fd: seq<byte>, k: nat, a: seq<Seg>, b: seq<Seg>)
    ensures Extended(fd, k, a + b) == Extended(Extended(fd, k, a), k + |a|, b)
    decreases |a|
  {
    if a == [] {
      assert a + b == b;
    } else {
      assert (a + b)[1..] == a[1..] + b;
      ExtendedSplit(Assign(fd, 16 + 5 * k, EntryBytes(a[0])), k + 1, a[1..], b);
    }
  }

  /** Of entries that run over the table only the first ones are in the descriptor sector read later. */
  lemma OverrunEntry(fd: seq<byte>, k: nat, a: seq<Seg>, b: seq<Seg>, size: nat, i: nat)
    requires |fd| == SECTOR && k + |a| == ENTRIES && Encodable(a) && i < ENTRIES
    ensures var fd' := NewFd(fd, k, a + b, size);
            |fd'| >= SECTOR && EntryAt(fd'[..SECTOR], i) == if k <= i then a[i - k] else EntryAt(fd, i)
  {
    var fd1 := Extended(fd, k, a);
    var fd2 := Extended(fd, k, a + b);
    var fd' := NewFd(fd, k, a + b, size);
    ExtendedEntry(fd, k, a, i);
    ExtendedFrame(fd, k, a, 0);
    ExtendedSplit(fd, k, a, b);
    ExtendedBehind(fd1, ENTRIES, b, 0);
    AssignAt(fd2, 9, ToBe(size, 4));
    forall p | 16 + 5 * i <= p < 16 + 5 * (i + 1)
      ensures fd'[..SECTOR][p] == fd1[p]
    {
      ExtendedBehind(fd1, ENTRIES, b, p);
    }
    EntrySame(fd1, fd'[..SECTOR], i);
  }

  lemma OverrunLists(fd: seq<byte>, a: seq<Seg>, b: seq<Seg>, size: nat)
    requires |fd| == SECTOR && SegCount(Table(fd, ENTRIES)) + |a| == ENTRIES && Encodable(a)
    ensures var fd' := NewFd(fd, SegCount(Table(fd, ENTRIES)), a + b, size);
            && |fd'| >= SECTOR
            && UsedIn(Table(fd'[..SECTOR], ENTRIES)) == UsedIn(Table(fd, ENTRIES)) + a
  {
    var t := Table(fd, ENTRIES);
    var k := SegCount(t);
    var fd' := NewFd(fd, k, a + b, size);
    OverrunEntry(fd, k, a, b, size, 0);
    var seen := fd'[..SECTOR];
    forall i | 0 <= i < ENTRIES
      ensures EntryAt(seen, i) == if k <= i < k + |a| then a[i - k] else EntryAt(fd, i)
    {
      OverrunEntry(fd, k, a, b, size, i);
    }
    TableGrown(fd, seen, k, a);
    UsedGrown(t, Table(seen, ENTRIES), k, a);
  }

  lemma {:induction false} ReadBounded(d: seq<byte>, segs: seq<Seg>, size: nat)
    ensures |ReadSegs(d, segs, size)| <= Capacity(segs)
    decreases |segs|
  {
    if segs != [] {
      var piece := ReadAt(d, segs[0].lsn * SECTOR, Min(size, segs[0].cnt * SECTOR));
      if |piece| < size { ReadBounded(d, segs[1..], size - |piece|); }
    }
  }

  lemma ReadFront(d: seq<byte>, off: nat, v: seq<byte>, n: nat)
    requires n <= |v|
    ensures ReadAt(WriteAt(d, off, v), off, n) == v[..n]
  {
  }

  /** The segments a reader finds after an overrun are too few for the file. */
  lemma OverrunShort(l: Layout, size: nat, taken: seq<nat>, m: nat)
    requires l.ratio > 0 && size > Capacity(UsedIn(l.table)) && |taken| == Growth(l, size) && m < |taken|
    ensures Capacity(UsedIn(l.table) + ClusterSegs(taken[..m], l.ratio)) < size
  {
    CapacityAppend(UsedIn(l.table), ClusterSegs(taken[..m], l.ratio));
    ClusterCapacity(taken[..m], l.ratio);
    NoSpareCluster(size - Capacity(UsedIn(l.table)), l.ratio, m);
  }

  lemma ClusterSegsSplit(taken: seq<nat>, ratio: nat, m: nat)
    requires m <= |taken|
    ensures ClusterSegs(taken, ratio) == ClusterSegs(taken[..m], ratio) + ClusterSegs(taken[m..], ratio)
  {
  }

  /** The new entries still lie inside the descriptor's sector. */
  predicate InsideSector(l: Layout, size: nat) { 16 + 5 * (SegCount(l.table) + Growth(l, size)) <= SECTOR }

  // ----- entries that run past the sector -----

  /** The descriptor as written is longer than its sector exactly when the entries do not stay inside. */
  lemma NewFdLength(d: seq<byte>, taken: seq<nat>, size: nat)
    requires |FdOf(d)| == SECTOR && |taken| == Growth(LayoutOf(d), size)
    ensures |NewFdOf(d, taken, size)| == Max(SECTOR, 16 + 5 * (SegCount(LayoutOf(d).table) + |taken|))
    ensures |NewFdOf(d, taken, size)| > SECTOR <==> !InsideSector(LayoutOf(d), size)
  {
    ExtendedLength(FdOf(d), SegCount(LayoutOf(d).table), ClusterSegs(taken, ClusterSize(d)));
    AssignAt(GrownFd(d, taken), 9, ToBe(size, 4));
  }

  /** What every update that is carried through writes, on whatever image: outside the segments, the
      bitmap and the bytes of the descriptor as written nothing changes, and those bytes are the
      descriptor, past its sector too. */
  ghost predicate Written(d: seq<byte>, d': seq<byte>, taken: seq<nat>, size: nat) {
    var fd := NewFdOf(d, taken, size);
    && ReadAt(d', FD_LSN * SECTOR, |fd|) == fd
    && forall p: nat :: Untouched(d, NewSegs(d, taken), MapLsn(d) * SECTOR, |MapOf(d)|, |fd|, p) ==> Get(d', p) == d[p]
  }

  lemma WrittenFrame(d: seq<byte>, d1: seq<byte>, boot: seq<byte>, taken: seq<nat>, bits': seq<byte>)
    requires TakenFor(LayoutOf(d), |boot|, taken, bits') && MapWritten(d, d1, |boot|, bits')
    ensures Written(d, NewImage(d, d1, boot, taken), taken, |boot|)
  {
    var segs, fd := NewSegs(d, taken), NewFdOf(d, taken, |boot|);
    ReadWritten(WriteSegs(d1, segs, boot), FD_LSN * SECTOR, fd);
    forall p: nat | Untouched(d, segs, MapLsn(d) * SECTOR, |MapOf(d)|, |fd|, p)
      ensures Get(NewImage(d, d1, boot, taken), p) == d[p]
    {
      if |boot| > Capacity(SegsOf(d)) { Frame(d, MapLsn(d) * SECTOR, bits', segs, boot, fd, p); }
      else { Frame(d, MapLsn(d) * SECTOR, MapOf(d), segs, boot, fd, p); }
    }
  }

  // ----- exactly when the read-back passes -----

  /** The byte of the image that holds byte i of a file in these segments. */
  function PosOf(segs: seq<Seg>, i: nat): nat
    decreases |segs|
  {
    if segs == [] then 0
    else if i < segs[0].cnt * SECTOR then segs[0].lsn * SECTOR + i
    else PosOf(segs[1..], i - segs[0].cnt * SECTOR)
  }

  /** There is room for n bytes, and the image reaches over all of them. */
  predicate Reaches(d: seq<byte>, segs: seq<Seg>, n: nat)
    decreases |segs|
  {
    if segs == [] then n == 0
    else
      var full := segs[0].cnt * SECTOR;
      && (Min(n, full) > 0 ==> segs[0].lsn * SECTOR + Min(n, full) <= |d|)
      && (n > full ==> Reaches(d, segs[1..], n - full))
  }

  lemma {:induction false} ReachesLonger(d: seq<byte>, d': seq<byte>, segs: seq<Seg>, n: nat)
    requires Reaches(d, segs, n) && |d| <= |d'|
    ensures Reaches(d', segs, n)
    decreases |segs|
  {
    if segs != [] && n > segs[0].cnt * SECTOR { ReachesLonger(d, d', segs[1..], n - segs[0].cnt * SECTOR); }
  }

  /** Writing makes the image reach over the file. */
  lemma {:induction false} WriteReaches(d: seq<byte>, segs: seq<Seg>, data: seq<byte>)
    requires |data| <= Capacity(segs)
    ensures Reaches(WriteSegs(d, segs, data), segs, |data|)
    decreases |segs|
  {
    if segs != [] {
      var chunk := Min(|data|, segs[0].cnt * SECTOR);
      WriteGet(d, segs[0].lsn * SECTOR, data[..chunk], 0);
      if |data| != chunk {
        WriteReaches(WriteAt(d, segs[0].lsn * SECTOR, data[..chunk]), segs[1..], data[chunk..]);
      }
    }
  }

  /** A read is cut at the end of the first segment. */
  lemma ReadCut(d: seq<byte>, segs: seq<Seg>, n: nat) returns (piece: seq<byte>, rest: seq<byte>, left: nat)
    requires segs != [] && Reaches(d, segs, n)
    ensures ReadSegs(d, segs, n) == piece + rest && |piece| + left == n && |piece| <= segs[0].cnt * SECTOR
    ensures piece == ReadAt(d, segs[0].lsn * SECTOR, |piece|)
    ensures |piece| > 0 ==> segs[0].lsn * SECTOR + |piece| <= |d|
    ensures if left == 0 then rest == []
            else |piece| == segs[0].cnt * SECTOR && Reaches(d, segs[1..], left) && rest == ReadSegs(d, segs[1..], left)
  {
    var chunk := Min(n, segs[0].cnt * SECTOR);
    piece, left := ReadAt(d, segs[0].lsn * SECTOR, chunk), n - chunk;
    rest := if left == 0 then [] else ReadSegs(d, segs[1..], left);
    ReadPieces(d, segs, n, chunk, piece, rest);
  }

  lemma {:induction false} ReadLength(d: seq<byte>, segs: seq<Seg>, n: nat)
    requires Reaches(d, segs, n)
    ensures |ReadSegs(d, segs, n)| == n
    decreases |segs|
  {
    if segs != [] {
      var piece, rest, left := ReadCut(d, segs, n);
      if left > 0 { ReadLength(d, segs[1..], left); }
    }
  }

  /** Reading gives, byte by byte, what the image holds at the file's positions. */
  lemma {:induction false} ReadIs(d: seq<byte>, segs: seq<Seg>, n: nat, i: nat)
    requires i < n && Reaches(d, segs, n)
    ensures PosOf(segs, i) < |d|
    ensures |ReadSegs(d, segs, n)| == n && ReadSegs(d, segs, n)[i] == d[PosOf(segs, i)]
    decreases |segs|
  {
    var piece, rest, left := ReadCut(d, segs, n);
    ReadLength(d, segs, n);
    if i < |piece| {
      assert piece[i] == d[segs[0].lsn * SECTOR + i];
    } else {
      ReadIs(d, segs[1..], left, i - |piece|);
    }
  }

  /** If the descriptor as written falls on byte i of the file, it holds the same byte. */
  predicate AgreesAt(segs: seq<Seg>, boot: seq<byte>, fd: seq<byte>, i: nat)
    requires i < |boot|
  {
    var p := PosOf(segs, i);
    FD_LSN * SECTOR <= p < FD_LSN * SECTOR + |fd| ==> boot[i] == fd[p - FD_LSN * SECTOR]
  }

  /** Where the descriptor as written falls on the file, it holds the same bytes. */
  ghost predicate Agrees(segs: seq<Seg>, boot: seq<byte>, fd: seq<byte>) {
    forall i :: 0 <= i < |boot| ==> AgreesAt(segs, boot, fd, i)
  }

  /** The image w holds the boot data at the file's positions. */
  predicate Holds(w: seq<byte>, segs: seq<Seg>, boot: seq<byte>) {
    forall i :: 0 <= i < |boot| ==> PosOf(segs, i) < |w| && Get(w, PosOf(segs, i)) == boot[i]
  }

  lemma StoredHolds(d: seq<byte>, segs: seq<Seg>, boot: seq<byte>)
    requires AllDisjoint(segs) && |boot| <= Capacity(segs)
    ensures Holds(WriteSegs(d, segs, boot), segs, boot)
  {
    var w := WriteSegs(d, segs, boot);
    WriteReaches(d, segs, boot);
    WriteThenRead(d, segs, boot, w);
    forall i | 0 <= i < |boot|
      ensures PosOf(segs, i) < |w| && Get(w, PosOf(segs, i)) == boot[i]
    {
      ReadIs(w, segs, |boot|, i);
    }
  }

  /** The descriptor written over w leaves byte i of the file as it was exactly if it agrees there. */
  lemma OverwrittenAt(w: seq<byte>, segs: seq<Seg>, boot: seq<byte>, fd: seq<byte>, i: nat)
    requires i < |boot| && PosOf(segs, i) < |w| && Get(w, PosOf(segs, i)) == boot[i]
    ensures Get(WriteAt(w, FD_LSN * SECTOR, fd), PosOf(segs, i)) == boot[i] <==> AgreesAt(segs, boot, fd, i)
  {
    WriteGet(w, FD_LSN * SECTOR, fd, PosOf(segs, i));
  }

  /** Over any descriptor: the data reads back exactly if the descriptor agrees with it. */
  lemma StoredIff(d: seq<byte>, segs: seq<Seg>, boot: seq<byte>, fd: seq<byte>)
    requires AllDisjoint(segs) && |boot| <= Capacity(segs)
    ensures ReadSegs(WriteAt(WriteSegs(d, segs, boot), FD_LSN * SECTOR, fd), segs, |boot|) == boot
            <==> Agrees(segs, boot, fd)
  {
    var w := WriteSegs(d, segs, boot);
    StoredHolds(d, segs, boot);
    var d' := WriteAt(w, FD_LSN * SECTOR, fd);
    WriteReaches(d, segs, boot);
    ReachesLonger(w, d', segs, |boot|);
    ReadLength(d', segs, |boot|);
    forall i | 0 <= i < |boot|
      ensures ReadSegs(d', segs, |boot|)[i] == boot[i] <==> AgreesAt(segs, boot, fd, i)
    {
      ReadIs(d', segs, |boot|, i);
      OverwrittenAt(w, segs, boot, fd, i);
    }
    SameIff(ReadSegs(d', segs, |boot|), segs, boot, fd);
  }

  lemma SameIff(r: seq<byte>, segs: seq<Seg>, boot: seq<byte>, fd: seq<byte>)
    requires |r| == |boot| && forall i :: 0 <= i < |boot| ==> (r[i] == boot[i] <==> AgreesAt(segs, boot, fd, i))
    ensures r == boot <==> Agrees(segs, boot, fd)
  {
  }

  lemma SizeBack(d: seq<byte>, x: seq<byte>, taken: seq<nat>, size: nat)
    requires |FdOf(d)| == SECTOR && |taken| == Growth(LayoutOf(d), size) && size < 0x1_0000_0000
    ensures SizeIn(FdOf(WriteAt(x, FD_LSN * SECTOR, NewFdOf(d, taken, size)))) == size
  {
    var fd, v := NewFdOf(d, taken, size), ToBe(size, 4);
    NewFdLength(d, taken, size);
    ReadFront(x, FD_LSN * SECTOR, fd, SECTOR);
    ExtendedLength(FdOf(d), SegCount(LayoutOf(d).table), ClusterSegs(taken, ClusterSize(d)));
    AssignAt(GrownFd(d, taken), 9, v);
    assert fd[..SECTOR][9..13] == fd[9..13];
    Widths();
    BeToBe(size, 4);
  }

  lemma ApartSegs(d: seq<byte>, size: nat, taken: seq<nat>, bits': seq<byte>)
    requires SafeApart(d, size) && TakenFor(LayoutOf(d), size, taken, bits')
    ensures |FdOf(d)| == SECTOR && size <= Capacity(NewSegs(d, taken)) && SafeSegs(NewSegs(d, taken))
  {
    CntBound(d);
    ApartLayout(LayoutOf(d), size, taken, bits');
  }

  lemma ApartLayout(l: Layout, size: nat, taken: seq<nat>, bits': seq<byte>)
    requires SafeBesides(l, size) && TakenFor(l, size, taken, bits') && l.ratio < 0x1_0000
    ensures size <= Capacity(GrownSegs(l, taken)) && SafeSegs(GrownSegs(l, taken))
  {
    GrownRoom(l, size, taken, bits');
    GrownSegsSafe(l, size, taken, bits');
  }

  /** The tool's read-back passes if and only if the descriptor as written agrees with the boot data
      wherever it falls on the file. */
  lemma ReadBackIff(d: seq<byte>, d1: seq<byte>, boot: seq<byte>, taken: seq<nat>, bits': seq<byte>)
    requires SafeApart(d, |boot|) && TakenFor(LayoutOf(d), |boot|, taken, bits')
    ensures var d' := NewImage(d, d1, boot, taken);
            ReadSegs(d', NewSegs(d, taken), SizeIn(FdOf(d'))) == boot
            <==> Agrees(NewSegs(d, taken), boot, NewFdOf(d, taken, |boot|))
  {
    ApartSegs(d, |boot|, taken, bits');
    SizeBack(d, WriteSegs(d1, NewSegs(d, taken), boot), taken, |boot|);
    StoredIff(d1, NewSegs(d, taken), boot, NewFdOf(d, taken, |boot|));
  }

  lemma {:induction false} PosBeyond(segs: seq<Seg>, i: nat)
    requires i >= Capacity(segs)
    ensures PosOf(segs, i) == 0
    decreases |segs|
  {
    if segs != [] { PosBeyond(segs[1..], i - segs[0].cnt * SECTOR); }
  }

  lemma {:induction false} PosInside(segs: seq<Seg>, i: nat)
    requires i < Capacity(segs)
    ensures InAny(segs, PosOf(segs, i))
    decreases |segs|
  {
    if i < segs[0].cnt * SECTOR {
      assert InSeg(segs[0], PosOf(segs, i));
    } else {
      PosInside(segs[1..], i - segs[0].cnt * SECTOR);
      var k :| 0 <= k < |segs[1..]| && InSeg(segs[1..][k], PosOf(segs, i));
      assert InSeg(segs[k + 1], PosOf(segs, i));
    }
  }

  /** In particular it passes if no segment meets the bytes of the descriptor as written ... */
  lemma ApartAgrees(segs: seq<Seg>, boot: seq<byte>, fd: seq<byte>)
    requires forall p: nat :: FD_LSN * SECTOR <= p < FD_LSN * SECTOR + |fd| ==> !InAny(segs, p)
    ensures Agrees(segs, boot, fd)
  {
    forall i | 0 <= i < |boot|
      ensures AgreesAt(segs, boot, fd, i)
    {
      if i < Capacity(segs) { PosInside(segs, i); } else { PosBeyond(segs, i); }
    }
  }

  /** The descriptor as written falls on byte i of the file. */
  predicate Covers(segs: seq<Seg>, fd: seq<byte>, i: nat) {
    FD_LSN * SECTOR <= PosOf(segs, i) < FD_LSN * SECTOR + |fd|
  }

  /** ... and it passes whatever the boot data of that size exactly if the descriptor falls on none of
      the bytes it takes. */
  lemma AllAgreeIff(segs: seq<Seg>, n: nat, fd: seq<byte>)
    ensures (forall boot: seq<byte> :: |boot| == n ==> Agrees(segs, boot, fd))
            <==> (forall i :: 0 <= i < n ==> !Covers(segs, fd, i))
  {
    if i :| 0 <= i < n && Covers(segs, fd, i) {
      var other: byte := if fd[PosOf(segs, i) - FD_LSN * SECTOR] == 0 then 1 else 0;
      var boot: seq<byte> := seq(n, _ => other);
      assert !AgreesAt(segs, boot, fd, i);
      assert |boot| == n && !Agrees(segs, boot, fd);
    } else {
      forall boot: seq<byte> | |boot| == n
        ensures Agrees(segs, boot, fd)
      {
        forall i | 0 <= i < n
          ensures AgreesAt(segs, boot, fd, i)
        {
          assert !Covers(segs, fd, i);
        }
      }
    }
  }

  /** As long as the entries stay inside the sector, the read-back of the tool finds nothing wrong:
      it reads the segments it has in memory, not those in the table. */
  lemma ReadBackPasses(d: seq<byte>, d1: seq<byte>, boot: seq<byte>, taken: seq<nat>, bits': seq<byte>)
    requires SafeApart(d, |boot|) && InsideSector(LayoutOf(d), |boot|) && TakenFor(LayoutOf(d), |boot|, taken, bits')
    ensures Agrees(NewSegs(d, taken), boot, NewFdOf(d, taken, |boot|))
    ensures var d' := NewImage(d, d1, boot, taken);
            ReadSegs(d', NewSegs(d, taken), SizeIn(FdOf(d'))) == boot
  {
    ApartSegs(d, |boot|, taken, bits');
    NewFdLength(d, taken, |boot|);
    forall p: nat | FD_LSN * SECTOR <= p < FD_LSN * SECTOR + SECTOR
      ensures !InAny(NewSegs(d, taken), p)
    {
      SectorApart(NewSegs(d, taken), p);
    }
    ApartAgrees(NewSegs(d, taken), boot, NewFdOf(d, taken, |boot|));
    ReadBackIff(d, d1, boot, taken, bits');
  }

  /** It fails if the file starts right behind the descriptor's sector, the entries run past it,
      and the first byte of the boot data is another than the one written there. */
  lemma FirstByteLost(segs: seq<Seg>, boot: seq<byte>, fd: seq<byte>)
    requires segs != [] && segs[0].lsn == FD_LSN + 1 && segs[0].cnt > 0 && |fd| > SECTOR
    requires boot != [] && boot[0] != fd[SECTOR]
    ensures !Agrees(segs, boot, fd)
  {
    assert PosOf(segs, 0) == (FD_LSN + 1) * SECTOR;
    assert !AgreesAt(segs, boot, fd, 0);
  }

  /** Where the new entries do not fit the table, the descriptor lists too little room for the file. */
  lemma OverrunListsShort(fd: seq<byte>, l: Layout, size: nat, taken: seq<nat>)
    requires |fd| == SECTOR && l.table == Table(fd, ENTRIES) && !Fits(l, size)
    requires |taken| == Growth(l, size) && Encodable(ClusterSegs(taken, l.ratio))
    ensures var fd' := NewFd(fd, SegCount(l.table), ClusterSegs(taken, l.ratio), size);
            |fd'| >= SECTOR && Capacity(UsedIn(Table(fd'[..SECTOR], ENTRIES))) < size
  {
    var m := ENTRIES - SegCount(l.table);
    var a, b := ClusterSegs(taken[..m], l.ratio), ClusterSegs(taken[m..], l.ratio);
    ClusterSegsSplit(taken, l.ratio, m);
    EncodableHead(a, b);
    OverrunLists(fd, a, b, size);
    OverrunShort(l, size, taken, m);
  }

  lemma FileWithin(x: seq<byte>, fd: seq<byte>, size: nat)
    requires |fd| >= SECTOR && Capacity(UsedIn(Table(fd[..SECTOR], ENTRIES))) < size
    ensures |FileIn(WriteAt(x, FD_LSN * SECTOR, fd))| < size
  {
    var d' := WriteAt(x, FD_LSN * SECTOR, fd);
    ReadFront(x, FD_LSN * SECTOR, fd, SECTOR);
    ReadBounded(d', SegsOf(d'), SizeIn(FdOf(d')));
  }

  /** The update then loses the end of the file: whoever reads the image afterwards gets less than
      the boot data, though every byte of it was written. */
  lemma OverrunLoses(d: seq<byte>, d1: seq<byte>, boot: seq<byte>, taken: seq<nat>)
    requires |d| >= (FD_LSN + 1) * SECTOR && !Fits(LayoutOf(d), |boot|)
    requires |taken| == Growth(LayoutOf(d), |boot|) && Encodable(ClusterSegs(taken, ClusterSize(d)))
    ensures |FileIn(NewImage(d, d1, boot, taken))| < |boot|
  {
    OverrunListsShort(FdOf(d), LayoutOf(d), |boot|, taken);
    FileWithin(WriteSegs(d1, NewSegs(d, taken), boot), NewFdOf(d, taken, |boot|), |boot|);
  }

  lemma EncodableHead(a: seq<Seg>, b: seq<Seg>)
    requires Encodable(a + b)
    ensures Encodable(a)
  {
    forall j | 0 <= j < |a|
      ensures a[j].lsn < 0x100_0000 && 0 < a[j].cnt < 0x1_0000
    {
      assert (a + b)[j] == a[j];
    }
  }

  // ----- the bitmap afterwards -----

  /** A sector marked used, not the file's own and not the descriptor. */
  predicate ReservedSector(l: Layout, sector: nat)
    requires l.ratio > 0
  {
    && Used(l.bits, sector / l.ratio) && sector != FD_LSN
    && Misses(UsedIn(l.table), sector)
  }

  /** Byte p lies in a reserved sector. */
  predicate Reserved(l: Layout, p: nat)
    requires l.ratio > 0
  {
    ReservedSector(l, p / SECTOR)
  }

  /** Header and bitmap lie in reserved sectors, apart from each other. */
  ghost predicate MapReserved(d: seq<byte>) {
    && ClusterSize(d) > 0 && MapLsn(d) > 0 && MapLsn(d) * SECTOR + MapBytes(d) <= |d| && SECTOR <= |d|
    && (forall p: nat :: p < SECTOR ==> Reserved(LayoutOf(d), p))
    && (forall p: nat :: MapLsn(d) * SECTOR <= p < MapLsn(d) * SECTOR + MapBytes(d) ==> Reserved(LayoutOf(d), p))
  }

  lemma SectorApart(segs: seq<Seg>, p: nat)
    requires Misses(segs, p / SECTOR)
    ensures !InAny(segs, p)
  {
    forall i | 0 <= i < |segs|
      ensures !InSeg(segs[i], p)
    {
      assert !InSector(segs[i], p / SECTOR);
    }
  }

  /** Data and descriptor are written elsewhere. */
  lemma WritesMiss(d1: seq<byte>, segs: seq<Seg>, boot: seq<byte>, fd: seq<byte>, p: nat)
    requires p < |d1| && !InAny(segs, p) && p / SECTOR != FD_LSN && |fd| == SECTOR
    ensures Get(WriteAt(WriteSegs(d1, segs, boot), FD_LSN * SECTOR, fd), p) == d1[p]
  {
    WriteSegsFrame(d1, segs, boot, p);
    WriteGet(WriteSegs(d1, segs, boot), FD_LSN * SECTOR, fd, p);
  }

  lemma SectorKept(l: Layout, taken: seq<nat>, bits': seq<byte>, sector: nat)
    requires l.ratio > 0 && Marked(l.bits, bits', taken) && ReservedSector(l, sector)
    ensures Misses(GrownSegs(l, taken), sector)
  {
    OthersSafe(UsedIn(l.table), l.bits, bits', l.ratio, taken, sector);
  }

  lemma ReservedApart(l: Layout, taken: seq<nat>, bits': seq<byte>, p: nat)
    requires l.ratio > 0 && Marked(l.bits, bits', taken) && Reserved(l, p)
    ensures !InAny(GrownSegs(l, taken), p)
  {
    SectorKept(l, taken, bits', p / SECTOR);
    SectorApart(GrownSegs(l, taken), p);
  }

  lemma ReservedKept(l: Layout, taken: seq<nat>, bits': seq<byte>, d1: seq<byte>, boot: seq<byte>, fd: seq<byte>,
                     p: nat)
    requires l.ratio > 0 && Marked(l.bits, bits', taken) && Reserved(l, p) && p < |d1| && |fd| == SECTOR
    ensures Get(WriteAt(WriteSegs(d1, GrownSegs(l, taken), boot), FD_LSN * SECTOR, fd), p) == d1[p]
  {
    ReservedApart(l, taken, bits', p);
    WritesMiss(d1, GrownSegs(l, taken), boot, fd, p);
  }

  /** A stretch of reserved bytes reads the same before and after data and descriptor are written. */
  lemma StretchKept(l: Layout, taken: seq<nat>, bits': seq<byte>, d1: seq<byte>, boot: seq<byte>, fd: seq<byte>,
                    off: nat, n: nat)
    requires l.ratio > 0 && Marked(l.bits, bits', taken) && off + n <= |d1| && |fd| == SECTOR
    requires forall p: nat :: off <= p < off + n ==> Reserved(l, p)
    ensures ReadAt(WriteAt(WriteSegs(d1, GrownSegs(l, taken), boot), FD_LSN * SECTOR, fd), off, n) == ReadAt(d1, off, n)
  {
    var d' := WriteAt(WriteSegs(d1, GrownSegs(l, taken), boot), FD_LSN * SECTOR, fd);
    forall p: nat | off <= p < off + n
      ensures Get(d', p) == Get(d1, p)
    {
      ReservedKept(l, taken, bits', d1, boot, fd, p);
    }
    ReadSame(d', d1, off, n);
  }

  /** Writing the bitmap does not touch the header sector. */
  lemma HeaderKept(d: seq<byte>, mapAt: nat, bits': seq<byte>)
    requires SECTOR <= mapAt && SECTOR <= |d|
    ensures ReadAt(WriteAt(d, mapAt, bits'), 0, SECTOR) == ReadAt(d, 0, SECTOR)
  {
    forall p: nat | p < SECTOR
      ensures Get(WriteAt(d, mapAt, bits'), p) == Get(d, p)
    {
      WriteGet(d, mapAt, bits', p);
    }
    ReadSame(WriteAt(d, mapAt, bits'), d, 0, SECTOR);
  }

  /** A file that did not grow leaves the bitmap as it was. */
  lemma MapUntouched(d: seq<byte>, boot: seq<byte>)
    requires Safe(d, |boot|) && MapReserved(d) && |boot| <= Capacity(SegsOf(d))
    ensures var d' := NewImage(d, d, boot, []); MapOf(d') == MapOf(d) && Marked(MapOf(d), MapOf(d'), [])
  {
    var l, mapAt, fd := LayoutOf(d), MapLsn(d) * SECTOR, NewFdOf(d, [], |boot|);
    assert |fd| == SECTOR by { NewSegsSafe(d, |boot|, [], []); }
    assert Marked(l.bits, l.bits, []);
    StretchKept(l, [], l.bits, d, boot, fd, 0, SECTOR);
    StretchKept(l, [], l.bits, d, boot, fd, mapAt, MapBytes(d));
    SameMap(d, NewImage(d, d, boot, []), l.bits);
  }

  /** After growing, the bitmap in the image is the old one with exactly the taken clusters marked:
      neither the data nor the descriptor was written over it or over the header. */
  lemma MapGrown(d: seq<byte>, boot: seq<byte>, taken: seq<nat>, bits': seq<byte>)
    requires Safe(d, |boot|) && MapReserved(d) && |boot| > Capacity(SegsOf(d))
    requires TakenFor(LayoutOf(d), |boot|, taken, bits')
    ensures var d' := NewImage(d, WriteAt(d, MapLsn(d) * SECTOR, bits'), boot, taken);
            MapOf(d') == bits' && Marked(MapOf(d), MapOf(d'), taken)
  {
    var fd := NewFdOf(d, taken, |boot|);
    assert |fd| == SECTOR by { NewSegsSafe(d, |boot|, taken, bits'); }
    MapKept(d, LayoutOf(d), MapLsn(d) * SECTOR, boot, taken, bits', fd);
    SameMap(d, NewImage(d, WriteAt(d, MapLsn(d) * SECTOR, bits'), boot, taken), bits');
  }

  /** Header and new bitmap are read back from the image. */
  lemma MapKept(d: seq<byte>, l: Layout, mapAt: nat, boot: seq<byte>, taken: seq<nat>, bits': seq<byte>, fd: seq<byte>)
    requires l.ratio > 0 && Marked(l.bits, bits', taken) && |fd| == SECTOR
    requires SECTOR <= mapAt && mapAt + |bits'| <= |d| && SECTOR <= |d|
    requires forall p: nat :: p < SECTOR ==> Reserved(l, p)
    requires forall p: nat :: mapAt <= p < mapAt + |bits'| ==> Reserved(l, p)
    ensures var d' := WriteAt(WriteSegs(WriteAt(d, mapAt, bits'), GrownSegs(l, taken), boot), FD_LSN * SECTOR, fd);
            ReadAt(d', 0, SECTOR) == ReadAt(d, 0, SECTOR) && ReadAt(d', mapAt, |bits'|) == bits'
  {
    var d1 := WriteAt(d, mapAt, bits');
    HeaderKept(d, mapAt, bits');
    StretchKept(l, taken, bits', d1, boot, fd, 0, SECTOR);
    ReadWritten(d, mapAt, bits');
    StretchKept(l, taken, bits', d1, boot, fd, mapAt, |bits'|);
  }

  /** In either case exactly the taken clusters are newly marked in the image. */
  lemma MapSurvives(d: seq<byte>, d1: seq<byte>, boot: seq<byte>, taken: seq<nat>, bits': seq<byte>)
    requires Safe(d, |boot|) && MapReserved(d) && TakenFor(LayoutOf(d), |boot|, taken, bits')
    requires MapWritten(d, d1, |boot|, bits')
    ensures Marked(MapOf(d), MapOf(NewImage(d, d1, boot, taken)), taken)
  {
    if |boot| > Capacity(SegsOf(d)) { MapGrown(d, boot, taken, bits'); } else { MapUntouched(d, boot); }
  }

  lemma SameMap(d: seq<byte>, d': seq<byte>, bits': seq<byte>)
    requires ReadAt(d', 0, SECTOR) == ReadAt(d, 0, SECTOR) && |bits'| == MapBytes(d)
    requires ReadAt(d', MapLsn(d) * SECTOR, |bits'|) == bits'
    ensures MapOf(d') == bits' && MapLsn(d') == MapLsn(d) && ClusterSize(d') == ClusterSize(d)
  {
  }

  // ----- the loops over segments -----

  class Disk {
    var data: seq<byte>

    constructor (data: seq<byte>)
      ensures this.data == data
    {
      this.data := data;
    }

    method WriteSegments(segs: seq<Seg>, boot: seq<byte>) returns (remaining: nat)
      modifies this
      ensures data == WriteSegs(old(data), segs, boot)
      ensures remaining == 0 <==> |boot| <= Capacity(segs)
    {
      ghost var goal := WriteSegs(data, segs, boot);
      var left, rest := boot, segs;
      while rest != []
        invariant WriteSegs(data, rest, left) == goal
        invariant |left| <= Capacity(rest) <==> |boot| <= Capacity(segs)
        decreases |rest|
      {
        var chunk := Min(|left|, rest[0].cnt * SECTOR);
        data := WriteAt(data, rest[0].lsn * SECTOR, left[..chunk]);
        left, rest := left[chunk..], rest[1..];
        if left == [] { break; }
      }
      return |left|;
    }

    method ReadSegments(segs: seq<Seg>, size: nat) returns (back: seq<byte>)
      ensures back == ReadSegs(data, segs, size)
    {
      ghost var goal := ReadSegs(data, segs, size);
      back := [];
      var i := 0;
      while i < |segs|
        invariant 0 <= i <= |segs| && |back| <= size
        invariant back + ReadSegs(data, segs[i..], size - |back|) == goal
      {
        var chunk := Min(size - |back|, segs[i].cnt * SECTOR);
        var piece := ReadAt(data, segs[i].lsn * SECTOR, chunk);
        assert segs[i..][0] == segs[i] && segs[i..][1..] == segs[i + 1..];
        ConcatAssoc(back, piece, ReadSegs(data, segs[i + 1..], size - |back| - |piece|));
        back := back + piece;
        i := i + 1;
        if |back| == size { break; }
      }
    }

    /** Take clusters from the bitmap, write it back and enter them in the segment table. */
    method GrowFile(fd: seq<byte>, segs: seq<Seg>, segCount: nat, size: nat, mapLsn: nat, l: Layout)
      returns (r: Result, fd': seq<byte>, segs': seq<Seg>, ghost taken: seq<nat>, ghost bits': seq<byte>)
      requires segs == UsedIn(l.table) && size > Capacity(segs)
      modifies this
      ensures r in {ZeroClusterSize, NoSpace, SectorTooLarge, Done}
      ensures r == ZeroClusterSize <==> l.ratio == 0
      ensures r == NoSpace <==> Short(l, size)
      ensures r == ZeroClusterSize || r == NoSpace ==> data == old(data)
      ensures r == Done || r == SectorTooLarge ==>
                && TakenFor(l, size, taken, bits')
                && Chosen(l, size, taken)
                && data == WriteAt(old(data), mapLsn * SECTOR, bits')
      ensures r == SectorTooLarge ==> exists k :: 0 <= k < |taken| && TooLarge(taken[k], l.ratio)
      ensures r == Done ==>
                && (forall k :: 0 <= k < |taken| ==> !TooLarge(taken[k], l.ratio))
                && fd' == Extended(fd, segCount, ClusterSegs(taken, l.ratio)) && segs' == GrownSegs(l, taken)
    {
      if l.ratio == 0 { return ZeroClusterSize, fd, segs, [], []; }
      var needed := NeededClusters(size - Capacity(segs), l.ratio);
      assert needed > 0 by { EnoughClusters(size - Capacity(segs), l.ratio); }
      var newBits, clusters := TakeClusters(l.bits, SearchFrom(segs, l.ratio), needed);
      if |clusters| != needed { return NoSpace, fd, segs, [], []; }
      assert TakenFor(l, size, clusters, newBits) && Chosen(l, size, clusters);
      data := WriteAt(data, mapLsn * SECTOR, newBits);
      var ok;
      ok, fd', segs' := EnterClusters(fd, segs, segCount, clusters, l.ratio);
      return if ok then Done else SectorTooLarge, fd', segs', clusters, newBits;
    }

    /** The segmented write, the new size, the descriptor, and the read-back. */
    method StoreFile(boot: seq<byte>, segs: seq<Seg>, fd: seq<byte>) returns (r: Result)
      modifies this
      ensures r in {Done, DoesNotFit, FileTooLarge, VerifyFailed}
      ensures r == DoesNotFit <==> |boot| > Capacity(segs)
      ensures r == FileTooLarge <==> |boot| <= Capacity(segs) && |boot| >= 0x1_0000_0000
      ensures r == Done || r == VerifyFailed ==>
                && data == WriteAt(WriteSegs(old(data), segs, boot), FD_LSN * SECTOR, Assign(fd, 9, ToBe(|boot|, 4)))
                && (r == Done <==> ReadSegs(data, segs, SizeIn(FdOf(data))) == boot)
    {
      var remaining := WriteSegments(segs, boot);
      if remaining != 0 { return DoesNotFit; }
      if |boot| >= 0x1_0000_0000 { return FileTooLarge; }
      data := WriteAt(data, FD_LSN * SECTOR, Assign(fd, 9, ToBe(|boot|, 4)));
      var back := ReadSegments(segs, SizeIn(FdOf(data)));
      return if back == boot then Done else VerifyFailed;
    }

    /** Parse the descriptor and, if the file is too small, grow it. */
    method Prepare(fd: seq<byte>, size: nat, mapLsn: nat, l: Layout)
      returns (r: Result, fd': seq<byte>, segs: seq<Seg>, ghost taken: seq<nat>, ghost bits': seq<byte>)
      requires l.table == Table(fd, ENTRIES) && l.ratio < 0x1_0000
      modifies this
      ensures r in {ZeroClusterSize, NoSpace, SectorTooLarge, Done}
      ensures r == NoSpace <==> Short(l, size)
      ensures r == NoSpace ==> data == old(data)
      ensures SafeBesides(l, size) ==> r == Done || r == NoSpace
      ensures r == Done && l.ratio > 0 ==> Encodable(ClusterSegs(taken, l.ratio))
      ensures r == Done ==>
                && segs == GrownSegs(l, taken) && TakenFor(l, size, taken, bits') && Chosen(l, size, taken)
                && fd' == Extended(fd, SegCount(l.table), ClusterSegs(taken, l.ratio))
                && data == (if size > Capacity(UsedIn(l.table)) then WriteAt(old(data), mapLsn * SECTOR, bits')
                            else old(data))
    {
      var segCount;
      segs, segCount := ParseSegs(fd);
      fd', taken, bits', r := fd, [], [], Done;
      if size > Capacity(segs) {
        r, fd', segs, taken, bits' := GrowFile(fd, segs, segCount, size, mapLsn, l);
        if r == SectorTooLarge && SafeBesides(l, size) { NoLargeSector(l, taken); }
      } else {
        assert ClusterSegs([], l.ratio) == [] && segs + [] == segs;
      }
    }

    /** update_hda.  Whatever the image, the boot data always fits once space was found, for lack of
        space nothing is changed, and an update that is carried through writes the segments, the bitmap
        and the descriptor only, the latter past its sector if the entries need it.  On an image that
        is safe apart from the segment table, an update that finds space is carried through; anyone who
        reads the image afterwards finds the boot data in the file if and only if the new entries fit
        the table, while the tool's own read-back passes if and only if the descriptor as written
        agrees with the boot data wherever it falls on the file. */
    method Update(boot: seq<byte>) returns (r: Result, ghost taken: seq<nat>)
      modifies this
      ensures r != DoesNotFit
      ensures r == NoSpace <==> Short(LayoutOf(old(data)), |boot|)
      ensures r == NoSpace ==> data == old(data)
      ensures SafeApart(old(data), |boot|) && r != NoSpace ==>
                && (r == Done || r == VerifyFailed)
                && (FileIn(data) == boot <==> Fits(LayoutOf(old(data)), |boot|))
                && (!Fits(LayoutOf(old(data)), |boot|) ==> |FileIn(data)| < |boot|)
                && (r == Done <==> Agrees(NewSegs(old(data), taken), boot, NewFdOf(old(data), taken, |boot|)))
                && (InsideSector(LayoutOf(old(data)), |boot|) ==> r == Done)
      ensures r == Done || r == VerifyFailed ==>
                && Chosen(LayoutOf(old(data)), |boot|, taken) && Written(old(data), data, taken, |boot|)
                && (taken != [] ==> ClusterSize(old(data)) > 0 && BehindLast(LayoutOf(old(data)), taken))
      ensures Safe(old(data), |boot|) && r != NoSpace ==> r == Done && Updated(old(data), data, boot, taken)
      ensures Safe(old(data), |boot|) && MapReserved(old(data)) && r == Done ==>
                Marked(MapOf(old(data)), MapOf(data), taken)
    {
      ghost var d, bits' := data, [];
      var l := LayoutOf(data);
      CntBound(data);
      var fd, segs;
      r, fd, segs, taken, bits' := Prepare(FdOf(data), |boot|, MapLsn(data), l);
      if r != Done { return; }
      GrownRoom(l, |boot|, taken, bits');
      ghost var d1 := data;
      r := StoreFile(boot, segs, fd);
      assert r == Done || r == VerifyFailed ==> data == NewImage(d, d1, boot, taken);
      UpdateFacts(d, d1, boot, taken, bits');
      if taken != [] { ChosenBehindLast(l, |boot|, taken); }
    }
  }

  /** What the three writes come to, in the cases told apart above. */
  lemma UpdateFacts(d: seq<byte>, d1: seq<byte>, boot: seq<byte>, taken: seq<nat>, bits': seq<byte>)
    requires TakenFor(LayoutOf(d), |boot|, taken, bits') && MapWritten(d, d1, |boot|, bits')
    ensures var d' := NewImage(d, d1, boot, taken);
            && (SafeApart(d, |boot|) ==> (FileIn(d') == boot <==> Fits(LayoutOf(d), |boot|)))
            && (SafeApart(d, |boot|) && !Fits(LayoutOf(d), |boot|) ==> |FileIn(d')| < |boot|)
            && Written(d, d', taken, |boot|)
            && (SafeApart(d, |boot|) ==>
                  (ReadSegs(d', NewSegs(d, taken), SizeIn(FdOf(d'))) == boot
                   <==> Agrees(NewSegs(d, taken), boot, NewFdOf(d, taken, |boot|))))
            && (SafeApart(d, |boot|) && InsideSector(LayoutOf(d), |boot|) ==>
                  ReadSegs(d', NewSegs(d, taken), SizeIn(FdOf(d'))) == boot)
            && (Safe(d, |boot|) ==> Updated(d, d', boot, taken))
            && (Safe(d, |boot|) && MapReserved(d) ==> Marked(MapOf(d), MapOf(d'), taken))
  {
    WrittenFrame(d, d1, boot, taken, bits');
    if SafeApart(d, |boot|) {
      ReadBackIff(d, d1, boot, taken, bits');
      if InsideSector(LayoutOf(d), |boot|) { ReadBackPasses(d, d1, boot, taken, bits'); }
      if Fits(LayoutOf(d), |boot|) {
        SafeUpdate(d, d1, boot, taken, bits');
        if MapReserved(d) { MapSurvives(d, d1, boot, taken, bits'); }
      } else {
        CntBound(d);
        GrownSegsSafe(LayoutOf(d), |boot|, taken, bits');
        OverrunLoses(d, d1, boot, taken);
      }
    }
  }

  /** The cluster's sector number does not fit the three bytes of a table entry. */
  predicate TooLarge(c: nat, ratio: nat) { c * ratio >= 0x100_0000 }

  /** On a safe image no cluster has a sector number over 24 bits. */
  lemma NoLargeSector(l: Layout, taken: seq<nat>)
    requires 0 < l.ratio < 0x1_0000 && 8 * |l.bits| * l.ratio <= 0x100_0000
    requires forall k :: 0 <= k < |taken| ==> taken[k] < 8 * |l.bits|
    ensures forall k :: 0 <= k < |taken| ==> !TooLarge(taken[k], l.ratio)
  {
    ClustersEncodable(l.bits, taken, l.ratio);
    forall k | 0 <= k < |taken|
      ensures !TooLarge(taken[k], l.ratio)
    {
      assert ClusterSegs(taken, l.ratio)[k].lsn == taken[k] * l.ratio;
    }
  }

  /** The first i clusters are entered. */
  predicate Entered(fd: seq<byte>, k: nat, added: seq<Seg>, i: nat, fd': seq<byte>) {
    i <= |added| && Extended(fd', k + i, added[i..]) == Extended(fd, k, added)
  }

  lemma EnterStart(fd: seq<byte>, k: nat, added: seq<Seg>, i: nat)
    requires i == 0
    ensures Entered(fd, k, added, i, fd)
  {
    assert added[i..] == added;
  }

  lemma EnterStep(fd: seq<byte>, k: nat, added: seq<Seg>, i: nat, fd': seq<byte>)
    requires Entered(fd, k, added, i, fd') && i < |added|
    ensures Entered(fd, k, added, i + 1, Assign(fd', 16 + 5 * (k + i), EntryBytes(added[i])))
  {
    assert added[i..][0] == added[i] && added[i..][1..] == added[i + 1..];
  }

  /** One table entry per cluster taken; a sector number over 24 bits stops it. */
  method EnterClusters(fd: seq<byte>, segs: seq<Seg>, segCount: nat, clusters: seq<nat>, ratio: nat)
    returns (ok: bool, fd': seq<byte>, segs': seq<Seg>)
    ensures ok <==> forall k :: 0 <= k < |clusters| ==> !TooLarge(clusters[k], ratio)
    ensures ok ==> fd' == Extended(fd, segCount, ClusterSegs(clusters, ratio))
                   && segs' == segs + ClusterSegs(clusters, ratio)
  {
    ghost var added := ClusterSegs(clusters, ratio);
    fd', segs' := fd, segs;
    var i := 0;
    EnterStart(fd, segCount, added, i);
    while i < |clusters|
      invariant 0 <= i <= |clusters|
      invariant forall k :: 0 <= k < i ==> !TooLarge(clusters[k], ratio)
      invariant Entered(fd, segCount, added, i, fd')
      invariant segs' == segs + added[..i]
    {
      if TooLarge(clusters[i], ratio) { return false, fd', segs'; }
      EnterStep(fd, segCount, added, i, fd');
      var entry := Seg(clusters[i] * ratio, ratio);
      fd' := Assign(fd', 16 + 5 * (segCount + i), EntryBytes(entry));
      segs' := segs' + [entry];
      i := i + 1;
    }
    assert added[..i] == added && added[i..] == [];
    ok := true;
  }
}
