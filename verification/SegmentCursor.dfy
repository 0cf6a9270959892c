/** RBF segment lookup: from a byte position in a file to the disk segment that holds it
    (fn_002eca), through a cached cursor into a ring of file descriptor blocks whose totals
    fn_0033f6 keeps. */
module SegmentCursor {

  /** A segment list entry: first sector, and length in clusters (0 ends the list). */
  datatype Seg = Seg(lsn: nat, count: nat)

  /** x << k */
  function Shl(x: nat, k: nat): nat {
    if k == 0 then x else 2 * Shl(x, k - 1)
  }

  lemma {:induction false} ShlAdd(x: nat, y: nat, k: nat)
    ensures Shl(x + y, k) == Shl(x, k) + Shl(y, k)
  {
    if k > 0 { ShlAdd(x, y, k - 1); }
  }

  /** Length of a segment in bytes, for clusters of 2^shift bytes. */
  function Len(s: Seg, shift: nat): nat { Shl(s.count, shift) }

  /** Number of entries before the terminating one. */
  function LiveCount(segs: seq<Seg>): (n: nat)
    ensures n <= |segs| && (n < |segs| ==> segs[n].count == 0)
    ensures forall k :: 0 <= k < n ==> segs[k].count > 0
  {
    if segs == [] || segs[0].count == 0 then 0 else 1 + LiveCount(segs[1..])
  }

  function Live(segs: seq<Seg>): seq<Seg> { segs[..LiveCount(segs)] }

  /** Bytes in the first j entries. */
  function SumLen(segs: seq<Seg>, shift: nat, j: nat): nat
    requires j <= |segs|
  {
    if j == 0 then 0 else SumLen(segs, shift, j - 1) + Len(segs[j - 1], shift)
  }

  // ----- the reference: scan the whole list from its start -----

  datatype Found = NotFound | At(seg: Seg, offset: nat)

  /** The segment that holds byte `pos` of a list that starts at byte `off`. */
  function Scan(segs: seq<Seg>, shift: nat, pos: nat, off: nat): Found {
    if segs == [] then NotFound
    else if pos < off + Len(segs[0], shift) then At(segs[0], off)
    else Scan(segs[1..], shift, pos, off + Len(segs[0], shift))
  }

  lemma {:induction false} SumLenTail(segs: seq<Seg>, shift: nat, j: nat)
    requires 0 < j <= |segs|
    ensures SumLen(segs, shift, j) == Len(segs[0], shift) + SumLen(segs[1..], shift, j - 1)
  {
    if j > 1 { SumLenTail(segs, shift, j - 1); }
  }

  lemma {:induction false} SumLenMonotone(segs: seq<Seg>, shift: nat, i: nat, j: nat)
    requires i <= j <= |segs|
    ensures SumLen(segs, shift, i) <= SumLen(segs, shift, j)
  {
    if i < j { SumLenMonotone(segs, shift, i, j - 1); }
  }

  /** The scan stops at the entry whose range contains the position. */
  lemma {:induction false} ScanFinds(segs: seq<Seg>, shift: nat, pos: nat, off: nat, j: nat)
    requires j < |segs|
    requires off + SumLen(segs, shift, j) <= pos < off + SumLen(segs, shift, j + 1)
    ensures Scan(segs, shift, pos, off) == At(segs[j], off + SumLen(segs, shift, j))
  {
    SumLenTail(segs, shift, j + 1);
    if j > 0 {
      SumLenTail(segs, shift, j);
      SumLenMonotone(segs, shift, 1, j);
      assert SumLen(segs, shift, 1) == SumLen(segs, shift, 0) + Len(segs[0], shift);
      ScanFinds(segs[1..], shift, pos, off + Len(segs[0], shift), j - 1);
    }
  }

  lemma {:induction false} ScanMisses(segs: seq<Seg>, shift: nat, pos: nat, off: nat)
    requires off + SumLen(segs, shift, |segs|) <= pos
    ensures Scan(segs, shift, pos, off) == NotFound
  {
    if segs != [] {
      SumLenTail(segs, shift, |segs|);
      ScanMisses(segs[1..], shift, pos, off + Len(segs[0], shift));
    }
  }

  /** Scanning a list in two parts. */
  lemma {:induction false} ScanSplit(a: seq<Seg>, b: seq<Seg>, shift: nat, pos: nat, off: nat)
    ensures Scan(a + b, shift, pos, off) ==
            if Scan(a, shift, pos, off).At? then Scan(a, shift, pos, off)
            else Scan(b, shift, pos, off + SumLen(a, shift, |a|))
  {
    if a == [] {
      assert a + b == b;
    } else {
      assert (a + b)[1..] == a[1..] + b;
      SumLenTail(a, shift, |a|);
      ScanSplit(a[1..], b, shift, pos, off + Len(a[0], shift));
    }
  }

  // ----- the same in clusters -----

  function Pow2(k: nat): (p: nat)
    ensures p > 0
  {
    if k == 0 then 1 else 2 * Pow2(k - 1)
  }

  lemma {:induction false} ShlIs(x: nat, k: nat)
    ensures Shl(x, k) == x * Pow2(k)
  {
    if k > 0 { ShlIs(x, k - 1); }
  }

  /** Cluster `index` of a segment. */
  datatype Cluster = Cluster(seg: Seg, index: nat)

  function ClustersOf(s: Seg): (r: seq<Cluster>)
    ensures |r| == s.count && forall i :: 0 <= i < s.count ==> r[i] == Cluster(s, i)
  {
    seq(s.count, i requires 0 <= i < s.count => Cluster(s, i))
  }

  /** The clusters of a file, one after the other. */
  function Clusters(segs: seq<Seg>): seq<Cluster> {
    if segs == [] then [] else ClustersOf(segs[0]) + Clusters(segs[1..])
  }

  /** The position lies in cluster c of the file: nothing is found exactly if the file has no such
      cluster, and else its segment, with the position in the file where that segment starts. */
  predicate FoundCluster(segs: seq<Seg>, unit: nat, c: nat, found: Found) {
    var all := Clusters(segs);
    match found
    case NotFound => c >= |all|
    case At(seg, offset) =>
      c < |all| && all[c].seg == seg && all[c].index <= c && offset == (c - all[c].index) * unit
  }

  lemma MulLe(a: nat, b: nat, u: nat)
    requires a <= b
    ensures a * u <= b * u
  {
  }

  /** A position in cluster c lies below cluster m exactly if c does. */
  lemma Below(pos: nat, u: nat, c: nat, m: nat)
    requires c * u <= pos < (c + 1) * u
    ensures pos < m * u <==> c < m
  {
    if c < m { MulLe(c + 1, m, u); } else { MulLe(m, c, u); }
  }

  /** The scan, from a segment on that starts with cluster k of the file. */
  lemma {:induction false} ScanClusters(segs: seq<Seg>, shift: nat, pos: nat, k: nat, c: nat)
    requires k <= c && c * Pow2(shift) <= pos < (c + 1) * Pow2(shift)
    ensures var f, all := Scan(segs, shift, pos, k * Pow2(shift)), Clusters(segs);
            match f
            case NotFound => c - k >= |all|
            case At(seg, offset) =>
              && c - k < |all| && all[c - k].seg == seg
              && all[c - k].index <= c && offset == (c - all[c - k].index) * Pow2(shift)
  {
    if segs != [] {
      var n, unit := segs[0].count, Pow2(shift);
      ShlIs(n, shift);
      assert (k + n) * unit == k * unit + n * unit;
      Below(pos, unit, c, k + n);
      if k + n <= c { ScanClusters(segs[1..], shift, pos, k + n, c); }
    }
  }

  /** The position lies in cluster c, of 2^shift bytes each. */
  predicate InCluster(pos: nat, shift: nat, c: nat) { c * Pow2(shift) <= pos < (c + 1) * Pow2(shift) }

  lemma {:induction false} CutUp(pos: nat, u: nat) returns (c: nat)
    requires u > 0
    ensures c * u <= pos < (c + 1) * u
  {
    if pos < u {
      c := 0;
    } else {
      var d := CutUp(pos - u, u);
      c := d + 1;
      MulAdd(d, 1, u);
      MulAdd(d + 1, 1, u);
    }
  }

  lemma MulAdd(a: nat, b: nat, u: nat)
    ensures (a + b) * u == a * u + b * u
  {
  }

  /** That is so for one c. */
  lemma OneCluster(pos: nat, shift: nat) returns (c: nat)
    ensures InCluster(pos, shift, c)
    ensures forall d :: InCluster(pos, shift, d) ==> d == c
  {
    c := CutUp(pos, Pow2(shift));
    forall d | InCluster(pos, shift, d)
      ensures d == c
    {
      SameCluster(pos, Pow2(shift), c, d);
    }
  }

  lemma SameCluster(pos: nat, u: nat, c: nat, d: nat)
    requires c * u <= pos < (c + 1) * u && d * u <= pos < (d + 1) * u
    ensures c == d
  {
    Below(pos, u, c, d);
    Below(pos, u, d, c);
  }

  /** What is found is the segment of the cluster in which the position lies. */
  ghost predicate FoundIn(segs: seq<Seg>, shift: nat, pos: nat, found: Found) {
    forall c :: InCluster(pos, shift, c) ==> FoundCluster(segs, Pow2(shift), c, found)
  }

  lemma ScanFoundIn(segs: seq<Seg>, shift: nat, pos: nat)
    ensures FoundIn(segs, shift, pos, Scan(segs, shift, pos, 0))
  {
    forall c | InCluster(pos, shift, c)
      ensures FoundCluster(segs, Pow2(shift), c, Scan(segs, shift, pos, 0))
    {
      ScanClusters(segs, shift, pos, 0, c);
    }
  }

  /** The three values stored for a segment found: first sector, start in the file and length in bytes. */
  predicate Describes(lsn: nat, start: nat, length: nat, shift: nat, found: Found) {
    found.At? && found.seg.lsn == lsn && found.offset == start && length == found.seg.count * Pow2(shift)
  }

  lemma DescribesIt(seg: Seg, offset: nat, shift: nat)
    ensures Describes(seg.lsn, offset, Len(seg, shift), shift, At(seg, offset))
  {
    ShlIs(seg.count, shift);
  }

  /** The clusters of the entries together. */
  function CountOf(segs: seq<Seg>): nat {
    if segs == [] then 0 else segs[0].count + CountOf(segs[1..])
  }

  lemma {:induction false} SumLenIs(segs: seq<Seg>, shift: nat)
    ensures SumLen(segs, shift, |segs|) == CountOf(segs) * Pow2(shift)
  {
    if segs != [] {
      SumLenTail(segs, shift, |segs|);
      ShlIs(segs[0].count, shift);
      SumLenIs(segs[1..], shift);
      MulAdd(segs[0].count, CountOf(segs[1..]), Pow2(shift));
    }
  }

  // ----- the ring of descriptor blocks -----

  class Block {
    var prev: Block
    var next: Block
    var start: nat
    var size: nat
    var segs: seq<Seg>

    constructor (segs: seq<Seg>)
      ensures this.segs == segs && prev == next == this
    {
      this.segs := segs;
      prev, next, start, size := this, this, 0, 0;
    }
  }

  /** All blocks of the ring from block i on, as one segment list. */
  ghost function AllSegs(ring: seq<Block>, i: nat): seq<Seg>
    requires i <= |ring|
    reads ring
    decreases |ring| - i
  {
    if i == |ring| then [] else Live(ring[i].segs) + AllSegs(ring, i + 1)
  }

  function LiveBytes(segs: seq<Seg>, shift: nat): nat { SumLen(segs, shift, LiveCount(segs)) }

  /** The links form a ring of blocks with cap entries each. */
  ghost predicate Linked(ring: seq<Block>, cap: nat)
    reads ring
  {
    && |ring| > 0
    && (forall i, j :: 0 <= i < j < |ring| ==> ring[i] != ring[j])
    && (forall i :: 0 <= i < |ring| ==> ring[i].next == ring[if i + 1 < |ring| then i + 1 else 0])
    && (forall i :: 0 <= i < |ring| ==> ring[i].prev == ring[if i > 0 then i - 1 else |ring| - 1])
    && (forall i :: 0 <= i < |ring| ==> |ring[i].segs| == cap)
  }

  /** The totals of the first n blocks are what fn_0033f6 makes them. */
  ghost predicate Totalled(ring: seq<Block>, shift: nat, n: nat)
    requires n <= |ring|
    reads ring
  {
    && (forall i :: 0 <= i < n ==> ring[i].size == LiveBytes(ring[i].segs, shift))
    && (n > 0 ==> ring[0].start == 0)
    && (forall i :: 0 < i < n ==> ring[i].start == ring[i - 1].start + ring[i - 1].size)
  }

  ghost predicate Consistent(ring: seq<Block>, shift: nat, cap: nat)
    reads ring
  {
    Linked(ring, cap) && Totalled(ring, shift, |ring|)
  }

  /** Bytes allocated to the file. */
  ghost function Total(ring: seq<Block>): nat
    requires |ring| > 0
    reads ring
  {
    ring[|ring| - 1].start + ring[|ring| - 1].size
  }

  /** fn_0033f6: recompute a block's size from its entries and its start from its predecessor. */
  method Recompute(block: Block, first: Block, shift: nat)
    modifies block`size, block`start
    ensures block.size == LiveBytes(block.segs, shift) == CountOf(Live(block.segs)) * Pow2(shift)
    ensures block.start == if block.prev == block || block == first then 0
                           else block.prev.start + block.prev.size
  {
    var clusters: nat, at := 0, 0;
    ShlAdd(0, 0, shift);
    while at != |block.segs| && block.segs[at].count != 0
      invariant 0 <= at <= LiveCount(block.segs)
      invariant Shl(clusters, shift) == SumLen(block.segs, shift, at)
      decreases |block.segs| - at
    {
      ShlAdd(clusters, block.segs[at].count, shift);
      clusters := clusters + block.segs[at].count;
      at := at + 1;
    }
    block.size := Shl(clusters, shift);
    SumLenIs(Live(block.segs), shift);
    SumLenPrefix(block.segs, shift, at, at);
    if block.prev == block || block == first {
      block.start := 0;
    } else {
      block.start := block.prev.start + block.prev.size;
    }
  }

  method RecomputeNext(block: Block, shift: nat, ghost ring: seq<Block>, ghost cap: nat, ghost i: nat, first: Block)
    requires Linked(ring, cap) && i < |ring| && Totalled(ring, shift, i) && block == ring[i] && first == ring[0]
    modifies block`size, block`start
    ensures Linked(ring, cap) && Totalled(ring, shift, i + 1)
  {
    ghost var before := if i > 0 then ring[i - 1] else ring[|ring| - 1];
    assert block.prev == before && (i > 0 ==> before != block && block != first);
    Recompute(block, first, shift);
    assert ring[i].start == if i == 0 then 0 else ring[i - 1].start + ring[i - 1].size;
  }

  /** Recomputing the blocks of a ring one after the other makes it consistent, whatever their totals
      were before, and touches nothing but the totals. */
  method RecomputeRing(ring: seq<Block>, shift: nat, cap: nat)
    requires Linked(ring, cap)
    modifies ring`size, ring`start
    ensures Consistent(ring, shift, cap)
  {
    var i := 0;
    while i < |ring|
      invariant 0 <= i <= |ring| && Linked(ring, cap) && Totalled(ring, shift, i)
    {
      RecomputeNext(ring[i], shift, ring, cap, i, ring[0]);
      i := i + 1;
    }
  }

  // ----- from blocks to the whole list -----

  lemma {:induction false} SumLenPrefix(segs: seq<Seg>, shift: nat, n: nat, j: nat)
    requires j <= n <= |segs|
    ensures SumLen(segs[..n], shift, j) == SumLen(segs, shift, j)
  {
    if j > 0 { SumLenPrefix(segs, shift, n, j - 1); }
  }

  lemma {:induction false} StartsOrdered(ring: seq<Block>, shift: nat, cap: nat, i: nat, j: nat)
    requires Consistent(ring, shift, cap) && i < j < |ring|
    ensures ring[i].start + ring[i].size <= ring[j].start
  {
    if i < j - 1 { StartsOrdered(ring, shift, cap, i, j - 1); }
  }

  /** A block's entries before the rest of the list: passed over, or searched. */
  lemma ScanBlock(segs: seq<Seg>, rest: seq<Seg>, shift: nat, pos: nat, off: nat)
    requires off <= pos
    ensures pos >= off + LiveBytes(segs, shift) ==>
              Scan(Live(segs) + rest, shift, pos, off) == Scan(rest, shift, pos, off + LiveBytes(segs, shift))
    ensures pos < off + LiveBytes(segs, shift) ==>
              Scan(Live(segs) + rest, shift, pos, off) == Scan(Live(segs), shift, pos, off)
  {
    var live := Live(segs);
    SumLenPrefix(segs, shift, |live|, |live|);
    ScanSplit(live, rest, shift, pos, off);
    if pos >= off + LiveBytes(segs, shift) {
      ScanMisses(live, shift, pos, off);
    } else {
      LiveHolds(segs, shift, pos, off, |live|);
    }
  }

  /** The scan passes over a block that ends before the position ... */
  lemma ScanSkip(ring: seq<Block>, shift: nat, cap: nat, pos: nat, i: nat)
    requires Consistent(ring, shift, cap) && i + 1 < |ring| && ring[i].start + ring[i].size <= pos
    ensures Scan(AllSegs(ring, i), shift, pos, ring[i].start)
            == Scan(AllSegs(ring, i + 1), shift, pos, ring[i + 1].start)
  {
    assert ring[i + 1].start == ring[i].start + ring[i].size;
    ScanBlock(ring[i].segs, AllSegs(ring, i + 1), shift, pos, ring[i].start);
  }

  /** ... and so, from block i on, ends in the block that contains the position. */
  lemma {:induction false} ScanReaches(ring: seq<Block>, shift: nat, cap: nat, pos: nat, i: nat, b: nat)
    requires Consistent(ring, shift, cap) && i <= b < |ring|
    requires ring[b].start <= pos < ring[b].start + ring[b].size
    ensures Scan(AllSegs(ring, i), shift, pos, ring[i].start) == Scan(Live(ring[b].segs), shift, pos, ring[b].start)
    decreases b - i
  {
    if i < b {
      StartsOrdered(ring, shift, cap, i, b);
      ScanSkip(ring, shift, cap, pos, i);
      ScanReaches(ring, shift, cap, pos, i + 1, b);
    } else {
      ScanBlock(ring[i].segs, AllSegs(ring, i + 1), shift, pos, ring[i].start);
    }
  }

  /** A position inside the first j entries is found in the list. */
  lemma {:induction false} LiveHolds(segs: seq<Seg>, shift: nat, pos: nat, off: nat, j: nat)
    requires j <= LiveCount(segs) && off <= pos < off + SumLen(segs, shift, j)
    ensures Scan(Live(segs), shift, pos, off).At?
    decreases j
  {
    if off + SumLen(segs, shift, j - 1) <= pos {
      LiveFinds(segs, shift, pos, off, j - 1);
    } else {
      LiveHolds(segs, shift, pos, off, j - 1);
    }
  }

  lemma LiveFinds(segs: seq<Seg>, shift: nat, pos: nat, off: nat, j: nat)
    requires j < LiveCount(segs)
    requires off + SumLen(segs, shift, j) <= pos < off + SumLen(segs, shift, j + 1)
    ensures Scan(Live(segs), shift, pos, off) == At(segs[j], off + SumLen(segs, shift, j))
  {
    SumLenPrefix(segs, shift, LiveCount(segs), j);
    SumLenPrefix(segs, shift, LiveCount(segs), j + 1);
    ScanFinds(Live(segs), shift, pos, off, j);
  }

  lemma ScanIs(ring: seq<Block>, shift: nat, cap: nat, pos: nat, b: nat, j: nat, off: nat)
    requires Consistent(ring, shift, cap) && b < |ring|
    requires ring[b].start <= pos < ring[b].start + ring[b].size
    requires j < LiveCount(ring[b].segs) && off == ring[b].start + SumLen(ring[b].segs, shift, j)
    requires off <= pos < off + Len(ring[b].segs[j], shift)
    ensures Scan(AllSegs(ring, 0), shift, pos, 0) == At(ring[b].segs[j], off)
  {
    ScanReaches(ring, shift, cap, pos, 0, b);
    LiveFinds(ring[b].segs, shift, pos, ring[b].start, j);
  }

  lemma {:induction false} ScanPastEnd(ring: seq<Block>, shift: nat, cap: nat, pos: nat, i: nat)
    requires Consistent(ring, shift, cap) && i < |ring| && Total(ring) <= pos
    ensures Scan(AllSegs(ring, i), shift, pos, ring[i].start) == NotFound
    decreases |ring| - i
  {
    if i + 1 < |ring| {
      StartsOrdered(ring, shift, cap, i, |ring| - 1);
      ScanSkip(ring, shift, cap, pos, i);
      ScanPastEnd(ring, shift, cap, pos, i + 1);
    } else {
      ScanBlock(ring[i].segs, AllSegs(ring, i + 1), shift, pos, ring[i].start);
    }
  }

  // ----- the lookup -----

  const PAST_END := 0xD5
  const INCONSISTENT := 0x2DF2

  class Path {
    const shift: nat
    const cap: nat
    const first: Block
    var pos: nat
    var cur: Block
    var seg: int        // index of the cached entry in cur, -1 for none
    var segStart: nat
    var segLsn: nat
    var segLen: nat

    constructor (first: Block, shift: nat, cap: nat)
      ensures this.first == cur == first && this.shift == shift && this.cap == cap && seg == -1
    {
      this.first, this.cur, this.shift, this.cap := first, first, shift, cap;
      pos, seg, segStart, segLsn, segLen := 0, -1, 0, 0, 0;
    }

    /** The list is consistent and begins at this path's first block. */
    ghost predicate Ready(ring: seq<Block>)
      reads this, ring
    {
      Consistent(ring, shift, cap) && first == ring[0] && cap > 0
    }

    /** No cursor, or one that points at an entry (or the terminator) of some block and knows
        where that entry starts. */
    ghost predicate CursorOk(ring: seq<Block>)
      reads this, ring, cur
    {
      seg == -1 ||
      (&& cur in ring
       && 0 <= seg < |cur.segs| && seg <= LiveCount(cur.segs)
       && segStart == cur.start + SumLen(cur.segs, shift, seg))
    }

    /** The block whose byte range contains the position, walking back and forth from `from`. */
    method FindBlock(from: Block, ghost ring: seq<Block>) returns (found: bool, block: Block, ghost b: nat)
      requires Ready(ring) && from in ring
      ensures found <==> pos < Total(ring)
      ensures found ==> b < |ring| && block == ring[b] && block.start <= pos < block.start + block.size
    {
      block := from;
      b :| 0 <= b < |ring| && ring[b] == from;
      while true
        invariant b < |ring| && block == ring[b]
        decreases if pos < block.start then 1 else 0, |ring| - b
      {
        ghost var b0 := b;
        while pos < block.start
          invariant b < |ring| && block == ring[b] && (pos >= ring[b0].start ==> b == b0)
          decreases b
        {
          block := block.prev;
          b := b - 1;
        }
        if pos < block.start + block.size {
          if b < |ring| - 1 { StartsOrdered(ring, shift, cap, b, |ring| - 1); }
          return true, block, b;
        }
        if b + 1 < |ring| { assert ring[b + 1].start == ring[b].start + ring[b].size; }
        block := block.next;
        if block == first {
          return false, block, b;
        }
        b := b + 1;
      }
    }

    /** The entry of the block that contains the position, walking back and forth from entry j. */
    method FindEntry(block: Block, from: nat, offset: nat) returns (code: int, j: nat, off: nat)
      requires block.segs != [] && block.size == LiveBytes(block.segs, shift)
      requires block.start <= pos < block.start + block.size
      requires from < |block.segs| && from <= LiveCount(block.segs)
      requires offset == block.start + SumLen(block.segs, shift, from)
      ensures code == 0
      ensures j < LiveCount(block.segs) && off == block.start + SumLen(block.segs, shift, j)
      ensures off <= pos < off + Len(block.segs[j], shift)
    {
      ghost var n := LiveCount(block.segs);
      j, off := from, offset;
      var length := Len(block.segs[j], shift);
      while true
        invariant j < |block.segs| && j <= n
        invariant off == block.start + SumLen(block.segs, shift, j) && length == Len(block.segs[j], shift)
        decreases if pos < off then 1 else 0, n - j
      {
        ghost var j0, off0 := j, off;
        while pos < off
          invariant j < |block.segs| && j <= n && (pos >= off0 ==> j == j0)
          invariant off == block.start + SumLen(block.segs, shift, j) && length == Len(block.segs[j], shift)
          decreases j
        {
          if j == 0 { return INCONSISTENT, j, off; }
          length := Len(block.segs[j - 1], shift);
          j := j - 1;
          off := off - length;
        }
        if pos < off + length {
          break;
        }
        SumLenMonotone(block.segs, shift, if j < n then j + 1 else n, n);
        off := off + length;
        if j + 1 == |block.segs| { return INCONSISTENT, j, off; }
        length := Len(block.segs[j + 1], shift);
        j := j + 1;
      }
      code := 0;
    }

    /** Without a cursor the search starts at the first entry of the first block. */
    method StartEntry(ghost ring: seq<Block>) returns (entry: nat)
      requires Ready(ring) && CursorOk(ring)
      modifies this`cur, this`segStart
      ensures Ready(ring) && CursorOk(ring)
      ensures cur in ring && entry < |cur.segs| && entry <= LiveCount(cur.segs)
      ensures segStart == cur.start + SumLen(cur.segs, shift, entry)
    {
      if seg == -1 {
        cur, segStart := first, 0;
        return 0;
      }
      return seg;
    }

    /** Search the block, from the cached entry if the cursor is in it and else from its first. */
    method SearchBlock(block: Block, entry: nat) returns (code: int, j: nat, off: nat)
      requires block.segs != [] && block.size == LiveBytes(block.segs, shift)
      requires block.start <= pos < block.start + block.size
      requires entry < |cur.segs| && entry <= LiveCount(cur.segs)
      requires segStart == cur.start + SumLen(cur.segs, shift, entry)
      ensures code == 0
      ensures j < LiveCount(block.segs) && off == block.start + SumLen(block.segs, shift, j)
      ensures off <= pos < off + Len(block.segs[j], shift)
    {
      if block != cur {
        code, j, off := FindEntry(block, 0, block.start);
      } else {
        code, j, off := FindEntry(block, entry, segStart);
      }
    }

    /** Store the entry found in the cursor. */
    method Store(block: Block, j: nat, off: nat, ghost ring: seq<Block>)
      requires Ready(ring) && block in ring
      requires j < LiveCount(block.segs) && off == block.start + SumLen(block.segs, shift, j)
      modifies this`cur, this`seg, this`segStart, this`segLsn, this`segLen
      ensures Ready(ring) && CursorOk(ring) && Total(ring) == old(Total(ring))
      ensures block.start == old(block.start) && block.size == old(block.size) && block.segs == old(block.segs)
      ensures cur == block && seg == j && segStart == off
      ensures segLsn == block.segs[j].lsn && segLen == Len(block.segs[j], shift)
    {
      segLen, segStart, segLsn, seg, cur := Len(block.segs[j], shift), off, block.segs[j].lsn, j, block;
    }

    /** fn_002eca.  From any valid cursor it finds what a scan of the whole segment list from its
        start finds, reports the end exactly when the position is past the allocated size, and
        never reports an inconsistent list; the cursor stays valid for the next call. */
    method Lookup(ghost ring: seq<Block>) returns (code: int)
      requires Ready(ring) && CursorOk(ring)
      modifies this`cur, this`seg, this`segStart, this`segLsn, this`segLen
      ensures Ready(ring) && CursorOk(ring)
      ensures code == 0 || code == PAST_END
      ensures code == PAST_END <==> pos >= Total(ring)
      ensures var s := Scan(AllSegs(ring, 0), shift, pos, 0);
              if code == 0 then Describes(segLsn, segStart, segLen, shift, s) else s == NotFound
      ensures FoundIn(AllSegs(ring, 0), shift, pos, Scan(AllSegs(ring, 0), shift, pos, 0))
    {
      var entry := StartEntry(ring);
      var found, block, b := FindBlock(cur, ring);
      if !found {
        ScanPastEnd(ring, shift, cap, pos, 0);
        ScanFoundIn(AllSegs(ring, 0), shift, pos);
        return PAST_END;
      }
      var j, off;
      code, j, off := SearchBlock(block, entry);
      Store(block, j, off, ring);
      ScanIs(ring, shift, cap, pos, b, j, off);
      ScanFoundIn(AllSegs(ring, 0), shift, pos);
      DescribesIt(block.segs[j], off, shift);
    }
  }
}
