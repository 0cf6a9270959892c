/** RBF sector cache: purge of a range of sectors (fn_002724).  The cache is hashed by the low byte
    of the sector number; for every residue the purge stops as soon as it has removed as many
    sectors as the range can contain in that residue class. */
module SectorCache {
  import opened Bytes
  import opened CacheLinks
  import opened Sets

  const WRAP := 0x1_0000_0000

  type u32 = x: int | 0 <= x < 0x1_0000_0000

  /** A cache node; `id` stands for its address. */
  datatype Node = Node(id: int, sector: u32)

  predicate InRange(x: Node, a: u32, end: u32) { a <= x.sector < end }

  function Inside(s: seq<Node>, a: u32, end: u32): seq<Node> {
    if s == [] then []
    else if InRange(s[0], a, end) then [s[0]] + Inside(s[1..], a, end)
    else Inside(s[1..], a, end)
  }

  function Outside(s: seq<Node>, a: u32, end: u32): seq<Node> {
    if s == [] then []
    else if InRange(s[0], a, end) then Outside(s[1..], a, end)
    else [s[0]] + Outside(s[1..], a, end)
  }

  /** One bucket's chain: what stays and what is taken out, with the early exit. */
  function Walk(s: seq<Node>, a: u32, end: u32, limit: nat, count: nat): (seq<Node>, seq<Node>) {
    if s == [] then ([], [])
    else if !InRange(s[0], a, end) then
      var (kept, gone) := Walk(s[1..], a, end, limit, count);
      ([s[0]] + kept, gone)
    else if limit <= count + 1 then (s[1..], [s[0]])
    else
      var (kept, gone) := Walk(s[1..], a, end, limit, count + 1);
      (kept, [s[0]] + gone)
  }

  /** With a limit that the bucket does not exceed, the early exit loses nothing. */
  lemma {:induction false} WalkComplete(s: seq<Node>, a: u32, end: u32, limit: nat, count: nat)
    requires count + |Inside(s, a, end)| <= limit
    ensures Walk(s, a, end, limit, count).0 == Outside(s, a, end)
    ensures Walk(s, a, end, limit, count).1 == Inside(s, a, end)
  {
    if s != [] {
      if !InRange(s[0], a, end) {
        WalkComplete(s[1..], a, end, limit, count);
      } else {
        assert Inside(s, a, end) == [s[0]] + Inside(s[1..], a, end);
        if limit <= count + 1 {
          assert Inside(s[1..], a, end) == [];
          NoneInside(s[1..], a, end);
        } else {
          WalkComplete(s[1..], a, end, limit, count + 1);
        }
      }
    }
  }

  lemma {:induction false} NoneInside(s: seq<Node>, a: u32, end: u32)
    requires Inside(s, a, end) == []
    ensures Outside(s, a, end) == s
  {
    if s != [] { NoneInside(s[1..], a, end); }
  }

  // ----- the limits -----

  /** Offsets of the range whose sectors fall into residue i (relative to the first sector). */
  function ClassSet(n: nat, i: nat): set<int> { set k | 0 <= k < n && k % 256 == i }

  /** The limit used for the i-th bucket visited, in 32-bit arithmetic. */
  function Limit(n: u32, i: nat): nat {
    var base := (n + 0xFF) % WRAP / 256;
    var full := if n % 256 == 0 then 256 else n % 256;
    if i < full then base else (base - 1) % WRAP
  }

  lemma ClassStep(n: nat, i: nat)
    requires i < 256
    ensures (n + 256 - i) / 256 == (n + 255 - i) / 256 + (if n % 256 == i then 1 else 0)
  {
  }

  /** The limit as the loop carries it into round v. */
  function RunningLimit(n: u32, v: nat): nat {
    if v == 0 then StartLimit(n) else Limit(n, v - 1)
  }

  function StartLimit(n: u32): nat { (n + 0xFF) % WRAP / 256 }

  function FullRounds(n: u32): nat { if n % 256 == 0 then 256 else n % 256 }

  function NextLimit(full: nat, v: nat, limit: nat): nat { if full == v then (limit - 1) % WRAP else limit }

  lemma LimitStep(n: u32, v: nat)
    ensures Limit(n, v) == NextLimit(FullRounds(n), v, RunningLimit(n, v))
  {
  }

  lemma {:induction false} ClassSize(n: nat, i: nat)
    requires i < 256
    ensures |ClassSet(n, i)| == (n + 255 - i) / 256
  {
    if n > 0 {
      var m: nat := n - 1;
      ClassSize(m, i);
      ClassStep(m, i);
      if m % 256 == i {
        assert ClassSet(n, i) == ClassSet(m, i) + {m};
      } else {
        assert ClassSet(n, i) == ClassSet(m, i);
      }
    } else {
      assert ClassSet(n, i) == {};
    }
  }

  /** The limits are exactly the number of range members in each residue class, unless the range
      is so long that rounding it up to 256 wraps. */
  lemma LimitExact(n: u32, i: nat)
    requires i < n && i < 256
    ensures Limit(n, i) == |ClassSet(n, i)| <==> n + 0xFF < WRAP
  {
    ClassSize(n, i);
  }

  /** For a range that long the purge leaves sectors of it behind: the wrapped limit stops the walk
      of the first bucket at its first hit. */
  lemma WrappedLimitLeaves(a: u32, n: u32)
    requires a + n < WRAP <= n + 0xFF
    ensures var s := [Node(0, a), Node(1, a + 256)];
            && Hashed(s, a % BUCKETS) && Outside(s, a, a + n) == []
            && Walk(s, a, a + n, Limit(n, 0), 0).0 == [s[1]]
  {
    var s := [Node(0, a), Node(1, a + 256)];
    assert (n + 0xFF) % WRAP == n + 0xFF - WRAP;
    assert Limit(n, 0) == 0;
    assert s[1..] == [Node(1, a + 256)] && s[1..][1..] == [];
    assert Outside(s, a, a + n) == Outside(s[1..], a, a + n) == [];
  }

  // ----- the class of nodes in one bucket -----

  /** Every node hangs in the bucket of its sector, and no sector is cached twice. */
  predicate Hashed(s: seq<Node>, b: nat) {
    && (forall k :: 0 <= k < |s| ==> s[k].sector % BUCKETS == b)
    && DistinctSectors(s)
  }

  function Offsets(s: seq<Node>, a: u32): set<int> {
    if s == [] then {} else Offsets(s[1..], a) + {s[0].sector - a}
  }

  predicate DistinctSectors(s: seq<Node>) {
    forall j, k :: 0 <= j < k < |s| ==> s[j].sector != s[k].sector
  }

  lemma {:induction false} OffsetOf(s: seq<Node>, a: u32, x: int) returns (k: nat)
    requires x in Offsets(s, a)
    ensures k < |s| && s[k].sector - a == x
  {
    if s[0].sector - a == x {
      k := 0;
    } else {
      var j := OffsetOf(s[1..], a, x);
      k := j + 1;
    }
  }

  lemma {:induction false} OffsetCount(s: seq<Node>, a: u32)
    requires DistinctSectors(s)
    ensures |Offsets(s, a)| == |s|
  {
    if s != [] {
      OffsetCount(s[1..], a);
      forall k | 0 <= k < |s[1..]|
        ensures s[1..][k].sector != s[0].sector
      {
        assert s[1..][k] == s[k + 1];
      }
      if s[0].sector - a in Offsets(s[1..], a) {
        var k := OffsetOf(s[1..], a, s[0].sector - a);
      }
    }
  }

  lemma {:induction false} InsideMember(s: seq<Node>, a: u32, end: u32, k: nat) returns (m: nat)
    requires k < |Inside(s, a, end)|
    ensures m < |s| && s[m] == Inside(s, a, end)[k] && InRange(s[m], a, end)
  {
    if InRange(s[0], a, end) && k == 0 {
      m := 0;
    } else {
      var j := InsideMember(s[1..], a, end, if InRange(s[0], a, end) then k - 1 else k);
      m := j + 1;
    }
  }

  lemma {:induction false} InsideDistinct(s: seq<Node>, a: u32, end: u32)
    requires DistinctSectors(s)
    ensures DistinctSectors(Inside(s, a, end))
  {
    if s != [] {
      InsideDistinct(s[1..], a, end);
      var r := Inside(s[1..], a, end);
      forall k | 0 <= k < |r|
        ensures r[k].sector != s[0].sector
      {
        var m := InsideMember(s[1..], a, end, k);
        assert s[m + 1] == s[1..][m];
      }
    }
  }

  /** A bucket holds no more sectors of the range than the range has in that residue class. */
  lemma InsideBounded(s: seq<Node>, a: u32, n: u32, i: nat)
    requires i < 256 && a + n < WRAP && Hashed(s, (a + i) % BUCKETS)
    ensures |Inside(s, a, a + n)| <= |ClassSet(n, i)|
  {
    var r := Inside(s, a, a + n);
    InsideDistinct(s, a, a + n);
    OffsetCount(r, a);
    forall x | x in Offsets(r, a)
      ensures x in ClassSet(n, i)
    {
      var k := OffsetOf(r, a, x);
      var m := InsideMember(s, a, a + n, k);
      ResidueOffset(s[m].sector, a, i);
    }
    SubsetSize(Offsets(r, a), ClassSet(n, i));
  }

  lemma ResidueOffset(sector: int, a: int, i: nat)
    requires i < 256 && sector % BUCKETS == (a + i) % BUCKETS && sector >= a
    ensures (sector - a) % 256 == i
  {
  }

  /** Buckets that the loop does not reach hold nothing of a short range. */
  lemma UnvisitedClean(s: seq<Node>, a: u32, n: u32, i: nat)
    requires n <= i < 256 && a + n < WRAP && Hashed(s, (a + i) % BUCKETS)
    ensures Outside(s, a, a + n) == s
  {
    InsideBounded(s, a, n, i);
    assert ClassSet(n, i) == {};
    NoneInside(s, a, a + n);
  }

  // ----- the purge -----

  /** Free nodes carry sector 0; the one removed last comes first. */
  function Freed(gone: seq<Node>): seq<Node> {
    if gone == [] then [] else Freed(gone[1..]) + [gone[0].(sector := 0)]
  }

  function Unlinked(lru: seq<int>, gone: seq<Node>): seq<int>
    decreases |gone|
  {
    if gone == [] then lru else Unlinked(RemoveId(lru, gone[0].id), gone[1..])
  }

  datatype Snapshot = Snapshot(buckets: seq<seq<Node>>, lru: seq<int>, free: seq<Node>, purged: seq<nat>)

  // ----- what the links stand for -----

  type Sectors = map<Pointer, u32>

  function NodeAt(m: Sectors, p: Pointer): Node { Node(p, if p in m then m[p] else 0) }

  function NodesAt(m: Sectors, s: seq<Pointer>): (r: seq<Node>)
    ensures |r| == |s| && forall i :: 0 <= i < |s| ==> r[i] == NodeAt(m, s[i])
  {
    seq(|s|, i requires 0 <= i < |s| => NodeAt(m, s[i]))
  }

  function BucketsAt(m: Sectors, chains: seq<seq<Pointer>>): (r: seq<seq<Node>>)
    ensures |r| == |chains| && forall b :: 0 <= b < |chains| ==> r[b] == NodesAt(m, chains[b])
  {
    seq(|chains|, b requires 0 <= b < |chains| => NodesAt(m, chains[b]))
  }

  ghost predicate Known(m: Sectors, use: seq<Pointer>, freed: seq<Pointer>) {
    forall p :: p in use || p in freed ==> p in m
  }

  lemma NodesSame(m: Sectors, m': Sectors, s: seq<Pointer>)
    requires forall p :: p in s ==> NodeAt(m', p) == NodeAt(m, p)
    ensures NodesAt(m', s) == NodesAt(m, s)
  {
  }

  /** What a node carries that is in none of the chains does not matter to them. */
  lemma BucketsSame(m: Sectors, chains: seq<seq<Pointer>>, x: Pointer, n: u32)
    requires forall b :: 0 <= b < |chains| ==> x !in chains[b]
    ensures BucketsAt(m[x := n], chains) == BucketsAt(m, chains)
  {
    forall b | 0 <= b < |chains|
      ensures NodesAt(m[x := n], chains[b]) == NodesAt(m, chains[b])
    {
      NodesSame(m, m[x := n], chains[b]);
    }
  }

  lemma NodesWithout(m: Sectors, s: seq<Pointer>, k: nat)
    requires k < |s|
    ensures NodesAt(m, Without(s, k)) == Without(NodesAt(m, s), k)
  {
  }

  lemma BucketsWithout(m: Sectors, chains: seq<seq<Pointer>>, b: nat, k: nat)
    requires b < |chains| && k < |chains[b]|
    ensures var was := BucketsAt(m, chains);
            BucketsAt(m, chains[b := Without(chains[b], k)]) == was[b := Without(was[b], k)]
  {
    NodesWithout(m, chains[b], k);
  }

  lemma KnownTaken(m: Sectors, use: seq<Pointer>, freed: seq<Pointer>, x: Pointer)
    requires Known(m, use, freed)
    ensures Known(m, RemoveId(use, x), freed)
  {
    forall p | p in RemoveId(use, x)
      ensures p in use
    {
      RemoveIdIff(use, x, p);
    }
  }

  predicate SelfLinked(next: Links, prev: Links, p: Pointer) { p in next && p in prev && next[p] == prev[p] == p }

  lemma EmptyLinked(next: Links, prev: Links, after: Links, before: Links, chains: seq<seq<Pointer>>)
    requires |chains| == BUCKETS && forall b :: 0 <= b < BUCKETS ==> chains[b] == []
    requires forall b :: 0 <= b < BUCKETS ==> SelfLinked(next, prev, Header(b))
    requires after == before == map[USE := USE]
    ensures ChainsLinked(next, prev, chains) && ListLinked(after, before, USE, [])
  {
    assert [USE] + [] == [USE];
    forall b | 0 <= b < BUCKETS
      ensures ListLinked(next, prev, Header(b), chains[b])
    {
      assert [Header(b)] + [] == [Header(b)];
    }
  }

  /** Node k of bucket b went to the free list, with its sector cleared. */
  ghost predicate Discarded(s: Snapshot, t: Snapshot, b: nat, k: nat) {
    && b < |s.buckets| && k < |s.buckets[b]|
    && t.buckets == s.buckets[b := Without(s.buckets[b], k)]
    && t.lru == RemoveId(s.lru, s.buckets[b][k].id)
    && t.free == [s.buckets[b][k].(sector := 0)] + s.free
    && t.purged == s.purged
  }

  lemma ClearedNodes(m: Sectors, chains: seq<seq<Pointer>>, freed: seq<Pointer>, b: nat, k: nat, x: Pointer)
    requires Apart(chains) && b < |chains| && k < |chains[b]| && Distinct(chains[b]) && x == chains[b][k] && x !in freed
    ensures var was, m' := BucketsAt(m, chains), m[x := 0];
            && BucketsAt(m', chains[b := Without(chains[b], k)]) == was[b := Without(was[b], k)]
            && NodesAt(m', [x] + freed) == [was[b][k].(sector := 0)] + NodesAt(m, freed)
  {
    var chains', m' := chains[b := Without(chains[b], k)], m[x := 0];
    assert forall i :: 0 <= i < |chains'[b]| ==> chains'[b][i] == chains[b][Old(i, k)];
    BucketsSame(m, chains', x, 0);
    BucketsWithout(m, chains, b, k);
  }

  /** The snapshot once a node was made available: the first free one, or node k of bucket b. */
  function MadeRoom(s: Snapshot, b: nat, k: nat): Snapshot
    requires s.free == [] ==> b < |s.buckets| && k < |s.buckets[b]|
  {
    if s.free != [] then s.(free := s.free[1..])
    else s.(buckets := s.buckets[b := Without(s.buckets[b], k)], lru := RemoveId(s.lru, s.buckets[b][k].id))
  }

  /** The node made available holds the sector now, first in its bucket and in the use list. */
  ghost predicate Inserted(s: Snapshot, t: Snapshot, x: Pointer, n: u32, b: nat, k: nat) {
    && |s.buckets| == BUCKETS && (s.free == [] ==> b < |s.buckets| && k < |s.buckets[b]|)
    && x == (if s.free != [] then s.free[0].id else s.buckets[b][k].id)
    && var room := MadeRoom(s, b, k);
       var home := n % BUCKETS;
       && |room.buckets| == BUCKETS && t.buckets == room.buckets[home := [Node(x, n)] + room.buckets[home]]
       && t.lru == [x] + room.lru && t.free == room.free && t.purged == s.purged
  }

  lemma LinkedNodes(m: Sectors, chains: seq<seq<Pointer>>, freed: seq<Pointer>, x: Pointer, n: u32)
    requires |chains| == BUCKETS && x !in freed && forall b :: 0 <= b < BUCKETS ==> x !in chains[b]
    ensures var was, b := BucketsAt(m, chains), n % BUCKETS;
            && BucketsAt(m[x := n], chains[b := [x] + chains[b]]) == was[b := [Node(x, n)] + was[b]]
            && NodesAt(m[x := n], freed) == NodesAt(m, freed)
  {
    BucketsSame(m, chains, x, n);
    var b := n % BUCKETS;
    assert NodesAt(m[x := n], [x] + chains[b]) == [Node(x, n)] + NodesAt(m[x := n], chains[b]);
  }

  predicate Passed(chain: seq<Node>, n: u32, k: nat) {
    k <= |chain| && forall i :: 0 <= i < k ==> chain[i].sector != n
  }

  /** Nothing with that sector in its bucket, or node k is the first one, which is gone unless intact. */
  ghost predicate Looked(s: Snapshot, t: Snapshot, n: u32, intact: Pointer -> bool, x: Pointer, k: nat) {
    && |s.buckets| == BUCKETS
    && var chain := s.buckets[n % BUCKETS];
       && Passed(chain, n, k)
       && (k == |chain| ==> x == NULL && t == s)
       && (k < |chain| ==> chain[k].sector == n
                           && if intact(chain[k].id) then x == chain[k].id != NULL && t == s
                              else x == NULL && Discarded(s, t, n % BUCKETS, k))
  }

  // ----- every operation keeps the sectors hashed and unique -----

  lemma WithoutHashed(s: seq<Node>, b: nat, k: nat)
    requires Hashed(s, b) && k < |s|
    ensures Hashed(Without(s, k), b) && Passed(Without(s, k), s[k].sector, |s| - 1)
  {
    var r := Without(s, k);
    assert forall i :: 0 <= i < |r| ==> r[i] == s[Old(i, k)];
  }

  /** A lookup keeps it, and where it finds nothing the sector is not in its bucket. */
  lemma LookedKeeps(s: Snapshot, t: Snapshot, n: u32, intact: Pointer -> bool, x: Pointer, k: nat)
    requires AllHashed(s.buckets) && Looked(s, t, n, intact, x, k)
    ensures AllHashed(t.buckets)
    ensures x == NULL ==> Passed(t.buckets[n % BUCKETS], n, |t.buckets[n % BUCKETS]|)
  {
    var b := n % BUCKETS;
    if k < |s.buckets[b]| { WithoutHashed(s.buckets[b], b, k); }
  }

  /** Inserting a sector that is not cached keeps it. */
  lemma InsertedKeeps(s: Snapshot, t: Snapshot, x: Pointer, n: u32, b: nat, k: nat)
    requires AllHashed(s.buckets) && Inserted(s, t, x, n, b, k)
    requires Passed(s.buckets[n % BUCKETS], n, |s.buckets[n % BUCKETS]|)
    ensures AllHashed(t.buckets) && t.buckets[n % BUCKETS] != [] && t.buckets[n % BUCKETS][0] == Node(x, n)
  {
    var home, room := n % BUCKETS, MadeRoom(s, b, k).buckets;
    if s.free == [] {
      WithoutHashed(s.buckets[b], b, k);
      assert forall i :: 0 <= i < |room[b]| ==> room[b][i] == s.buckets[b][Old(i, k)];
    }
    FrontHashed(room[home], home, Node(x, n));
  }

  lemma FrontHashed(s: seq<Node>, b: nat, node: Node)
    requires Hashed(s, b) && node.sector % BUCKETS == b && Passed(s, node.sector, |s|)
    ensures Hashed([node] + s, b)
  {
  }

  /** The purge keeps it. */
  lemma SteppedKeeps(was: seq<seq<Node>>, now: seq<seq<Node>>, a: u32, end: u32, n: u32, v: nat)
    requires AllHashed(was) && Stepped(was, now, a, end, n, v)
    ensures AllHashed(now)
  {
    forall b | 0 <= b < BUCKETS
      ensures Hashed(now[b], b)
    {
      WalkHashed(was[b], a, end, Limit(n, Turn(a, b)), 0, b);
    }
  }

  lemma {:induction false} WalkHashed(s: seq<Node>, a: u32, end: u32, limit: nat, count: nat, b: nat)
    requires Hashed(s, b)
    ensures Hashed(Walk(s, a, end, limit, count).0, b)
    ensures forall i :: 0 <= i < |Walk(s, a, end, limit, count).0| ==> Walk(s, a, end, limit, count).0[i] in s
  {
    if s != [] {
      TailHashed(s, b);
      if !InRange(s[0], a, end) {
        WalkHashed(s[1..], a, end, limit, count, b);
        var kept := Walk(s[1..], a, end, limit, count).0;
        assert forall i :: 0 <= i < |kept| ==> kept[i] in s[1..] && kept[i].sector != s[0].sector;
        FrontHashed(kept, b, s[0]);
      } else if limit > count + 1 {
        WalkHashed(s[1..], a, end, limit, count + 1, b);
      }
    }
  }

  lemma TailHashed(s: seq<Node>, b: nat)
    requires s != [] && Hashed(s, b)
    ensures Hashed(s[1..], b) && forall x :: x in s[1..] ==> x.sector != s[0].sector
  {
  }

  // ----- the walk along a chain -----

  /** A chain in the middle of the walk: what stays, what was taken out, and what is still to come. */
  datatype Cut = Cut(kept: seq<Node>, gone: seq<Node>, rest: seq<Node>)

  ghost predicate CutTo(s: Snapshot, t: Snapshot, b: nat, c: Cut) {
    && b < |s.buckets| && t.buckets == s.buckets[b := c.kept + c.rest] && t.purged == s.purged
    && t.free == Freed(c.gone) + s.free && t.lru == Unlinked(s.lru, c.gone)
  }

  ghost predicate Cutting(s: Snapshot, t: Snapshot, b: nat, a: u32, end: u32, limit: nat, c: Cut) {
    && CutTo(s, t, b, c)
    && var (kept, gone) := Walk(c.rest, a, end, limit, |c.gone|);
       Walk(s.buckets[b], a, end, limit, 0) == (c.kept + kept, c.gone + gone)
  }

  /** The walk is over: its chain, the free list and the use list afterwards. */
  ghost predicate PurgedChain(s: Snapshot, t: Snapshot, b: nat, a: u32, end: u32, limit: nat, count: nat) {
    && b < |s.buckets|
    && var (kept, gone) := Walk(s.buckets[b], a, end, limit, 0);
       && t.buckets == s.buckets[b := kept] && count == |gone| && t.purged == s.purged
       && t.free == Freed(gone) + s.free && t.lru == Unlinked(s.lru, gone)
  }

  lemma CutStart(s: Snapshot, b: nat, a: u32, end: u32, limit: nat) returns (c: Cut)
    requires b < |s.buckets|
    ensures c == Cut([], [], s.buckets[b]) && Cutting(s, s, b, a, end, limit, c)
  {
    c := Cut([], [], s.buckets[b]);
    assert c.kept + c.rest == c.rest && s.buckets[b := c.rest] == s.buckets && Freed([]) + s.free == s.free;
    var (kept, gone) := Walk(c.rest, a, end, limit, 0);
    assert [] + kept == kept && [] + gone == gone;
  }

  lemma CutKeep(s: Snapshot, t: Snapshot, b: nat, a: u32, end: u32, limit: nat, c: Cut) returns (c': Cut)
    requires Cutting(s, t, b, a, end, limit, c) && c.rest != [] && !InRange(c.rest[0], a, end)
    ensures c' == Cut(c.kept + [c.rest[0]], c.gone, c.rest[1..]) && Cutting(s, t, b, a, end, limit, c')
  {
    c' := Cut(c.kept + [c.rest[0]], c.gone, c.rest[1..]);
    assert c.kept + c.rest == c'.kept + c'.rest;
    ConcatAssoc(c.kept, [c.rest[0]], Walk(c'.rest, a, end, limit, |c.gone|).0);
  }

  /** A node of the range is taken out; with the limit reached, what is still to come stays. */
  lemma CutTake(s: Snapshot, t: Snapshot, u: Snapshot, b: nat, a: u32, end: u32, limit: nat, c: Cut)
    returns (c': Cut)
    requires Cutting(s, t, b, a, end, limit, c) && c.rest != [] && InRange(c.rest[0], a, end)
    requires Discarded(t, u, b, |c.kept|)
    ensures c' == Cut(c.kept, c.gone + [c.rest[0]], c.rest[1..]) && CutTo(s, u, b, c')
    ensures limit <= |c'.gone| ==> PurgedChain(s, u, b, a, end, limit, |c'.gone|)
    ensures limit > |c'.gone| ==> Cutting(s, u, b, a, end, limit, c')
  {
    var node := c.rest[0];
    c' := Cut(c.kept, c.gone + [node], c.rest[1..]);
    assert Without(c.kept + c.rest, |c.kept|) == c'.kept + c'.rest && (c.kept + c.rest)[|c.kept|] == node;
    FreedMore(c.gone, node);
    ConcatAssoc([node.(sector := 0)], Freed(c.gone), s.free);
    UnlinkedMore(s.lru, c.gone, node);
    if limit > |c'.gone| { ConcatAssoc(c.gone, [node], Walk(c'.rest, a, end, limit, |c'.gone|).1); }
  }

  lemma CutEnd(s: Snapshot, t: Snapshot, b: nat, a: u32, end: u32, limit: nat, c: Cut)
    requires Cutting(s, t, b, a, end, limit, c) && c.rest == []
    ensures PurgedChain(s, t, b, a, end, limit, |c.gone|)
  {
    assert c.gone + [] == c.gone;
  }

  class Cache {
    // the fields of the nodes and headers
    var next: Links
    var prev: Links
    var after: Links
    var before: Links
    var sector: Sectors
    // the head of the free list
    var free: Pointer
    const purged: array<nat>
    // the nodes in the order in which they are linked
    ghost var chains: seq<seq<Pointer>>
    ghost var use: seq<Pointer>
    ghost var freed: seq<Pointer>

    ghost predicate Valid()
      reads this
    {
      && purged.Length == 2 && ChainsLinked(next, prev, chains) && ListLinked(after, before, USE, use)
      && Listed(after, free, freed) && Placed(chains, use, freed) && Known(sector, use, freed)
    }

    ghost function Abs(): Snapshot
      reads this, purged
    {
      Snapshot(BucketsAt(sector, chains), use, NodesAt(sector, freed), purged[..])
    }

    /** So many nodes, all free; the chains and the use list are empty. */
    constructor (count: nat)
      ensures Valid() && fresh(purged) && AllHashed(Abs().buckets) && use == [] && |freed| == count
    {
      next, prev, sector, free := map[], map[], map[], NULL;
      after, before := map[USE := USE], map[USE := USE];
      purged := new nat[2](_ => 0);
      chains, use, freed := seq(BUCKETS, _ => []), [], [];
      new;
      for b := 0 to BUCKETS
        invariant forall c :: 0 <= c < b ==> SelfLinked(next, prev, Header(c))
        invariant chains == seq(BUCKETS, _ => []) && use == freed == [] && free == NULL
        invariant after == before == map[USE := USE]
      {
        next, prev := next[Header(b) := Header(b)], prev[Header(b) := Header(b)];
      }
      EmptyLinked(next, prev, after, before, chains);
      AddNodes(count);
    }

    method AddNodes(count: nat)
      requires Valid() && use == freed == []
      modifies this`sector, this`after, this`free, this`freed
      ensures Valid() && |freed| == count
    {
      for i := 0 to count
        invariant Valid() && |freed| == i && forall p :: p in freed ==> p <= i
      {
        sector := sector[i + 1 := 0];
        Release(i + 1);
      }
    }

    /** The node is known, but linked nowhere. */
    ghost predicate Loose(x: Pointer)
      reads this
    {
      x > 0 && x in sector && x !in use && x !in freed
    }

    /** Unlink node k of chain b from the use list and from its chain. */
    method Unlink(x: Pointer, ghost b: nat, ghost k: nat)
      requires Valid() && b < BUCKETS && k < |chains[b]| && x == chains[b][k]
      modifies this`next, this`prev, this`after, this`before, this`chains, this`use
      ensures Valid() && Loose(x)
      ensures chains == old(chains)[b := Without(old(chains[b]), k)] && use == RemoveId(old(use), x)
      ensures x in next && x in old(next) && next[x] == old(next[x])
    {
      ghost var after', before' := UseTaken(after, before, use, x);
      after := after[before[x] := after[x]];
      before := before[after[x] := before[x]];
      SameList(old(after), after, free, freed);
      ghost var next', prev' := ChainTaken(next, prev, chains, b, k);
      next := next[prev[x] := next[x]];
      prev := prev[next[x] := prev[x]];
      ListDistinct(old(next), old(prev), Header(b), chains[b]);
      PlacedTaken(chains, use, freed, b, k);
      KnownTaken(sector, use, freed, x);
      chains, use := chains[b := Without(chains[b], k)], RemoveId(use, x);
    }

    /** Put a loose node on the free list. */
    method Release(x: Pointer)
      requires Valid() && Loose(x)
      modifies this`after, this`free, this`freed
      ensures Valid() && freed == [x] + old(freed)
    {
      after := after[x := free];
      free := x;
      SameList(old(after), after, old(free), freed);
      SameLinked(old(after), before, after, before, USE, use);
      assert ([x] + freed)[1..] == freed;
      freed := [x] + freed;
    }

    /** Clear node k of chain b and move it to the free list. */
    method Discard(x: Pointer, ghost b: nat, ghost k: nat)
      requires Valid() && b < BUCKETS && k < |chains[b]| && x == chains[b][k]
      modifies this
      ensures Valid() && Discarded(old(Abs()), Abs(), b, k)
      ensures chains[b] == Without(old(chains[b]), k)
      ensures x in next && x in old(next) && next[x] == old(next[x])
    {
      ListDistinct(next, prev, Header(b), chains[b]);
      assert x !in freed;
      sector := sector[x := 0];
      Unlink(x, b, k);
      Release(x);
      ClearedNodes(old(sector), old(chains), old(freed), b, k, x);
    }

    /** Take the first free node. */
    method Acquire() returns (x: Pointer)
      requires Valid() && free != NULL
      modifies this`free, this`freed
      ensures Valid() && Loose(x) && old(freed) == [x] + freed
    {
      x := free;
      free := after[x];
      assert freed == [x] + freed[1..];
      freed := freed[1..];
    }

    /** Put a node in front of a chain ... */
    method EnterChain(x: Pointer, b: nat)
      requires ChainsLinked(next, prev, chains) && b < BUCKETS && x > 0
      requires forall c :: 0 <= c < BUCKETS ==> x !in chains[c]
      modifies this`next, this`prev, this`chains
      ensures ChainsLinked(next, prev, chains) && chains == old(chains)[b := [x] + old(chains[b])]
    {
      ChainStart(next, prev, chains, b);
      ghost var next', prev' := ChainFront(next, prev, chains, b, x);
      var h := prev[next[Header(b)]];
      next := next[x := next[h]];
      prev := prev[next[h] := x];
      next := next[h := x];
      prev := prev[x := h];
      chains := chains[b := [x] + chains[b]];
    }

    /** ... and of the use list. */
    method EnterUse(x: Pointer)
      requires ListLinked(after, before, USE, use) && x > 0 && x !in use
      modifies this`after, this`before, this`use
      ensures ListLinked(after, before, USE, use) && use == [x] + old(use)
      ensures forall p :: p in old(after) && p != x && p != USE ==> p in after && after[p] == old(after[p])
    {
      ghost var after', before' := ListFront(after, before, USE, use, x);
      var h := before[after[USE]];
      after := after[x := after[h]];
      before := before[after[h] := x];
      after := after[h := x];
      before := before[x := h];
      use := [x] + use;
    }

    /** Link a loose node in front of the chain of its new sector, and of the use list. */
    method Link(x: Pointer, n: u32)
      requires Valid() && Loose(x)
      modifies this`next, this`prev, this`after, this`before, this`sector, this`chains, this`use
      ensures Valid() && sector == old(sector)[x := n] && use == [x] + old(use)
      ensures chains == old(chains)[n % BUCKETS := [x] + old(chains[n % BUCKETS])]
    {
      EnterChain(x, n % BUCKETS);
      EnterUse(x);
      SameList(old(after), after, free, freed);
      sector := sector[x := n];
    }

    /** Cache a sector in a free node or, if there is none, in the place of another. */
    method Insert(n: u32, victim: Pointer, ghost b: nat, ghost k: nat) returns (x: Pointer)
      requires Valid() && (free == NULL ==> b < BUCKETS && k < |chains[b]| && victim == chains[b][k])
      modifies this
      ensures Valid() && Inserted(old(Abs()), Abs(), x, n, b, k)
    {
      if free != NULL {
        x := Acquire();
      } else {
        x := victim;
        Unlink(x, b, k);
        BucketsWithout(sector, old(chains), b, k);
      }
      ghost var m, c, f := sector, chains, freed;
      Link(x, n);
      LinkedNodes(m, c, f, x, n);
    }

    /** The sector of node k of a chain, and where the chain goes on. */
    method Look(p: Pointer, ghost b: nat, ghost k: nat) returns (n: u32, q: Pointer)
      requires Valid() && b < BUCKETS && k < |chains[b]| && p == chains[b][k]
      ensures p > 0 && Abs().buckets[b][k] == Node(p, n) && q == PlaceIn(b, chains[b], k + 1)
      ensures p in next && next[p] == q
    {
      ChainStep(next, prev, chains, b, k);
      n, q := sector[p], next[p];
    }

    /** The first node of a chain, and the pointer at which its walk ends. */
    method First(b: nat) returns (p: Pointer, stop: Pointer)
      requires Valid() && b < BUCKETS
      ensures p == PlaceIn(b, chains[b], 0) && stop == Header(b)
    {
      ChainStart(next, prev, chains, b);
      p := next[Header(b)];
      stop := prev[p];
    }

    /** The first node of its bucket with this sector, or the header. */
    method Search(n: u32) returns (x: Pointer, ghost k: nat)
      requires Valid()
      ensures var b := n % BUCKETS;
              && k <= |chains[b]| && x == PlaceIn(b, chains[b], k) && Passed(Abs().buckets[b], n, k)
              && (k < |chains[b]| ==> Abs().buckets[b][k].sector == n)
    {
      ghost var b := n % BUCKETS;
      k := 0;
      var stop;
      x, stop := First(n % BUCKETS);
      while x != stop
        invariant k <= |chains[b]| && x == PlaceIn(b, chains[b], k) && Passed(Abs().buckets[b], n, k)
        decreases |chains[b]| - k
      {
        var m, q := Look(x, b, k);
        if m == n { return; }
        x, k := q, k + 1;
      }
    }

    /** Look a sector up in its bucket; a node whose contents are no longer intact is discarded. */
    method Find(n: u32, intact: Pointer -> bool) returns (x: Pointer, ghost k: nat)
      requires Valid()
      modifies this
      ensures Valid() && Looked(old(Abs()), Abs(), n, intact, x, k)
    {
      x, k := Search(n);
      if x == Header(n % BUCKETS) {
        x := NULL;
      } else if !intact(x) {
        Discard(x, n % BUCKETS, k);
        x := NULL;
      }
    }

    /** The walk along chain b has come to p. */
    ghost predicate CameTo(p: Pointer, b: nat, c: Cut)
      reads this
    {
      && b < |chains| && |c.kept| + |c.rest| == |chains[b]| && Nodes(chains[b])
      && p == PlaceIn(b, chains[b], |c.kept|)
    }

    /** One node of the walk: out or not, and where the chain goes on. */
    method PurgeNode(p: Pointer, b: nat, a: u32, end: u32, limit: nat, ghost s: Snapshot, ghost c: Cut)
      returns (out: bool, q: Pointer, ghost c': Cut)
      requires Valid() && b < BUCKETS && Cutting(s, Abs(), b, a, end, limit, c)
      requires CameTo(p, b, c) && p != Header(b)
      modifies this
      ensures Valid() && |c'.rest| < |c.rest| && |c'.gone| == |c.gone| + if out then 1 else 0
      ensures CameTo(q, b, c')
      ensures if out && limit <= |c'.gone| then PurgedChain(s, Abs(), b, a, end, limit, |c'.gone|)
              else Cutting(s, Abs(), b, a, end, limit, c')
    {
      ghost var k, t := |c.kept|, Abs();
      var n;
      n, q := Look(p, b, k);
      out := a <= n < end;
      if out {
        Discard(p, b, k);
        c' := CutTake(s, t, Abs(), b, a, end, limit, c);
        q := next[p];
      } else {
        c' := CutKeep(s, t, b, a, end, limit, c);
      }
    }

    /** Walk one chain, discarding the nodes of the range. */
    method PurgeBucket(b: nat, a: u32, end: u32, limit: nat) returns (count: nat)
      requires Valid() && b < BUCKETS
      modifies this
      ensures Valid() && PurgedChain(old(Abs()), Abs(), b, a, end, limit, count)
    {
      ghost var s, t := Abs(), Abs();
      ghost var c := CutStart(s, b, a, end, limit);
      count := 0;
      var p, stop := First(b);
      while p != stop
        invariant Valid() && t == Abs() && Cutting(s, t, b, a, end, limit, c)
        invariant CameTo(p, b, c) && count == |c.gone|
        decreases |c.rest|
      {
        var out;
        out, p, c := PurgeNode(p, b, a, end, limit, s, c);
        t := Abs();
        if out {
          count := count + 1;
          if limit <= count { return; }
        }
      }
      CutEnd(s, t, b, a, end, limit, c);
    }

    /** One round: a bucket and the statistics. */
    method PurgeRound(b: nat, a: u32, end: u32, limit: nat, kind: nat)
      requires Valid() && b < BUCKETS
      modifies this, purged
      ensures Valid() && Rounded(old(Abs()), Abs(), b, a, end, limit, kind)
    {
      var count := PurgeBucket(b, a, end, limit);
      var c := if kind == 1 then 0 else 1;
      purged[c] := purged[c] + count;
    }

    /** The whole purge: at most 256 buckets, each with the limit of its residue class. */
    method Purge(a: u32, n: u32, kind: nat) returns (visited: nat)
      requires Valid()
      modifies this, purged
      ensures Valid() && visited == (if n < 256 then n else 256)
      ensures PurgeResult(old(Abs()), Abs(), a, (a + n) % WRAP, n, kind, visited)
    {
      var end := (a + n) % WRAP;
      visited := if n > 0xFF then 256 else n;
      ghost var start := Abs();
      Rounds(a, end, n, kind, visited);
      ghost var now := Abs();
      PurgeDone(start, now, a, end, n, kind, visited);
    }

    method Rounds(a: u32, end: u32, n: u32, kind: nat, last: nat)
      requires Valid() && last <= 256
      modifies this, purged
      ensures Valid() && Purged(old(Abs()), Abs(), a, end, n, kind, last)
    {
      var limit, full := StartLimit(n), FullRounds(n);
      ghost var start := Abs();
      ghost var now := start;
      var visited := 0;
      PurgedNone(start, a, end, n, kind);
      while visited < last
        invariant visited <= last && limit == RunningLimit(n, visited)
        invariant Valid() && now == Abs() && Purged(start, now, a, end, n, kind, visited)
      {
        LimitStep(n, visited);
        limit := NextLimit(full, visited, limit);
        var b := Bucket(visited, a);
        ghost var before, v := now, visited;
        PurgeRound(b, a, end, limit, kind);
        now := Abs();
        visited := visited + 1;
        PurgedMore(start, before, now, a, end, n, kind, v, visited, b, limit);
      }
    }
  }

  /** The bucket of round v. */
  function Bucket(v: nat, a: u32): (b: nat)
    ensures b < BUCKETS
  {
    (v + a) % 256
  }

  /** What the nodes taken out mean for the free list, the use list and the counters. */
  predicate Accounted(s: Snapshot, t: Snapshot, gone: seq<Node>, kind: nat) {
    t.free == Freed(gone) + s.free && t.lru == Unlinked(s.lru, gone) && Counted(s.purged, t.purged, kind, |gone|)
  }

  predicate Rounded(s: Snapshot, t: Snapshot, b: nat, a: u32, end: u32, limit: nat, kind: nat) {
    && b < BUCKETS && |s.buckets| == BUCKETS
    && t.buckets == s.buckets[b := Walk(s.buckets[b], a, end, limit, 0).0]
    && Accounted(s, t, Walk(s.buckets[b], a, end, limit, 0).1, kind)
  }

  predicate Purged(s: Snapshot, t: Snapshot, a: u32, end: u32, n: u32, kind: nat, v: nat) {
    && Stepped(s.buckets, t.buckets, a, end, n, v)
    && Accounted(s, t, GoneBy(s.buckets, a, end, n, v), kind)
  }

  /** The nodes taken out of the buckets visited, in that order, are what the free list gained, the use
      list lost and the counter of the kind counts.  Given unique, well hashed sectors and no 32-bit
      wrap, they are exactly the cached sectors of the range, and nothing else is touched; if the end
      of the range wraps, nothing is taken out at all. */
  predicate PurgeResult(s: Snapshot, t: Snapshot, a: u32, end: u32, n: u32, kind: nat, v: nat) {
    && Purged(s, t, a, end, n, kind, v)
    && (AllHashed(s.buckets) && a + n < WRAP && n + 0xFF < WRAP ==> RangeGone(s, t, a, end, n, v))
    && (a + n >= WRAP ==> t.buckets == s.buckets && GoneBy(s.buckets, a, end, n, v) == [])
  }

  lemma PurgeDone(s: Snapshot, t: Snapshot, a: u32, end: u32, n: u32, kind: nat, v: nat)
    requires Purged(s, t, a, end, n, kind, v) && end == (a + n) % WRAP && v == if n < 256 then n else 256
    ensures PurgeResult(s, t, a, end, n, kind, v)
  {
    if AllHashed(s.buckets) && a + n < WRAP && n + 0xFF < WRAP { PurgedAll(s, t, a, end, n, kind, v); }
    if a + n >= WRAP { WrapNothing(s, t, a, end, n, kind, v); }
  }

  lemma WrapNothing(s: Snapshot, t: Snapshot, a: u32, end: u32, n: u32, kind: nat, v: nat)
    requires Purged(s, t, a, end, n, kind, v) && end <= a
    ensures t.buckets == s.buckets && GoneBy(s.buckets, a, end, n, v) == []
  {
    NothingStepped(s.buckets, t.buckets, a, end, n, v);
    NothingGone(s.buckets, a, end, n, v);
  }

  // ----- when the end of the range wraps -----

  lemma {:induction false} WalkNothing(s: seq<Node>, a: u32, end: u32, limit: nat)
    requires end <= a
    ensures Walk(s, a, end, limit, 0) == (s, [])
  {
    if s != [] {
      WalkNothing(s[1..], a, end, limit);
      assert [s[0]] + s[1..] == s;
    }
  }

  lemma NothingStepped(was: seq<seq<Node>>, now: seq<seq<Node>>, a: u32, end: u32, n: u32, v: nat)
    requires Stepped(was, now, a, end, n, v) && end <= a
    ensures now == was
  {
    forall b | 0 <= b < BUCKETS
      ensures now[b] == was[b]
    {
      WalkNothing(was[b], a, end, Limit(n, Turn(a, b)));
    }
  }

  lemma {:induction false} NothingGone(was: seq<seq<Node>>, a: u32, end: u32, n: u32, v: nat)
    requires |was| == BUCKETS && end <= a
    ensures GoneBy(was, a, end, n, v) == []
  {
    if v > 0 {
      NothingGone(was, a, end, n, v - 1);
      WalkNothing(was[(v - 1 + a) % BUCKETS], a, end, Limit(n, v - 1));
    }
  }

  // ----- exactly when the purge is complete -----

  /** No sector of the range is cached. */
  ghost predicate Clear(all: seq<seq<Node>>, a: u32, n: u32) {
    forall b, k :: 0 <= b < |all| && 0 <= k < |all[b]| ==> !(a <= all[b][k].sector < a + n)
  }

  /** Whatever a well hashed cache holds, the purge leaves nothing of the range in it. */
  ghost predicate Complete(a: u32, n: u32) {
    forall was: seq<seq<Node>>, now: seq<seq<Node>> ::
      AllHashed(was) && Stepped(was, now, a, (a + n) % WRAP, n, if n < 256 then n else 256) ==>
      Clear(now, a, n)
  }

  lemma {:induction false} OutsideClear(s: seq<Node>, a: u32, end: u32, k: nat)
    requires k < |Outside(s, a, end)|
    ensures !InRange(Outside(s, a, end)[k], a, end)
  {
    if InRange(s[0], a, end) {
      OutsideClear(s[1..], a, end, k);
    } else if k > 0 {
      OutsideClear(s[1..], a, end, k - 1);
    }
  }

  lemma CompleteIf(a: u32, n: u32)
    requires n == 0 || (a + n < WRAP && n + 0xFF < WRAP)
    ensures Complete(a, n)
  {
    var end, v := (a + n) % WRAP, if n < 256 then n else 256;
    forall was: seq<seq<Node>>, now: seq<seq<Node>> | AllHashed(was) && Stepped(was, now, a, end, n, v)
      ensures Clear(now, a, n)
    {
      if n > 0 {
        forall b, k | 0 <= b < |now| && 0 <= k < |now[b]|
          ensures !(a <= now[b][k].sector < a + n)
        {
          BucketPurged(was, now, a, end, n, v, b);
          OutsideClear(was[b], a, end, k);
        }
      }
    }
  }

  /** A cache with just this chain, in the bucket of a. */
  function Single(a: u32, chain: seq<Node>): (all: seq<seq<Node>>)
    ensures |all| == BUCKETS && forall b :: 0 <= b < BUCKETS ==> all[b] == if b == a % BUCKETS then chain else []
  {
    seq(BUCKETS, b => if b == a % BUCKETS then chain else [])
  }

  /** What the loop makes of a cache. */
  function Walked(was: seq<seq<Node>>, a: u32, n: u32): (now: seq<seq<Node>>)
    requires |was| == BUCKETS
    ensures Stepped(was, now, a, (a + n) % WRAP, n, if n < 256 then n else 256)
  {
    seq(BUCKETS, b requires 0 <= b < BUCKETS =>
          if Turn(a, b) < (if n < 256 then n else 256)
          then Walk(was[b], a, (a + n) % WRAP, Limit(n, Turn(a, b)), 0).0 else was[b])
  }

  /** A range whose end wraps: its first sector, if cached, stays. */
  lemma EndWrapLeaves(a: u32, n: u32)
    requires a + n >= WRAP
    ensures var was := Single(a, [Node(0, a)]); AllHashed(was) && !Clear(Walked(was, a, n), a, n)
  {
    var was := Single(a, [Node(0, a)]);
    var now := Walked(was, a, n);
    NothingStepped(was, now, a, (a + n) % WRAP, n, if n < 256 then n else 256);
    assert now[a % BUCKETS][0].sector == a;
  }

  /** A range so long that rounding it up wraps: of two sectors in its first bucket one stays. */
  lemma LimitWrapLeaves(a: u32, n: u32)
    requires a + n < WRAP <= n + 0xFF
    ensures var was := Single(a, [Node(0, a), Node(1, a + 256)]);
            AllHashed(was) && !Clear(Walked(was, a, n), a, n)
  {
    var chain := [Node(0, a), Node(1, a + 256)];
    var was := Single(a, chain);
    var now := Walked(was, a, n);
    WrappedLimitLeaves(a, n);
    TurnOf(a, 0);
    var b := a % BUCKETS;
    assert now[b] == Walk(chain, a, a + n, Limit(n, 0), 0).0;
    assert now[b] == [chain[1]];
  }

  /** The purge clears its range in every well hashed cache if and only if the range is empty or neither
      its end nor its length rounded up to 256 wraps. */
  lemma CompleteIff(a: u32, n: u32)
    ensures Complete(a, n) <==> n == 0 || (a + n < WRAP && n + 0xFF < WRAP)
  {
    if n == 0 || (a + n < WRAP && n + 0xFF < WRAP) {
      CompleteIf(a, n);
    } else if a + n >= WRAP {
      EndWrapLeaves(a, n);
      assert !Clear(Walked(Single(a, [Node(0, a)]), a, n), a, n);
    } else {
      LimitWrapLeaves(a, n);
      assert !Clear(Walked(Single(a, [Node(0, a), Node(1, a + 256)]), a, n), a, n);
    }
  }

  lemma PurgedNone(s: Snapshot, a: u32, end: u32, n: u32, kind: nat)
    requires |s.buckets| == BUCKETS && |s.purged| == 2
    ensures Purged(s, s, a, end, n, kind, 0)
  {
    assert [] + s.free == s.free;
  }

  lemma PurgedMore(s: Snapshot, t: Snapshot, u: Snapshot, a: u32, end: u32, n: u32, kind: nat, v: nat, w: nat,
                   b: nat, limit: nat)
    requires v < 256 && w == v + 1 && b == Bucket(v, a) && limit == Limit(n, v)
    requires Purged(s, t, a, end, n, kind, v) && Rounded(t, u, b, a, end, limit, kind)
    ensures Purged(s, u, a, end, n, kind, w)
  {
    SteppedMore(s.buckets, t.buckets, u.buckets, a, end, n, v, b, limit);
    var gone, more := GoneBy(s.buckets, a, end, n, v), Walk(s.buckets[b], a, end, limit, 0).1;
    AccountedMore(s, t, u, gone, more, kind);
  }

  lemma AccountedMore(s: Snapshot, t: Snapshot, u: Snapshot, gone: seq<Node>, more: seq<Node>, kind: nat)
    requires Accounted(s, t, gone, kind) && Accounted(t, u, more, kind)
    ensures Accounted(s, u, gone + more, kind)
  {
    GoneMore(gone, more, s.lru, s.free);
  }

  /** The counter of the kind went up by k, the other one not at all. */
  predicate Counted(was: seq<nat>, now: seq<nat>, kind: nat, k: nat) {
    && |was| == |now| == 2
    && now[if kind == 1 then 0 else 1] == was[if kind == 1 then 0 else 1] + k
    && now[if kind == 1 then 1 else 0] == was[if kind == 1 then 1 else 0]
  }

  predicate AllHashed(all: seq<seq<Node>>) {
    |all| == BUCKETS && forall b :: 0 <= b < BUCKETS ==> Hashed(all[b], b)
  }

  /** The nodes taken out in the first v rounds. */
  function GoneBy(was: seq<seq<Node>>, a: u32, end: u32, n: u32, v: nat): seq<Node>
    requires |was| == BUCKETS
  {
    if v == 0 then []
    else GoneBy(was, a, end, n, v - 1) + Walk(was[(v - 1 + a) % BUCKETS], a, end, Limit(n, v - 1), 0).1
  }

  /** The nodes of the range in the buckets of the first v rounds. */
  function InsideBy(was: seq<seq<Node>>, a: u32, end: u32, v: nat): seq<Node>
    requires |was| == BUCKETS
  {
    if v == 0 then [] else InsideBy(was, a, end, v - 1) + Inside(was[(v - 1 + a) % BUCKETS], a, end)
  }

  /** The buckets whose turn came are walked, the others as they were. */
  predicate Stepped(was: seq<seq<Node>>, now: seq<seq<Node>>, a: u32, end: u32, n: u32, v: nat) {
    && |was| == |now| == BUCKETS
    && forall b :: 0 <= b < BUCKETS ==>
         now[b] == if Turn(a, b) < v then Walk(was[b], a, end, Limit(n, Turn(a, b)), 0).0 else was[b]
  }

  lemma SteppedMore(was: seq<seq<Node>>, now: seq<seq<Node>>, next: seq<seq<Node>>, a: u32, end: u32, n: u32, v: nat,
                    b: nat, limit: nat)
    requires v < 256 && Stepped(was, now, a, end, n, v) && b == (v + a) % 256 && limit == Limit(n, v)
    requires next == now[b := Walk(now[b], a, end, limit, 0).0]
    ensures Stepped(was, next, a, end, n, v + 1) && now[b] == was[b]
  {
    TurnOf(a, v);
  }

  lemma GoneMore(gone: seq<Node>, more: seq<Node>, lru: seq<int>, free: seq<Node>)
    ensures Freed(gone + more) + free == Freed(more) + (Freed(gone) + free)
    ensures Unlinked(lru, gone + more) == Unlinked(Unlinked(lru, gone), more)
  {
    FreedAppend(gone, more);
    ConcatAssoc(Freed(more), Freed(gone), free);
    UnlinkedAppend(lru, gone, more);
  }

  lemma {:induction false} FreedAppend(x: seq<Node>, y: seq<Node>)
    ensures Freed(x + y) == Freed(y) + Freed(x)
  {
    if x == [] {
      assert x + y == y;
    } else {
      assert (x + y)[1..] == x[1..] + y;
      FreedAppend(x[1..], y);
    }
  }

  lemma {:induction false} UnlinkedAppend(lru: seq<int>, x: seq<Node>, y: seq<Node>)
    ensures Unlinked(lru, x + y) == Unlinked(Unlinked(lru, x), y)
    decreases |x|
  {
    if x == [] {
      assert x + y == y;
    } else {
      assert (x + y)[1..] == x[1..] + y;
      UnlinkedAppend(RemoveId(lru, x[0].id), x[1..], y);
    }
  }

  /** The free list gets the nodes taken out themselves, last one first, with their sector cleared. */
  lemma {:induction false} FreedAt(gone: seq<Node>, k: nat)
    requires k < |gone|
    ensures |Freed(gone)| == |gone| && Freed(gone)[|gone| - 1 - k] == gone[k].(sector := 0)
  {
    if |gone| > 1 { FreedAt(gone[1..], if k > 0 then k - 1 else 0); }
  }

  /** The use list loses exactly the nodes taken out. */
  lemma {:induction false} UnlinkedIff(lru: seq<int>, gone: seq<Node>, id: int)
    ensures id in Unlinked(lru, gone) <==> id in lru && forall k :: 0 <= k < |gone| ==> gone[k].id != id
    decreases |gone|
  {
    if gone != [] {
      RemoveIdIff(lru, gone[0].id, id);
      UnlinkedIff(RemoveId(lru, gone[0].id), gone[1..], id);
      assert forall k :: 0 < k < |gone| ==> gone[k] == gone[1..][k - 1];
    }
  }

  lemma {:induction false} GoneIsInside(was: seq<seq<Node>>, a: u32, n: u32, v: nat)
    requires AllHashed(was) && a + n < WRAP && n + 0xFF < WRAP && v <= n && v <= 256
    ensures GoneBy(was, a, a + n, n, v) == InsideBy(was, a, a + n, v)
  {
    if v > 0 {
      GoneIsInside(was, a, n, v - 1);
      PurgeStep(was[(v - 1 + a) % BUCKETS], a, n, v - 1);
    }
  }

  /** The nodes taken out are exactly those of the range, and every bucket keeps the others. */
  predicate RangeGone(s: Snapshot, t: Snapshot, a: u32, end: u32, n: u32, v: nat) {
    && |s.buckets| == |t.buckets| == BUCKETS
    && GoneBy(s.buckets, a, end, n, v) == InsideBy(s.buckets, a, end, v)
    && forall b :: 0 <= b < BUCKETS ==> t.buckets[b] == Outside(s.buckets[b], a, end)
  }

  lemma PurgedAll(s: Snapshot, t: Snapshot, a: u32, end: u32, n: u32, kind: nat, v: nat)
    requires AllHashed(s.buckets) && a + n < WRAP && n + 0xFF < WRAP && v == (if n < 256 then n else 256)
    requires end == a + n && Purged(s, t, a, end, n, kind, v)
    ensures RangeGone(s, t, a, end, n, v)
  {
    GoneIsInside(s.buckets, a, n, v);
    forall b | 0 <= b < BUCKETS
      ensures t.buckets[b] == Outside(s.buckets[b], a, end)
    {
      BucketPurged(s.buckets, t.buckets, a, end, n, v, b);
    }
  }

  lemma BucketPurged(was: seq<seq<Node>>, now: seq<seq<Node>>, a: u32, end: u32, n: u32, v: nat, b: nat)
    requires AllHashed(was) && a + n < WRAP && n + 0xFF < WRAP && v == (if n < 256 then n else 256)
    requires end == a + n && Stepped(was, now, a, end, n, v) && b < BUCKETS
    ensures now[b] == Outside(was[b], a, end)
  {
    TurnBack(a, b);
    if Turn(a, b) < v { PurgeStep(was[b], a, n, Turn(a, b)); } else { UnvisitedClean(was[b], a, n, Turn(a, b)); }
  }

  /** When the loop comes to bucket b. */
  function Turn(a: u32, b: int): (t: nat)
    ensures t < BUCKETS
  {
    (b - a) % BUCKETS
  }

  lemma TurnOf(a: u32, v: nat)
    requires v < BUCKETS
    ensures forall b :: 0 <= b < BUCKETS ==> (Turn(a, b) == v <==> b == (v + a) % BUCKETS)
  {
  }

  lemma TurnBack(a: u32, b: nat)
    requires b < BUCKETS
    ensures (a + Turn(a, b)) % BUCKETS == b
  {
  }

  /** The limit of the bucket's own residue class suffices for the bucket. */
  lemma PurgeStep(s: seq<Node>, a: u32, n: u32, i: nat)
    requires i < n && i < 256 && a + n < WRAP && n + 0xFF < WRAP && Hashed(s, (a + i) % BUCKETS)
    ensures Walk(s, a, a + n, Limit(n, i), 0) == (Outside(s, a, a + n), Inside(s, a, a + n))
  {
    InsideBounded(s, a, n, i);
    LimitExact(n, i);
    WalkComplete(s, a, a + n, Limit(n, i), 0);
  }

  lemma {:induction false} FreedMore(gone: seq<Node>, x: Node)
    ensures Freed(gone + [x]) == [x.(sector := 0)] + Freed(gone)
  {
    if gone == [] {
      assert gone + [x] == [x] && [x][1..] == [];
    } else {
      assert (gone + [x])[1..] == gone[1..] + [x];
      FreedMore(gone[1..], x);
    }
  }

  lemma {:induction false} UnlinkedMore(lru: seq<int>, gone: seq<Node>, x: Node)
    ensures Unlinked(lru, gone + [x]) == RemoveId(Unlinked(lru, gone), x.id)
    decreases |gone|
  {
    if gone == [] {
      assert gone + [x] == [x] && [x][1..] == [];
    } else {
      assert (gone + [x])[1..] == gone[1..] + [x];
      UnlinkedMore(RemoveId(lru, gone[0].id), gone[1..], x);
    }
  }
}
