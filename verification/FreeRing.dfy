/** The free list as the program keeps it: a circular doubly linked list in memory, with a head
    pointer.  The two routines, with their splicing and unlinking, do to the ring what FreeList says
    of its nodes from the head on.  Pointers are addresses, memory is a map from them. */
module FreeRing {
  import opened FreeList

  type Pointer = int

  datatype Cell = Cell(start: nat, size: nat, prev: Pointer, next: Pointer)

  type Memory = map<Pointer, Cell>

  function Next(i: nat, n: nat): nat { if i + 1 < n then i + 1 else 0 }

  function Prev(i: nat, n: nat): int { if i > 0 then i - 1 else n - 1 }

  predicate Distinct(ids: seq<Pointer>) {
    forall i, j :: 0 <= i < j < |ids| ==> ids[i] != ids[j]
  }

  predicate Here(m: Memory, ids: seq<Pointer>) {
    forall i :: 0 <= i < |ids| ==> ids[i] in m
  }

  predicate NextAt(m: Memory, ids: seq<Pointer>, i: nat)
    requires i < |ids| && ids[i] in m
  {
    m[ids[i]].next == ids[Next(i, |ids|)]
  }

  predicate PrevAt(m: Memory, ids: seq<Pointer>, i: nat)
    requires i < |ids| && ids[i] in m
  {
    m[ids[i]].prev == ids[Prev(i, |ids|)]
  }

  /** The cells, in order, are linked into a ring in both directions. */
  predicate Linked(m: Memory, ids: seq<Pointer>) {
    && ids != [] && Distinct(ids) && Here(m, ids)
    && (forall i :: 0 <= i < |ids| ==> NextAt(m, ids, i) && PrevAt(m, ids, i))
  }

  function ExtentAt(m: Memory, p: Pointer): Extent
    requires p in m
  {
    Extent(m[p].start, m[p].size)
  }

  function Extents(m: Memory, ids: seq<Pointer>): (r: seq<Extent>)
    requires Here(m, ids)
    ensures |r| == |ids| && forall i :: 0 <= i < |ids| ==> r[i] == ExtentAt(m, ids[i])
  {
    seq(|ids|, i requires 0 <= i < |ids| => ExtentAt(m, ids[i]))
  }

  function SetNext(m: Memory, p: Pointer, q: Pointer): Memory
    requires p in m
  {
    m[p := m[p].(next := q)]
  }

  function SetPrev(m: Memory, p: Pointer, q: Pointer): Memory
    requires p in m
  {
    m[p := m[p].(prev := q)]
  }

  // ----- taking a node out -----

  function Without(ids: seq<Pointer>, c: nat): (r: seq<Pointer>)
    requires c < |ids|
    ensures |r| == |ids| - 1
    ensures forall i :: 0 <= i < |r| ==> r[i] == ids[Old(i, c)]
  {
    ids[..c] + ids[c + 1..]
  }

  /** Index i of the shorter ring stands for this index of the longer one. */
  function Old(i: nat, c: nat): nat { if i < c then i else i + 1 }

  lemma Skip(i: nat, c: nat, n: nat)
    requires c < n && i < n - 1
    ensures Old(Next(i, n - 1), c) == if Old(i, c) == Prev(c, n) then Next(c, n) else Next(Old(i, c), n)
    ensures Old(Prev(i, n - 1), c) == if Old(i, c) == Next(c, n) then Prev(c, n) else Prev(Old(i, c), n)
    ensures Old(i, c) != c && Old(i, c) < n
  {
  }

  /** Both neighbours of cell x point past it. */
  function Unlinked(m: Memory, x: Pointer): Memory
    requires x in m && m[x].next in m && m[x].prev in m
  {
    SetNext(SetPrev(m, m[x].next, m[x].prev), m[x].prev, m[x].next)
  }

  lemma Neighbours(m: Memory, ids: seq<Pointer>, c: nat)
    requires Linked(m, ids) && c < |ids|
    ensures m[ids[c]].next == ids[Next(c, |ids|)] && m[ids[c]].prev == ids[Prev(c, |ids|)]
    ensures m[ids[c]].next in m && m[ids[c]].prev in m
  {
    assert NextAt(m, ids, c) && PrevAt(m, ids, c);
  }

  /** What unlinking does to the links of another node. */
  lemma UnlinkedAt(m: Memory, ids: seq<Pointer>, c: nat, j: nat)
    requires Linked(m, ids) && c < |ids| && |ids| > 1 && j < |ids|
    requires m[ids[c]].next in m && m[ids[c]].prev in m
    ensures var u := Unlinked(m, ids[c]);
            var n := |ids|;
            && ids[j] in u && ExtentAt(u, ids[j]) == ExtentAt(m, ids[j])
            && u[ids[j]].next == (if j == Prev(c, n) then ids[Next(c, n)] else ids[Next(j, n)])
            && u[ids[j]].prev == (if j == Next(c, n) then ids[Prev(c, n)] else ids[Prev(j, n)])
  {
    Neighbours(m, ids, c);
    Neighbours(m, ids, j);
  }

  lemma UnlinkRing(m: Memory, ids: seq<Pointer>, c: nat)
    requires Linked(m, ids) && c < |ids| && |ids| > 1
    ensures m[ids[c]].next in m && m[ids[c]].prev in m
    ensures var u, rest := Unlinked(m, ids[c]), Without(ids, c);
            && Linked(u, rest) && Extents(u, rest) == Extents(m, ids)[..c] + Extents(m, ids)[c + 1..]
  {
    Neighbours(m, ids, c);
    var u, rest, n := Unlinked(m, ids[c]), Without(ids, c), |ids|;
    forall i | 0 <= i < |rest|
      ensures rest[i] in u && ExtentAt(u, rest[i]) == ExtentAt(m, ids[Old(i, c)])
      ensures u[rest[i]].next == rest[Next(i, n - 1)] && u[rest[i]].prev == rest[Prev(i, n - 1)]
    {
      Skip(i, c, n);
      UnlinkedAt(m, ids, c, Old(i, c));
    }
    assert Distinct(rest) by { DistinctWithout(ids, c); }
    assert forall i :: 0 <= i < |rest| ==> NextAt(u, rest, i) && PrevAt(u, rest, i);
  }

  lemma DistinctWithout(ids: seq<Pointer>, c: nat)
    requires Distinct(ids) && c < |ids|
    ensures Distinct(Without(ids, c))
  {
  }

  // ----- putting a node in -----

  function With(ids: seq<Pointer>, at: nat, x: Pointer): (r: seq<Pointer>)
    requires at <= |ids|
    ensures |r| == |ids| + 1 && r[at] == x
    ensures forall k :: 0 <= k < |r| && k != at ==> r[k] == ids[Was(k, at)]
  {
    ids[..at] + [x] + ids[at..]
  }

  /** Index k of the longer ring stands for this index of the shorter one. */
  function Was(k: nat, at: nat): int { if k < at then k else k - 1 }

  lemma Made(k: nat, at: nat, n: nat)
    requires 0 < at <= n && k <= n && k != at
    ensures Next(k, n + 1) != at ==> Was(Next(k, n + 1), at) == Next(Was(k, at), n)
    ensures Prev(k, n + 1) != at ==> Was(Prev(k, n + 1), at) == Prev(Was(k, at), n)
    ensures Next(k, n + 1) == at <==> Was(k, at) == at - 1
    ensures Prev(k, n + 1) == at <==> Was(k, at) == Next(at - 1, n)
    ensures 0 <= Was(k, at) < n
  {
  }

  /** Cell x goes in before cell p: its own links first, then those of its neighbours. */
  function Spliced(m: Memory, x: Pointer, p: Pointer): Memory
    requires x in m && p in m && m[p].prev in m
  {
    var m1 := SetPrev(SetNext(m, x, p), x, m[p].prev);
    SetPrev(SetNext(m1, m[p].prev, x), p, x)
  }

  lemma SplicedAt(m: Memory, ids: seq<Pointer>, at: nat, x: Pointer, j: nat)
    requires Linked(m, ids) && 0 < at <= |ids| && x in m && x !in ids && j < |ids|
    ensures var n := |ids|;
            var p := ids[Next(at - 1, n)];
            && m[p].prev == ids[at - 1] && m[p].prev in m
            && var u := Spliced(m, x, p);
               && ids[j] in u && ExtentAt(u, ids[j]) == ExtentAt(m, ids[j])
               && u[ids[j]].next == (if j == at - 1 then x else ids[Next(j, n)])
               && u[ids[j]].prev == (if j == Next(at - 1, n) then x else ids[Prev(j, n)])
               && x in u && ExtentAt(u, x) == ExtentAt(m, x) && u[x].next == p && u[x].prev == ids[at - 1]
  {
    Neighbours(m, ids, Next(at - 1, |ids|));
    Neighbours(m, ids, j);
  }

  lemma DistinctWith(ids: seq<Pointer>, at: nat, x: Pointer)
    requires Distinct(ids) && at <= |ids| && x !in ids
    ensures Distinct(With(ids, at, x))
  {
  }

  /** Node k of the longer ring: its links, and its extent. */
  predicate InPlace(m: Memory, u: Memory, ids: seq<Pointer>, at: nat, x: Pointer, k: nat)
    requires Here(m, ids) && x in m && at <= |ids| && k <= |ids|
  {
    var more := With(ids, at, x);
    && more[k] in u && NextAt(u, more, k) && PrevAt(u, more, k)
    && ExtentAt(u, more[k]) == if k == at then ExtentAt(m, x) else ExtentAt(m, ids[Was(k, at)])
  }

  lemma SplicedPlace(m: Memory, ids: seq<Pointer>, at: nat, x: Pointer, k: nat)
    requires Linked(m, ids) && 0 < at <= |ids| && x in m && x !in ids && k <= |ids|
    ensures var p := ids[Next(at - 1, |ids|)];
            m[p].prev in m && InPlace(m, Spliced(m, x, p), ids, at, x, k)
  {
    SplicedAt(m, ids, at, x, 0);
    if k != at {
      Made(k, at, |ids|);
      SplicedAt(m, ids, at, x, Was(k, at));
    }
  }

  lemma PlacedLinked(m: Memory, u: Memory, ids: seq<Pointer>, at: nat, x: Pointer)
    requires Distinct(ids) && Here(m, ids) && x in m && x !in ids && at <= |ids|
    requires forall k :: 0 <= k <= |ids| ==> InPlace(m, u, ids, at, x, k)
    ensures Linked(u, With(ids, at, x))
  {
    var more := With(ids, at, x);
    DistinctWith(ids, at, x);
    forall k | 0 <= k < |more|
      ensures more[k] in u && NextAt(u, more, k) && PrevAt(u, more, k)
    {
      assert InPlace(m, u, ids, at, x, k);
    }
  }

  lemma PlacedExtents(m: Memory, u: Memory, ids: seq<Pointer>, at: nat, x: Pointer)
    requires Here(m, ids) && x in m && at <= |ids| && Here(u, With(ids, at, x))
    requires forall k :: 0 <= k <= |ids| ==> InPlace(m, u, ids, at, x, k)
    ensures Extents(u, With(ids, at, x)) == Extents(m, ids)[..at] + [ExtentAt(m, x)] + Extents(m, ids)[at..]
  {
    var more, old_ := With(ids, at, x), Extents(m, ids);
    var goal := old_[..at] + [ExtentAt(m, x)] + old_[at..];
    forall k | 0 <= k < |more|
      ensures Extents(u, more)[k] == goal[k]
    {
      assert InPlace(m, u, ids, at, x, k);
      if k != at { assert goal[k] == old_[Was(k, at)]; }
    }
  }

  lemma SpliceRing(m: Memory, ids: seq<Pointer>, at: nat, x: Pointer)
    requires Linked(m, ids) && 0 < at <= |ids| && x in m && x !in ids
    ensures var p := ids[Next(at - 1, |ids|)];
            && m[p].prev in m
            && var u, more := Spliced(m, x, p), With(ids, at, x);
               && Linked(u, more)
               && Extents(u, more) == Extents(m, ids)[..at] + [ExtentAt(m, x)] + Extents(m, ids)[at..]
  {
    SplicedAt(m, ids, at, x, 0);
    var u := Spliced(m, x, ids[Next(at - 1, |ids|)]);
    forall k | 0 <= k <= |ids|
      ensures InPlace(m, u, ids, at, x, k)
    {
      SplicedPlace(m, ids, at, x, k);
    }
    PlacedLinked(m, u, ids, at, x);
    PlacedExtents(m, u, ids, at, x);
  }

  /** A ring may be read from any of its nodes. */
  lemma Rotated(m: Memory, s: seq<Pointer>, t: seq<Pointer>)
    requires Linked(m, s) && |t| == |s| && t[0] == s[|s| - 1] && forall i :: 0 < i < |t| ==> t[i] == s[i - 1]
    ensures Linked(m, t)
  {
    forall i | 0 <= i < |t|
      ensures t[i] in m && NextAt(m, t, i) && PrevAt(m, t, i)
    {
      RotatedAt(m, s, t, i);
    }
    forall i, j | 0 <= i < j < |t|
      ensures t[i] != t[j]
    {
      if i > 0 { assert s[i - 1] != s[j - 1]; } else { assert s[j - 1] != s[|s| - 1]; }
    }
  }

  lemma RotatedAt(m: Memory, s: seq<Pointer>, t: seq<Pointer>, i: nat)
    requires Linked(m, s) && |t| == |s| && t[0] == s[|s| - 1] && forall i :: 0 < i < |t| ==> t[i] == s[i - 1]
    requires i < |t|
    ensures t[i] in m && NextAt(m, t, i) && PrevAt(m, t, i)
  {
    Neighbours(m, s, Prev(i, |s|));
  }

  /** Cells outside the ring do not matter. */
  lemma SameRing(m: Memory, m': Memory, ids: seq<Pointer>)
    requires Linked(m, ids) && forall i :: 0 <= i < |ids| ==> ids[i] in m' && m'[ids[i]] == m[ids[i]]
    ensures Linked(m', ids) && Extents(m', ids) == Extents(m, ids)
  {
    forall i | 0 <= i < |ids|
      ensures NextAt(m', ids, i) && PrevAt(m', ids, i)
    {
      Neighbours(m, ids, i);
    }
  }

  /** Resizing a node changes no link. */
  lemma ResizedRing(m: Memory, ids: seq<Pointer>, c: nat, e: Extent)
    requires Linked(m, ids) && c < |ids|
    ensures var u := m[ids[c] := m[ids[c]].(start := e.start, size := e.size)];
            Linked(u, ids) && Extents(u, ids) == Extents(m, ids)[c := e]
  {
    var u := m[ids[c] := m[ids[c]].(start := e.start, size := e.size)];
    forall i | 0 <= i < |ids|
      ensures NextAt(u, ids, i) && PrevAt(u, ids, i)
    {
      Neighbours(m, ids, i);
    }
  }

  /** Memory holds the cells of the ring and the loose ones, which are others, and nothing else. */
  ghost predicate Owns(m: Memory, ids: seq<Pointer>, loose: set<Pointer>) {
    && (forall p :: p in m <==> p in ids || p in loose)
    && (forall p :: p in loose ==> p !in ids)
  }

  lemma OwnsSame(m: Memory, m': Memory, ids: seq<Pointer>, loose: set<Pointer>)
    requires Owns(m, ids, loose) && m'.Keys == m.Keys
    ensures Owns(m', ids, loose)
  {
  }

  lemma OwnsWith(m: Memory, m': Memory, ids: seq<Pointer>, more: seq<Pointer>, loose: set<Pointer>, x: Pointer)
    requires Owns(m, ids, loose) && m'.Keys == m.Keys && x in loose
    requires forall p :: p in more <==> p in ids || p == x
    ensures Owns(m', more, loose - {x})
  {
  }

  lemma OwnsWithout(m: Memory, m': Memory, ids: seq<Pointer>, c: nat, loose: set<Pointer>)
    requires Owns(m, ids, loose) && Distinct(ids) && c < |ids| && m'.Keys == m.Keys - {ids[c]}
    ensures Owns(m', Without(ids, c), loose)
  {
    forall p
      ensures p in Without(ids, c) <==> p in ids && p != ids[c]
    {
      WithoutHas(ids, c, p);
    }
  }

  lemma WithoutHas(ids: seq<Pointer>, c: nat, p: Pointer)
    requires Distinct(ids) && c < |ids|
    ensures p in Without(ids, c) <==> p in ids && p != ids[c]
  {
    var rest := Without(ids, c);
    if p in ids && p != ids[c] {
      var i :| 0 <= i < |ids| && ids[i] == p;
      assert rest[if i < c then i else i - 1] == p;
    }
  }

  lemma WithHas(ids: seq<Pointer>, at: nat, x: Pointer, p: Pointer)
    requires at <= |ids|
    ensures p in With(ids, at, x) <==> p in ids || p == x
  {
    var more := With(ids, at, x);
    assert more[at] == x;
    if p in ids {
      var i :| 0 <= i < |ids| && ids[i] == p;
      assert more[if i < at then i else i + 1] == p;
    }
  }

  /** A cell that was just fetched, and one that is released. */
  lemma OwnsLoose(m: Memory, ids: seq<Pointer>, loose: set<Pointer>, x: Pointer, cell: Cell)
    requires Owns(m, ids, loose)
    ensures x !in m ==> Owns(m[x := cell], ids, loose + {x})
    ensures x in loose ==> Owns(m - {x}, ids, loose - {x})
  {
  }

  /** Memory after a node was unlinked and its cell released. */
  lemma ReleasedRing(m: Memory, u: Memory, ids: seq<Pointer>, c: nat, loose: set<Pointer>)
    requires Linked(m, ids) && c < |ids| && |ids| > 1 && Owns(m, ids, loose)
    requires m[ids[c]].next in m && m[ids[c]].prev in m && u == Unlinked(m, ids[c])
    ensures var m', rest := u - {ids[c]}, Without(ids, c);
            && Linked(m', rest) && Owns(m', rest, loose)
            && Extents(m', rest) == Extents(m, ids)[..c] + Extents(m, ids)[c + 1..]
  {
    UnlinkRing(m, ids, c);
    var m', rest := u - {ids[c]}, Without(ids, c);
    forall i | 0 <= i < |rest|
      ensures rest[i] in m' && m'[rest[i]] == u[rest[i]]
    {
      WithoutHas(ids, c, rest[i]);
    }
    SameRing(u, m', rest);
    OwnsWithout(m, m', ids, c, loose);
  }

  /** Memory after a loose cell was spliced in before node k, read from the new head if k is 0. */
  lemma InsertedRing(m: Memory, u: Memory, ids: seq<Pointer>, k: nat, x: Pointer, loose: set<Pointer>)
    requires Linked(m, ids) && k < |ids| && Owns(m, ids, loose) && x in loose
    requires m[ids[k]].prev in m && u == Spliced(m, x, ids[k])
    ensures var more := With(ids, k, x);
            && Linked(u, more) && Owns(u, more, loose - {x})
            && Extents(u, more) == Extents(m, ids)[..k] + [ExtentAt(m, x)] + Extents(m, ids)[k..]
  {
    var more := With(ids, k, x);
    forall p
      ensures p in more <==> p in ids || p == x
    {
      WithHas(ids, k, x, p);
    }
    OwnsWith(m, u, ids, more, loose, x);
    if k > 0 {
      SpliceRing(m, ids, k, x);
    } else {
      SpliceRing(m, ids, |ids|, x);
      var round := With(ids, |ids|, x);
      assert more == [x] + ids;
      Rotated(u, round, more);
      RotatedExtents(u, ids, x, Extents(m, ids), ExtentAt(m, x));
    }
  }

  lemma RotatedExtents(u: Memory, ids: seq<Pointer>, x: Pointer, e: seq<Extent>, f: Extent)
    requires Here(u, With(ids, |ids|, x)) && |e| == |ids| && Here(u, With(ids, 0, x))
    requires Extents(u, With(ids, |ids|, x)) == e[..|ids|] + [f] + e[|ids|..]
    ensures Extents(u, With(ids, 0, x)) == e[..0] + [f] + e[0..]
  {
    var round, more := With(ids, |ids|, x), With(ids, 0, x);
    assert Extents(u, round)[|ids|] == f;
    forall i | 0 < i < |more|
      ensures Extents(u, more)[i] == e[i - 1]
    {
      assert Extents(u, round)[i - 1] == e[i - 1];
    }
  }

  lemma AppendedRing(m: Memory, u: Memory, ids: seq<Pointer>, x: Pointer, loose: set<Pointer>)
    requires Linked(m, ids) && Owns(m, ids, loose) && x in loose
    requires m[ids[0]].prev in m && u == Spliced(m, x, ids[0])
    ensures var more := With(ids, |ids|, x);
            && Linked(u, more) && Owns(u, more, loose - {x}) && more[0] == ids[0]
            && Extents(u, more) == Extents(m, ids) + [ExtentAt(m, x)]
  {
    var more := With(ids, |ids|, x);
    forall p
      ensures p in more <==> p in ids || p == x
    {
      WithHas(ids, |ids|, x, p);
    }
    OwnsWith(m, u, ids, more, loose, x);
    SpliceRing(m, ids, |ids|, x);
    var e := Extents(m, ids);
    assert e[..|ids|] == e && e[|ids|..] == [];
  }

  // ----- the routines -----

  class Ring {
    var mem: Memory
    var head: Pointer
    ghost var ids: seq<Pointer>
    ghost var loose: set<Pointer>

    /** The ring is whole, and memory holds its cells and the loose ones, nothing else. */
    ghost predicate Sound()
      reads this
    {
      Linked(mem, ids) && head == ids[0] && Owns(mem, ids, loose)
    }

    /** Between calls no cell is loose: none leaks, and none is released while it is linked. */
    ghost predicate Valid()
      reads this
    {
      Sound() && loose == {}
    }

    ghost function Abs(): seq<Extent>
      requires Sound()
      reads this
    {
      Extents(mem, ids)
    }

    constructor (cell: Pointer, start: nat, size: nat)
      ensures Valid() && Abs() == [Extent(start, size)]
    {
      mem, head, ids, loose := map[cell := Cell(start, size, cell, cell)], cell, [cell], {};
    }

    method Resize(x: Pointer, start: nat, size: nat, ghost c: nat)
      requires Sound() && c < |ids| && ids[c] == x
      modifies this`mem
      ensures Sound() && Abs() == old(Abs())[c := Extent(start, size)]
      ensures mem[x] == old(mem[x]).(start := start, size := size)
      ensures forall p :: p in mem && p != x ==> p in old(mem) && mem[p] == old(mem[p])
    {
      ResizedRing(mem, ids, c, Extent(start, size));
      ghost var was := mem;
      mem := mem[x := mem[x].(start := start, size := size)];
      OwnsSame(was, mem, ids, loose);
    }

    /** Take a node out and release its cell; if it was the head, the next one is. */
    method Remove(x: Pointer, ghost c: nat)
      requires Sound() && c < |ids| && ids[c] == x && |ids| > 1
      modifies this`mem, this`head, this`ids
      ensures Sound() && Abs() == old(Abs())[..c] + old(Abs())[c + 1..]
    {
      ghost var was, rest := mem, Without(ids, c);
      UnlinkRing(mem, ids, c);
      Neighbours(mem, ids, c);
      var cell := mem[x];
      mem := mem[cell.next := mem[cell.next].(prev := cell.prev)];
      mem := mem[cell.prev := mem[cell.prev].(next := cell.next)];
      if x == head { head := cell.next; }
      ReleasedRing(was, mem, ids, c, loose);
      mem := mem - {x};
      ids := rest;
    }

    /** Put a node in before the one at k, and make it the head if it starts below the head. */
    method Insert(x: Pointer, p: Pointer, ghost k: nat)
      requires Sound() && k < |ids| && ids[k] == p && x in loose
      requires k == 0 <==> mem[x].start < mem[head].start
      modifies this
      ensures Sound() && Abs() == old(Abs())[..k] + [ExtentAt(old(mem), x)] + old(Abs())[k..]
      ensures loose == old(loose) - {x}
    {
      ghost var m, was := mem, ids;
      SpliceRing(mem, ids, if k == 0 then |ids| else k, x);
      Link(x, p);
      InsertedRing(m, mem, ids, k, x, loose);
      ids, loose := With(ids, k, x), loose - {x};
      if mem[x].start < mem[head].start {
        head := x;
      }
    }

    /** The pointer updates of an insertion. */
    method Link(x: Pointer, p: Pointer)
      requires x in mem && p in mem && mem[p].prev in mem && x != p
      modifies this`mem
      ensures mem == Spliced(old(mem), x, p)
    {
      mem := mem[x := mem[x].(next := p)];
      mem := mem[x := mem[x].(prev := mem[p].prev)];
      var before := mem[x].prev;
      mem := mem[before := mem[before].(next := x)];
      mem := mem[p := mem[p].(prev := x)];
    }

    /** Put a node in behind the last one. */
    method Append(x: Pointer)
      requires Sound() && x in loose && mem[x].start >= mem[head].start
      modifies this
      ensures Sound() && Abs() == old(Abs()) + [ExtentAt(old(mem), x)] && loose == old(loose) - {x}
    {
      ghost var m := mem;
      SpliceRing(mem, ids, |ids|, x);
      Link(x, head);
      AppendedRing(m, mem, ids, x, loose);
      ids, loose := With(ids, |ids|, x), loose - {x};
    }

    /** fn_0005ee. */
    method Allocate(want: nat, hint: nat, useHint: bool) returns (grant: Grant)
      requires Valid()
      modifies this
      ensures Valid() && (Abs(), grant) == Allocated(old(Abs()), want, hint, useHint)
    {
      var found;
      ghost var c;
      found, c := Search(want, hint, useHint);
      var e := mem[found];
      if e.size == 0 { return Full; }
      var got := if e.size < want then e.size else want;
      Take(found, got, c);
      return Granted(e.start, got);
    }

    /** Shrink the node, and unlink it if nothing is left of it and it is not the only one. */
    method Take(found: Pointer, got: nat, ghost c: nat)
      requires Sound() && c < |ids| && found == ids[c] && got <= mem[found].size
      modifies this`mem, this`head, this`ids
      ensures Sound() && Abs() == Taken(old(Abs()), c, got)
    {
      ghost var was := Abs();
      assert was[c] == ExtentAt(mem, found);
      var e := mem[found];
      var left := e.size - got;
      Resize(found, if left != 0 then e.start + got else e.start, left, c);
      Alone(mem, ids, c);
      if left == 0 && found != mem[found].next {
        Remove(found, c);
        assert Abs() == was[..c] + was[c + 1..];
      }
    }

    /** The scan round the ring for the node to take from. */
    method Search(want: nat, hint: nat, useHint: bool) returns (found: Pointer, ghost c: nat)
      requires Sound()
      ensures found == ids[Choose(Abs(), want, hint, useHint)] && c == Choose(Abs(), want, hint, useHint)
    {
      var at, best := head, head;
      ghost var k, b := 0, 0;
      while true
        invariant k < |ids| && b < |ids| && at == ids[k] && best == ids[b]
        invariant ChooseFrom(Abs(), want, hint, useHint, k, b) == Choose(Abs(), want, hint, useHint)
        decreases |ids| - k
      {
        assert Abs()[k] == ExtentAt(mem, at) && Abs()[b] == ExtentAt(mem, best);
        if (useHint && hint == mem[at].start) || want == mem[at].size {
          return at, k;
        }
        if want < mem[at].size {
          if mem[best].size < want { best, b := at, k; }
        } else if mem[best].size < mem[at].size {
          best, b := at, k;
        }
        Neighbours(mem, ids, k);
        at := mem[at].next;
        if at == head {
          assert k + 1 == |ids|;
          return best, b;
        }
        k := k + 1;
      }
    }

    /** fn_000770: a cell is fetched for the extent; it is linked in, or released where the extent is
        joined to a node. */
    method GiveBack(a: nat, n: nat, cell: Pointer)
      requires Valid() && FreeList.Inv(Abs()) && cell !in mem
      modifies this
      ensures Valid() && Abs() == Returned(old(Abs()), a, n)
    {
      if n == 0 { return; }
      Fetch(cell, a, n);
      var at, atEnd;
      ghost var k;
      at, atEnd, k := Locate(a, n);
      if atEnd {
        Append(cell);
      } else if mem[at].start <= a || a + n == mem[at].start {
        Join(at, a, n, k);
        Release(cell);
      } else {
        Insert(cell, at, k);
      }
    }

    /** The scan for the place: the first node that the extent meets or lies below, or the end. */
    method Locate(a: nat, n: nat) returns (at: Pointer, atEnd: bool, ghost k: nat)
      requires Sound() && n > 0
      ensures atEnd ==> mem[head].start < a && Returned(Abs(), a, n) == Abs() + [Extent(a, n)]
      ensures !atEnd ==>
                && k < |ids| && at == ids[k] && Returned(Abs(), a, n) == ReturnedFrom(Abs(), a, n, k)
                && (mem[at].start == a || a < mem[at].start || mem[at].start + mem[at].size == a)
                && (k > 0 ==> mem[head].start < a)
    {
      at, k, atEnd := head, 0, false;
      while true
        invariant k < |ids| && at == ids[k] && ReturnedFrom(Abs(), a, n, k) == Returned(Abs(), a, n)
        invariant k > 0 ==> mem[head].start < a
        decreases |ids| - k
      {
        assert Abs()[k] == ExtentAt(mem, at);
        if mem[at].start == a || a < mem[at].start || mem[at].start + mem[at].size == a { return; }
        Neighbours(mem, ids, k);
        assert k == 0 ==> mem[head].start < a;
        at := mem[at].next;
        if at == head {
          assert k + 1 == |ids|;
          return at, true, k;
        }
        k := k + 1;
      }
    }

    method Fetch(cell: Pointer, a: nat, n: nat)
      requires Sound() && cell !in mem
      modifies this`mem, this`loose
      ensures Sound() && Abs() == old(Abs()) && loose == old(loose) + {cell} && ExtentAt(mem, cell) == Extent(a, n)
    {
      ghost var was := mem;
      OwnsLoose(mem, ids, loose, cell, Cell(a, n, 0, 0));
      mem := mem[cell := Cell(a, n, 0, 0)];
      loose := loose + {cell};
      SameRing(was, mem, ids);
    }

    method Release(cell: Pointer)
      requires Sound() && cell in loose
      modifies this`mem, this`loose
      ensures Sound() && Abs() == old(Abs()) && loose == old(loose) - {cell}
    {
      OwnsLoose(mem, ids, loose, cell, mem[cell]);
      SameRing(mem, mem - {cell}, ids);
      mem := mem - {cell};
      loose := loose - {cell};
    }

    /** Join the extent to the node it meets. */
    method Join(at: Pointer, a: nat, n: nat, ghost k: nat)
      requires Sound() && FreeList.Inv(Abs()) && n > 0 && k < |ids| && at == ids[k]
      requires mem[at].start == a || a + n == mem[at].start || mem[at].start < a == mem[at].start + mem[at].size
      modifies this`mem, this`head, this`ids
      ensures Sound() && Abs() == ReturnedFrom(old(Abs()), a, n, k)
    {
      assert Abs()[k] == ExtentAt(mem, at);
      if mem[at].start == a {
        Resize(at, a, if mem[at].size < n then n else mem[at].size, k);
      } else if a < mem[at].start {
        Resize(at, mem[at].start - n, mem[at].size + n, k);
      } else {
        JoinAbove(at, a, n, k);
      }
    }

    /** Grow a node at its end, and swallow the next one if it now touches that. */
    method JoinAbove(at: Pointer, a: nat, n: nat, ghost k: nat)
      requires Sound() && FreeList.Inv(Abs()) && n > 0 && k < |ids| && at == ids[k]
      requires mem[at].start < a == mem[at].start + mem[at].size
      modifies this`mem, this`head, this`ids
      ensures Sound() && Abs() == ReturnedFrom(old(Abs()), a, n, k)
    {
      ghost var was := Abs();
      assert was[k] == ExtentAt(mem, at);
      JoinedIs(was, a, n, k);
      Resize(at, mem[at].start, mem[at].size + n, k);
      Neighbours(mem, ids, k);
      var f := mem[at].next;
      assert ExtentAt(mem, f) == Abs()[Next(k, |ids|)];
      if k + 1 == |ids| { NoMergeRoundRing(was, n); }
      if mem[at].start + mem[at].size == mem[f].start {
        Swallow(at, f, k);
      }
    }

    /** The node takes over the size of the next one, which goes. */
    method Swallow(at: Pointer, f: Pointer, ghost k: nat)
      requires Sound() && k + 1 < |ids| && at == ids[k] && f == ids[k + 1]
      modifies this`mem, this`head, this`ids
      ensures Sound() && Abs() == Merged(old(Abs()), k)
    {
      ghost var was := Abs();
      assert was[k] == ExtentAt(mem, at) && was[k + 1] == ExtentAt(mem, f);
      Resize(at, mem[at].start, mem[at].size + mem[f].size, k);
      ghost var grown := Abs();
      Remove(f, k + 1);
      MergedIs(was, grown, k);
    }
  }

  /** Nodes k and k + 1 as one. */
  function Merged(s: seq<Extent>, k: nat): seq<Extent>
    requires k + 1 < |s|
  {
    s[..k] + [Extent(s[k].start, s[k].size + s[k + 1].size)] + s[k + 2..]
  }

  lemma MergedIs(s: seq<Extent>, t: seq<Extent>, k: nat)
    requires k + 1 < |s| && t == s[k := Extent(s[k].start, s[k].size + s[k + 1].size)]
    ensures t[..k + 1] + t[k + 2..] == Merged(s, k)
  {
    assert t[..k + 1] == s[..k] + [t[k]] && t[k + 2..] == s[k + 2..];
  }

  lemma JoinedIs(s: seq<Extent>, a: nat, n: nat, k: nat)
    requires k < |s| && s[k].start < a == s[k].start + s[k].size
    ensures var t := s[k := Extent(s[k].start, s[k].size + n)];
            ReturnedFrom(s, a, n, k) == if k + 1 < |s| && a + n == s[k + 1].start then Merged(t, k) else t
  {
    var t := s[k := Extent(s[k].start, s[k].size + n)];
    assert t[..k] == s[..k];
    if k + 1 < |s| { assert t[k + 2..] == s[k + 2..]; }
  }

  /** A node is its own successor exactly if it is the only one. */
  lemma Alone(m: Memory, ids: seq<Pointer>, c: nat)
    requires Linked(m, ids) && c < |ids|
    ensures m[ids[c]].next == ids[c] <==> |ids| == 1
  {
    Neighbours(m, ids, c);
  }
}
