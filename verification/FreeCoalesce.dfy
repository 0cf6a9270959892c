/** When returning an extent leaves no two free extents touching. */
module FreeCoalesce {
  import opened FreeList

  predicate Touching(e: Extent, f: Extent) {
    e.size > 0 && f.size > 0 && e.start + e.size == f.start
  }

  /** No two nodes could be one. */
  predicate Coalesced(nodes: seq<Extent>) {
    forall i, j :: 0 <= i < j < |nodes| ==> !Touching(nodes[i], nodes[j])
  }

  /** The empty placeholder stands right before the node that starts where the extent ends, and the
      scan stops at the placeholder or before it. */
  predicate Blocks(nodes: seq<Extent>, a: nat, n: nat, z: nat) {
    && z + 1 < |nodes| && nodes[z].size == 0 && nodes[z + 1].start == a + n
    && (nodes[z].start >= a || exists j :: 0 <= j < |nodes| && EndsAt(nodes[j], a))
  }

  predicate Blocked(nodes: seq<Extent>, a: nat, n: nat) {
    exists z :: 0 <= z < |nodes| && Blocks(nodes, a, n, z)
  }

  /** A non-empty node from i on starts where the extent ends. */
  predicate Meets(nodes: seq<Extent>, a: nat, n: nat, i: nat) {
    exists j :: i <= j < |nodes| && nodes[j].size > 0 && nodes[j].start == a + n
  }

  /** Where the scan stands: everything before i was passed. */
  ghost predicate At(nodes: seq<Extent>, a: nat, n: nat, i: nat) {
    && Inv(nodes) && Coalesced(nodes) && Disjoint(nodes, a, n) && n > 0
    && i <= |nodes| && Passed(nodes, a, i)
  }

  /** A node behind one that does not start below a starts at or above the end of the extent. */
  lemma Above(nodes: seq<Extent>, a: nat, n: nat, i: nat, j: nat)
    requires At(nodes, a, n, i) && i < j < |nodes| && nodes[j].size > 0 && nodes[i].start + nodes[i].size >= a
    requires nodes[i].size > 0 || nodes[i].start >= a
    ensures nodes[j].start >= a + n
  {
    assert Ordered(nodes[i], nodes[j], false);
    DisjointNode(nodes, a, n, j);
  }

  // ----- the branches of the scan -----

  lemma AtEnd(nodes: seq<Extent>, a: nat, n: nat)
    requires At(nodes, a, n, |nodes|)
    ensures Coalesced(nodes + [Extent(a, n)]) && !Blocked(nodes, a, n)
  {
  }

  /** The extent takes the place of the placeholder. */
  lemma AtPlaceholder(nodes: seq<Extent>, a: nat, n: nat, i: nat)
    requires At(nodes, a, n, i) && i < |nodes| && nodes[i] == Extent(a, 0)
    ensures Coalesced(nodes[i := Extent(a, n)]) <==> !Meets(nodes, a, n, i + 1)
  {
    var t := nodes[i := Extent(a, n)];
    if j :| i + 1 <= j < |nodes| && nodes[j].size > 0 && nodes[j].start == a + n {
      assert Touching(t[i], t[j]);
    } else {
      forall p, q | 0 <= p < q < |t|
        ensures !Touching(t[p], t[q])
      {
        assert !Touching(nodes[p], nodes[q]);
      }
    }
  }

  /** Behind a placeholder at or above a, a node that meets the extent is the very next one. */
  lemma MeetsNext(nodes: seq<Extent>, a: nat, n: nat, i: nat)
    requires At(nodes, a, n, i) && i < |nodes| && nodes[i].size == 0 && nodes[i].start >= a
    ensures Meets(nodes, a, n, i + 1) <==> i + 1 < |nodes| && nodes[i + 1].start == a + n
  {
    if i + 1 < |nodes| {
      assert nodes[i].size > 0 || nodes[i + 1].size > 0;
      Above(nodes, a, n, i, i + 1);
    }
  }

  /** There is only one placeholder. */
  lemma OnePlaceholder(nodes: seq<Extent>, i: nat, z: nat)
    requires Inv(nodes) && i < |nodes| && z < |nodes| && nodes[i].size == 0 && nodes[z].size == 0
    ensures i == z
  {
  }

  lemma BlockedHere(nodes: seq<Extent>, a: nat, n: nat, i: nat)
    requires At(nodes, a, n, i) && i < |nodes| && nodes[i].size == 0 && nodes[i].start >= a
    ensures Blocked(nodes, a, n) <==> Meets(nodes, a, n, i + 1)
  {
    MeetsNext(nodes, a, n, i);
    if Meets(nodes, a, n, i + 1) { assert Blocks(nodes, a, n, i); }
    if z :| 0 <= z < |nodes| && Blocks(nodes, a, n, z) { OnePlaceholder(nodes, i, z); }
  }

  /** The extent ends where the node starts, which then grows downwards. */
  lemma JoinedBelow(nodes: seq<Extent>, a: nat, n: nat, i: nat)
    requires At(nodes, a, n, i) && i < |nodes| && nodes[i].start == a + n
    ensures Coalesced(nodes[i := Extent(a, nodes[i].size + n)]) && !Blocked(nodes, a, n)
  {
    var t := nodes[i := Extent(a, nodes[i].size + n)];
    forall p, q | 0 <= p < q < |t|
      ensures !Touching(t[p], t[q])
    {
      assert !Touching(nodes[p], nodes[q]) && Ordered(nodes[p], nodes[q], false);
    }
    NoneEndsAt(nodes, a, n, i);
    forall z | 0 <= z < |nodes|
      ensures !Blocks(nodes, a, n, z)
    {
      if z >= i && z + 1 < |nodes| {
        assert Ordered(nodes[i], nodes[z + 1], false) && (nodes[z].size > 0 || nodes[z + 1].size > 0);
      }
    }
  }

  /** Once a node starts above a, no node ends at a. */
  lemma NoneEndsAt(nodes: seq<Extent>, a: nat, n: nat, i: nat)
    requires At(nodes, a, n, i) && i < |nodes| && nodes[i].start > a
    ensures forall j :: 0 <= j < |nodes| ==> !EndsAt(nodes[j], a)
  {
    forall j | 0 <= j < |nodes|
      ensures !EndsAt(nodes[j], a)
    {
      if j > i { assert Ordered(nodes[i], nodes[j], false); }
    }
  }

  /** The extent goes in before a node that starts above its end ... */
  lemma InsertedBelow(nodes: seq<Extent>, a: nat, n: nat, i: nat)
    requires At(nodes, a, n, i) && i < |nodes| && nodes[i].start > a && nodes[i].start != a + n
    ensures Coalesced(nodes[..i] + [Extent(a, n)] + nodes[i..]) <==> !Meets(nodes, a, n, i)
  {
    var e := Extent(a, n);
    var t := nodes[..i] + [e] + nodes[i..];
    if j :| i <= j < |nodes| && nodes[j].size > 0 && nodes[j].start == a + n {
      assert t[i] == e && t[j + 1] == nodes[j];
      assert Touching(t[i], t[j + 1]);
    } else {
      forall p, q | 0 <= p < q < |t|
        ensures !Touching(t[p], t[q])
      {
        var p', q' := if p > i then p - 1 else p, if q > i then q - 1 else q;
        if p != i && q != i { assert !Touching(nodes[p'], nodes[q']); }
      }
    }
  }

  /** ... or before the placeholder, wherever that stands. */
  lemma InsertedBlocked(nodes: seq<Extent>, a: nat, n: nat, i: nat)
    requires At(nodes, a, n, i) && i < |nodes| && nodes[i].start > a && nodes[i].start != a + n
    ensures Blocked(nodes, a, n) <==> Meets(nodes, a, n, i)
  {
    if nodes[i].size == 0 {
      BlockedHere(nodes, a, n, i);
      assert Meets(nodes, a, n, i) <==> Meets(nodes, a, n, i + 1);
    } else {
      DisjointNode(nodes, a, n, i);
      forall j | i <= j < |nodes| && nodes[j].size > 0
        ensures nodes[j].start > a + n
      {
        if j > i { assert Ordered(nodes[i], nodes[j], false); }
      }
      forall z | 0 <= z < |nodes|
        ensures !Blocks(nodes, a, n, z)
      {
        if z + 1 < |nodes| { assert nodes[z].size > 0 || nodes[z + 1].size > 0; }
      }
    }
  }

  /** The node ends where the extent starts, and the next one starts where it ends. */
  lemma JoinedBoth(nodes: seq<Extent>, a: nat, n: nat, i: nat)
    requires At(nodes, a, n, i) && i + 1 < |nodes| && EndsAt(nodes[i], a) && nodes[i + 1].start == a + n
    ensures Coalesced(nodes[..i] + [Extent(nodes[i].start, nodes[i].size + n + nodes[i + 1].size)] + nodes[i + 2..])
    ensures !Blocked(nodes, a, n)
  {
    var e := Extent(nodes[i].start, nodes[i].size + n + nodes[i + 1].size);
    var t := nodes[..i] + [e] + nodes[i + 2..];
    forall p, q | 0 <= p < q < |t|
      ensures !Touching(t[p], t[q])
    {
      var p', q' := if p > i then p + 1 else p, if q > i then q + 1 else q;
      assert !Touching(nodes[p'], nodes[q']);
      if p == i { assert !Touching(nodes[i + 1], nodes[q']) && Ordered(nodes[i + 1], nodes[q'], false); }
    }
    forall z | 0 <= z < |nodes|
      ensures !Blocks(nodes, a, n, z)
    {
      if z > i && z + 1 < |nodes| {
        assert Ordered(nodes[i + 1], nodes[z + 1], false) && (nodes[z].size > 0 || nodes[z + 1].size > 0);
      }
    }
  }

  /** The node ends where the extent starts, and the next one starts elsewhere. */
  lemma JoinedAbove(nodes: seq<Extent>, a: nat, n: nat, i: nat)
    requires At(nodes, a, n, i) && i < |nodes| && EndsAt(nodes[i], a)
    requires i + 1 < |nodes| ==> nodes[i + 1].start != a + n
    ensures Coalesced(nodes[i := Extent(nodes[i].start, nodes[i].size + n)]) <==> !Meets(nodes, a, n, i + 1)
  {
    var t := nodes[i := Extent(nodes[i].start, nodes[i].size + n)];
    if j :| i + 1 <= j < |nodes| && nodes[j].size > 0 && nodes[j].start == a + n {
      assert Touching(t[i], t[j]);
    } else {
      forall p, q | 0 <= p < q < |t|
        ensures !Touching(t[p], t[q])
      {
        assert !Touching(nodes[p], nodes[q]);
      }
    }
  }

  lemma JoinedBlocked(nodes: seq<Extent>, a: nat, n: nat, i: nat)
    requires At(nodes, a, n, i) && i < |nodes| && EndsAt(nodes[i], a)
    requires i + 1 < |nodes| ==> nodes[i + 1].start != a + n
    ensures Blocked(nodes, a, n) <==> Meets(nodes, a, n, i + 1)
  {
    if j :| i + 1 <= j < |nodes| && nodes[j].size > 0 && nodes[j].start == a + n {
      MeetsBehind(nodes, a, n, i, j);
      assert Blocks(nodes, a, n, i + 1);
    }
    if z :| 0 <= z < |nodes| && Blocks(nodes, a, n, z) {
      assert nodes[z].size > 0 || nodes[z + 1].size > 0;
    }
  }

  /** If the next node does not meet the extent but a later one does, the next one is the
      placeholder and the one behind it meets. */
  lemma MeetsBehind(nodes: seq<Extent>, a: nat, n: nat, i: nat, j: nat)
    requires At(nodes, a, n, i) && i + 1 < j < |nodes| && EndsAt(nodes[i], a)
    requires nodes[i + 1].start != a + n && nodes[j].size > 0 && nodes[j].start == a + n
    ensures nodes[i + 1].size == 0 && nodes[i + 2].start == a + n
  {
    assert Ordered(nodes[i + 1], nodes[j], false);
    if nodes[i + 1].size > 0 { Above(nodes, a, n, i, i + 1); }
    else {
      assert nodes[i + 1].size > 0 || nodes[i + 2].size > 0;
      Above(nodes, a, n, i, i + 2);
    }
  }

  // ----- together -----

  lemma {:induction false} CoalescedFrom(nodes: seq<Extent>, a: nat, n: nat, i: nat)
    requires At(nodes, a, n, i)
    ensures Coalesced(ReturnedFrom(nodes, a, n, i)) <==> !Blocked(nodes, a, n)
    decreases |nodes| - i
  {
    if i == |nodes| {
      AtEnd(nodes, a, n);
    } else {
      var e := nodes[i];
      if e.start == a {
        if e.size > 0 { DisjointNode(nodes, a, n, i); }
        AtPlaceholder(nodes, a, n, i);
        BlockedHere(nodes, a, n, i);
      } else if a < e.start {
        if a + n == e.start {
          JoinedBelow(nodes, a, n, i);
        } else {
          InsertedBelow(nodes, a, n, i);
          InsertedBlocked(nodes, a, n, i);
        }
      } else if e.start + e.size == a {
        if i + 1 < |nodes| && a + n == nodes[i + 1].start {
          JoinedBoth(nodes, a, n, i);
        } else {
          JoinedAbove(nodes, a, n, i);
          JoinedBlocked(nodes, a, n, i);
        }
      } else {
        CoalescedFrom(nodes, a, n, i + 1);
      }
    }
  }

  /** Returning an extent to a coalesced list leaves it coalesced if and only if no placeholder
      blocks the merge with the node above. */
  lemma CoalescedIff(nodes: seq<Extent>, a: nat, n: nat)
    requires Inv(nodes) && Coalesced(nodes) && Disjoint(nodes, a, n) && n > 0
    ensures Coalesced(Returned(nodes, a, n)) <==> !Blocked(nodes, a, n)
  {
    CoalescedFrom(nodes, a, n, 0);
  }

  /** Taking clusters never makes nodes touch. */
  lemma AllocateCoalesced(nodes: seq<Extent>, want: nat, hint: nat, useHint: bool)
    requires Inv(nodes) && Coalesced(nodes)
    ensures Coalesced(Allocated(nodes, want, hint, useHint).0)
  {
    var c := Choose(nodes, want, hint, useHint);
    var t := Allocated(nodes, want, hint, useHint).0;
    forall p, q | 0 <= p < q < |t|
      ensures !Touching(t[p], t[q])
    {
      var removed := |t| < |nodes|;
      var p', q' := if removed && p >= c then p + 1 else p, if removed && q >= c then q + 1 else q;
      assert !Touching(nodes[p'], nodes[q']) && Ordered(nodes[p'], nodes[q'], false);
    }
  }

  /** It does happen: hand out everything, return the upper half and then the lower. */
  lemma TouchingLeft()
    ensures var one, two := [Extent(10, 0)], [Extent(10, 0), Extent(15, 5)];
            && Allocated([Extent(10, 10)], 10, 0, false).0 == one
            && Returned(one, 15, 5) == two
            && Returned(two, 10, 5) == [Extent(10, 5), Extent(15, 5)]
            && !Coalesced([Extent(10, 5), Extent(15, 5)])
  {
    var t := [Extent(10, 5), Extent(15, 5)];
    assert Touching(t[0], t[1]);
  }
}
