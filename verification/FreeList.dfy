/** RBF free list: allocation of clusters (fn_0005ee) and their return with coalescing (fn_000770).
    Here the circular list is the sequence of its nodes from the head on; FreeRing has the pointers. */
module FreeList {

  datatype Extent = Extent(start: nat, size: nat)

  datatype Grant = Full | Granted(start: nat, got: nat)

  predicate Holds(e: Extent, x: int) { e.start <= x < e.start + e.size }

  ghost predicate IsFree(nodes: seq<Extent>, x: int) {
    exists i :: 0 <= i < |nodes| && Holds(nodes[i], x)
  }

  // ----- allocation -----

  /** The node ends the search: it continues the file, or fits exactly. */
  predicate Hit(e: Extent, want: nat, hint: nat, useHint: bool) {
    (useHint && hint == e.start) || want == e.size
  }

  /** The scan from node i on, with the best node so far. */
  function ChooseFrom(nodes: seq<Extent>, want: nat, hint: nat, useHint: bool, i: nat, best: nat): (c: nat)
    requires i <= |nodes| && best < |nodes|
    ensures c < |nodes|
    decreases |nodes| - i
  {
    if i == |nodes| then best
    else if Hit(nodes[i], want, hint, useHint) then i
    else if want < nodes[i].size then
      ChooseFrom(nodes, want, hint, useHint, i + 1, if nodes[best].size < want then i else best)
    else
      ChooseFrom(nodes, want, hint, useHint, i + 1, if nodes[best].size < nodes[i].size then i else best)
  }

  function Choose(nodes: seq<Extent>, want: nat, hint: nat, useHint: bool): (c: nat)
    requires nodes != []
    ensures c < |nodes|
  {
    ChooseFrom(nodes, want, hint, useHint, 0, 0)
  }

  /** The list after taking `got` clusters from node c: an emptied node is unlinked unless it is
      the only one. */
  function Taken(nodes: seq<Extent>, c: nat, got: nat): seq<Extent>
    requires c < |nodes| && got <= nodes[c].size
  {
    var e := nodes[c];
    if got < e.size then nodes[c := Extent(e.start + got, e.size - got)]
    else if |nodes| == 1 then [Extent(e.start, 0)]
    else nodes[..c] + nodes[c + 1..]
  }

  function Allocated(nodes: seq<Extent>, want: nat, hint: nat, useHint: bool): (seq<Extent>, Grant)
    requires nodes != []
  {
    var c := Choose(nodes, want, hint, useHint);
    if nodes[c].size == 0 then (nodes, Full)
    else
      var got := if nodes[c].size < want then nodes[c].size else want;
      (Taken(nodes, c, got), Granted(nodes[c].start, got))
  }

  // ----- return -----

  /** The scan from node i on; everything before it stays. */
  function ReturnedFrom(nodes: seq<Extent>, a: nat, n: nat, i: nat): seq<Extent>
    requires i <= |nodes|
    decreases |nodes| - i
  {
    if i == |nodes| then nodes + [Extent(a, n)]
    else
      var e := nodes[i];
      if e.start == a then nodes[i := Extent(a, if e.size < n then n else e.size)]
      else if a < e.start then
        if a + n == e.start then nodes[i := Extent(e.start - n, e.size + n)]
        else nodes[..i] + [Extent(a, n)] + nodes[i..]
      else if e.start + e.size == a then
        var grown := Extent(e.start, e.size + n);
        if i + 1 < |nodes| && grown.start + grown.size == nodes[i + 1].start
        then nodes[..i] + [Extent(e.start, grown.size + nodes[i + 1].size)] + nodes[i + 2..]
        else nodes[i := grown]
      else ReturnedFrom(nodes, a, n, i + 1)
  }

  function Returned(nodes: seq<Extent>, a: nat, n: nat): seq<Extent> {
    if n == 0 then nodes else ReturnedFrom(nodes, a, n, 0)
  }

  // ----- the invariant -----

  /** Node e lies below the later node f.  An empty f is asked for only in the strict order. */
  predicate Ordered(e: Extent, f: Extent, strict: bool) {
    strict || f.size > 0 ==> e.start + e.size <= f.start && (e.size == 0 ==> e.start < f.start)
  }

  /** The non-empty nodes are sorted and disjoint; an emptied last node may linger as a single
      empty placeholder, which lies below everything behind it.  In the strict order the
      placeholder itself is in its place too. */
  predicate Sorted(nodes: seq<Extent>, strict: bool) {
    && nodes != []
    && (forall i, j :: 0 <= i < j < |nodes| ==> Ordered(nodes[i], nodes[j], strict))
    && (forall i, j :: 0 <= i < j < |nodes| ==> nodes[i].size > 0 || nodes[j].size > 0)
  }

  predicate Inv(nodes: seq<Extent>) { Sorted(nodes, false) }

  /** The extent shares no cluster with the free ones. */
  ghost predicate Disjoint(nodes: seq<Extent>, a: nat, n: nat) {
    forall x :: a <= x < a + n ==> !IsFree(nodes, x)
  }

  lemma HeldIsFree(nodes: seq<Extent>, i: nat, x: int)
    requires i < |nodes| && Holds(nodes[i], x)
    ensures IsFree(nodes, x)
  {
  }

  lemma DisjointNode(nodes: seq<Extent>, a: nat, n: nat, i: nat)
    requires Disjoint(nodes, a, n) && i < |nodes| && n > 0 && nodes[i].size > 0
    ensures a + n <= nodes[i].start || nodes[i].start + nodes[i].size <= a
  {
    var x := if a <= nodes[i].start then nodes[i].start else a;
    if Holds(nodes[i], x) { HeldIsFree(nodes, i, x); }
  }

  // ----- what allocation does -----

  lemma TakenInv(nodes: seq<Extent>, strict: bool, c: nat, got: nat)
    requires Sorted(nodes, strict) && c < |nodes| && 0 < got <= nodes[c].size
    ensures Sorted(Taken(nodes, c, got), strict)
  {
    var t := Taken(nodes, c, got);
    forall i, j | 0 <= i < j < |t|
      ensures Ordered(t[i], t[j], strict) && (t[i].size > 0 || t[j].size > 0)
    {
      var removed := |t| < |nodes|;
      var i', j' := if removed && i >= c then i + 1 else i, if removed && j >= c then j + 1 else j;
      assert Ordered(nodes[i'], nodes[j'], strict) && (nodes[i'].size > 0 || nodes[j'].size > 0);
    }
  }

  lemma TakenOnly(nodes: seq<Extent>, c: nat, got: nat, x: int)
    requires Inv(nodes) && c < |nodes| && 0 < got <= nodes[c].size
    requires IsFree(Taken(nodes, c, got), x)
    ensures IsFree(nodes, x) && !(nodes[c].start <= x < nodes[c].start + got)
  {
    var t := Taken(nodes, c, got);
    var i :| 0 <= i < |t| && Holds(t[i], x);
    var i' := if |t| < |nodes| && i >= c then i + 1 else i;
    HeldIsFree(nodes, i', x);
    if i' < c { assert Ordered(nodes[i'], nodes[c], false); }
    if i' > c { assert Ordered(nodes[c], nodes[i'], false); }
  }

  lemma TakenRest(nodes: seq<Extent>, c: nat, got: nat, x: int)
    requires c < |nodes| && 0 < got <= nodes[c].size
    requires IsFree(nodes, x) && !(nodes[c].start <= x < nodes[c].start + got)
    ensures IsFree(Taken(nodes, c, got), x)
  {
    var t := Taken(nodes, c, got);
    var i :| 0 <= i < |nodes| && Holds(nodes[i], x);
    var i' := if |t| < |nodes| && i > c then i - 1 else i;
    if i != c { assert t[i'] == nodes[i]; }
    assert Holds(t[i'], x);
  }

  lemma TakenExact(nodes: seq<Extent>, c: nat, got: nat, x: int)
    requires Inv(nodes) && c < |nodes| && 0 < got <= nodes[c].size
    ensures IsFree(Taken(nodes, c, got), x)
            <==> IsFree(nodes, x) && !(nodes[c].start <= x < nodes[c].start + got)
  {
    if IsFree(Taken(nodes, c, got), x) { TakenOnly(nodes, c, got, x); }
    if IsFree(nodes, x) && !(nodes[c].start <= x < nodes[c].start + got) { TakenRest(nodes, c, got, x); }
  }

  /** A successful allocation hands out free clusters, at least one if any were asked for and no more
      than asked, and removes exactly them. */
  lemma AllocateExact(nodes: seq<Extent>, want: nat, hint: nat, useHint: bool)
    requires Inv(nodes)
    ensures var (nodes', g) := Allocated(nodes, want, hint, useHint);
            && Inv(nodes')
            && (g.Full? ==> nodes' == nodes)
            && (g.Granted? ==>
                  && g.got <= want && (want > 0 ==> g.got > 0)
                  && (forall x :: g.start <= x < g.start + g.got ==> IsFree(nodes, x))
                  && (forall x :: IsFree(nodes', x) <==> IsFree(nodes, x) && !(g.start <= x < g.start + g.got)))
  {
    var c := Choose(nodes, want, hint, useHint);
    var (nodes', g) := Allocated(nodes, want, hint, useHint);
    if g.Granted? {
      if g.got == 0 { assert nodes' == nodes; } else { TakenInv(nodes, false, c, g.got); }
      forall x
        ensures IsFree(nodes', x) <==> IsFree(nodes, x) && !(g.start <= x < g.start + g.got)
      {
        if g.got > 0 { TakenExact(nodes, c, g.got, x); }
      }
      forall x | g.start <= x < g.start + g.got
        ensures IsFree(nodes, x)
      {
        assert Holds(nodes[c], x);
      }
    }
  }

  // ----- which node is chosen -----

  /** No node before k ends the search. */
  predicate NoHitBefore(nodes: seq<Extent>, want: nat, hint: nat, useHint: bool, k: nat)
    requires k <= |nodes|
  {
    forall i :: 0 <= i < k ==> !Hit(nodes[i], want, hint, useHint)
  }

  /** Among the first k nodes: enough if any has enough, and otherwise a largest one. */
  predicate BestOf(nodes: seq<Extent>, want: nat, c: nat, k: nat)
    requires c < |nodes| && k <= |nodes|
  {
    forall i :: 0 <= i < k ==>
      if nodes[i].size >= want then nodes[c].size >= want
      else nodes[c].size >= want || nodes[c].size >= nodes[i].size
  }

  lemma {:induction false} ChooseFromBest(nodes: seq<Extent>, want: nat, hint: nat, useHint: bool, i: nat, best: nat)
    requires i <= |nodes| && best < |nodes|
    requires NoHitBefore(nodes, want, hint, useHint, i) && BestOf(nodes, want, best, i)
    ensures var c := ChooseFrom(nodes, want, hint, useHint, i, best);
            || (Hit(nodes[c], want, hint, useHint) && NoHitBefore(nodes, want, hint, useHint, c))
            || (NoHitBefore(nodes, want, hint, useHint, |nodes|) && BestOf(nodes, want, c, |nodes|))
    decreases |nodes| - i
  {
    if i < |nodes| && !Hit(nodes[i], want, hint, useHint) {
      if want < nodes[i].size {
        ChooseFromBest(nodes, want, hint, useHint, i + 1, if nodes[best].size < want then i else best);
      } else {
        ChooseFromBest(nodes, want, hint, useHint, i + 1, if nodes[best].size < nodes[i].size then i else best);
      }
    }
  }

  /** Unless the hint decides, the whole request is granted whenever some node can hold it, and
      otherwise a largest node is handed out. */
  lemma GrantIsBest(nodes: seq<Extent>, want: nat, hint: nat)
    requires nodes != [] && want > 0
    ensures var g := Allocated(nodes, want, hint, false).1;
            forall i :: 0 <= i < |nodes| && nodes[i].size > 0 ==>
              g.Granted? && (if nodes[i].size >= want then g.got == want else g.got >= nodes[i].size)
  {
    ChooseFromBest(nodes, want, hint, false, 0, 0);
  }

  // ----- the node that is taken, without the search -----

  /** The node the hint names, or one of exactly the size asked for. */
  predicate Stops(nodes: seq<Extent>, want: nat, hint: nat, useHint: bool, i: nat)
    requires i < |nodes|
  {
    nodes[i].size == want || (useHint && nodes[i].start == hint)
  }

  predicate NoneStops(nodes: seq<Extent>, want: nat, hint: nat, useHint: bool) {
    forall i :: 0 <= i < |nodes| ==> !Stops(nodes, want, hint, useHint, i)
  }

  /** The first such node ... */
  predicate FirstStop(nodes: seq<Extent>, want: nat, hint: nat, useHint: bool, c: nat) {
    && c < |nodes| && Stops(nodes, want, hint, useHint, c)
    && forall i :: 0 <= i < c ==> !Stops(nodes, want, hint, useHint, i)
  }

  /** ... or else the first that is larger ... */
  predicate FirstLarger(nodes: seq<Extent>, want: nat, c: nat) {
    c < |nodes| && nodes[c].size > want && forall i :: 0 <= i < c ==> nodes[i].size <= want
  }

  /** ... or else the first of the largest. */
  predicate FirstLargest(nodes: seq<Extent>, want: nat, c: nat) {
    && c < |nodes|
    && (forall i :: 0 <= i < |nodes| ==> nodes[i].size <= want && nodes[i].size <= nodes[c].size)
    && (forall i :: 0 <= i < c ==> nodes[i].size < nodes[c].size)
  }

  /** Node c is the one to take. */
  predicate Picks(nodes: seq<Extent>, want: nat, hint: nat, useHint: bool, c: nat) {
    || FirstStop(nodes, want, hint, useHint, c)
    || (NoneStops(nodes, want, hint, useHint) && (FirstLarger(nodes, want, c) || FirstLargest(nodes, want, c)))
  }

  /** The best of the first k nodes, none of which ended the search. */
  predicate BestSoFar(nodes: seq<Extent>, want: nat, c: nat, k: nat)
    requires c < |nodes| && k <= |nodes|
  {
    && c <= k
    && if nodes[c].size > want then forall i :: 0 <= i < c ==> nodes[i].size < want
       else
         && (forall i :: 0 <= i < k ==> nodes[i].size < want && nodes[i].size <= nodes[c].size)
         && (forall i :: 0 <= i < c ==> nodes[i].size < nodes[c].size)
  }

  lemma {:induction false} ChooseFromPicks(nodes: seq<Extent>, want: nat, hint: nat, useHint: bool, i: nat, best: nat)
    requires i <= |nodes| && best < |nodes| && BestSoFar(nodes, want, best, i) && (i == 0 ==> best == 0)
    requires forall k :: 0 <= k < i ==> !Stops(nodes, want, hint, useHint, k)
    ensures Picks(nodes, want, hint, useHint, ChooseFrom(nodes, want, hint, useHint, i, best))
    decreases |nodes| - i
  {
    if i < |nodes| && !Stops(nodes, want, hint, useHint, i) {
      var next := if want < nodes[i].size then (if nodes[best].size < want then i else best)
                  else if nodes[best].size < nodes[i].size then i else best;
      ChooseFromPicks(nodes, want, hint, useHint, i + 1, next);
    }
  }

  /** Which node is taken, for every request: the first one that the hint names or that has exactly the
      size, else the first larger one, else the first of the largest; and what is granted of it. */
  lemma AllocatedPicks(nodes: seq<Extent>, want: nat, hint: nat, useHint: bool, c: nat)
    requires Picks(nodes, want, hint, useHint, c)
    ensures var (nodes', g) := Allocated(nodes, want, hint, useHint);
            var e := nodes[c];
            if e.size == 0 then g == Full && nodes' == nodes
            else
              && g == Granted(e.start, if e.size <= want then e.size else want)
              && nodes' == if want < e.size then nodes[..c] + [Extent(e.start + want, e.size - want)] + nodes[c + 1..]
                           else if |nodes| > 1 then nodes[..c] + nodes[c + 1..]
                           else [Extent(e.start, 0)]
  {
    ChooseFromPicks(nodes, want, hint, useHint, 0, 0);
    PicksUnique(nodes, want, hint, useHint, c, Choose(nodes, want, hint, useHint));
  }

  lemma PicksUnique(nodes: seq<Extent>, want: nat, hint: nat, useHint: bool, c: nat, d: nat)
    requires Picks(nodes, want, hint, useHint, c) && Picks(nodes, want, hint, useHint, d)
    ensures c == d
  {
    NotBefore(nodes, want, hint, useHint, c, d);
    NotBefore(nodes, want, hint, useHint, d, c);
  }

  lemma NotBefore(nodes: seq<Extent>, want: nat, hint: nat, useHint: bool, c: nat, d: nat)
    requires Picks(nodes, want, hint, useHint, c) && Picks(nodes, want, hint, useHint, d)
    ensures c >= d
  {
    assert FirstStop(nodes, want, hint, useHint, c) <==> Stops(nodes, want, hint, useHint, c);
    assert FirstStop(nodes, want, hint, useHint, d) <==> Stops(nodes, want, hint, useHint, d);
    if !FirstStop(nodes, want, hint, useHint, d) {
      assert nodes[c].size > want ==> nodes[d].size > want;
    }
  }

  /** A hint is followed: hint 20 takes from the node that starts there, though the first would do. */
  lemma HintFollowed()
    ensures var nodes := [Extent(10, 5), Extent(20, 50)];
            && Allocated(nodes, 3, 20, true) == ([Extent(10, 5), Extent(23, 47)], Granted(20, 3))
            && Allocated(nodes, 3, 20, false) == ([Extent(13, 2), Extent(20, 50)], Granted(10, 3))
  {
    var nodes := [Extent(10, 5), Extent(20, 50)];
    assert Stops(nodes, 3, 20, true, 1) && !Stops(nodes, 3, 20, true, 0);
    AllocatedPicks(nodes, 3, 20, true, 1);
    assert nodes[..1] + [Extent(23, 47)] + nodes[2..] == [Extent(10, 5), Extent(23, 47)];
    assert FirstLarger(nodes, 3, 0);
    AllocatedPicks(nodes, 3, 20, false, 0);
    assert nodes[..0] + [Extent(13, 2)] + nodes[1..] == [Extent(13, 2), Extent(20, 50)];
  }

  /** The search stops at the empty placeholder: the hint names it (or nothing was asked for). */
  ghost predicate StopsAtPlaceholder(nodes: seq<Extent>, want: nat, hint: nat, useHint: bool) {
    exists z :: 0 <= z < |nodes| && nodes[z].size == 0 && ((useHint && hint == nodes[z].start) || want == 0)
                && NoHitBefore(nodes, want, hint, useHint, z)
  }

  /** "Full" is answered exactly when nothing is free, or when the search stops at the empty
      placeholder: then the request is refused although clusters are free. */
  lemma FullIff(nodes: seq<Extent>, want: nat, hint: nat, useHint: bool)
    requires nodes != []
    ensures Allocated(nodes, want, hint, useHint).1.Full?
            <==> (forall i :: 0 <= i < |nodes| ==> nodes[i].size == 0)
                 || StopsAtPlaceholder(nodes, want, hint, useHint)
  {
    var c := Choose(nodes, want, hint, useHint);
    ChooseFromBest(nodes, want, hint, useHint, 0, 0);
    if nodes[c].size == 0 {
      if NoHitBefore(nodes, want, hint, useHint, |nodes|) {
        assert !Hit(nodes[c], want, hint, useHint);
        forall i | 0 <= i < |nodes|
          ensures nodes[i].size == 0
        {
        }
      } else {
        assert Hit(nodes[c], want, hint, useHint);
      }
    } else if StopsAtPlaceholder(nodes, want, hint, useHint) {
      var z :| 0 <= z < |nodes| && nodes[z].size == 0 && ((useHint && hint == nodes[z].start) || want == 0)
               && NoHitBefore(nodes, want, hint, useHint, z);
      assert Hit(nodes[z], want, hint, useHint);
    }
  }

  /** It does happen: hand out everything, return what lies behind it, and ask for more of the file
      that had the first piece. */
  lemma PlaceholderRefuses()
    ensures var one, two := [Extent(10, 0)], [Extent(10, 0), Extent(15, 5)];
            && Allocated([Extent(10, 5)], 5, 0, false) == (one, Granted(10, 5))
            && Returned(one, 15, 5) == two
            && IsFree(two, 15) && Allocated(two, 3, 10, true) == (two, Full)
  {
    assert Holds([Extent(10, 0), Extent(15, 5)][1], 15);
  }

  // ----- what return does -----

  /** The scan came past the first i nodes: all start below a, and none ends at a. */
  predicate Passed(nodes: seq<Extent>, a: nat, i: nat)
    requires i <= |nodes|
  {
    forall k :: 0 <= k < i ==> nodes[k].start < a && nodes[k].start + nodes[k].size != a
  }

  /** Node j ends where the extent starts. */
  predicate EndsAt(e: Extent, a: nat) { e.size > 0 && e.start + e.size == a }

  /** The empty placeholder is in the way: strictly inside the extent, or at its start with a
      node in front that the extent will be joined to. */
  predicate InTheWay(nodes: seq<Extent>, a: nat, n: nat, z: nat)
    requires z < |nodes|
  {
    && nodes[z].size == 0
    && (a < nodes[z].start < a + n
        || (nodes[z].start == a && exists j :: 0 <= j < |nodes| && EndsAt(nodes[j], a)))
  }

  predicate NoneInside(nodes: seq<Extent>, a: nat, n: nat) {
    forall z :: 0 <= z < |nodes| ==> !InTheWay(nodes, a, n, z)
  }

  /** The extent may be returned: it is not free now and, for the strict order, hits no placeholder. */
  ghost predicate Returnable(nodes: seq<Extent>, strict: bool, a: nat, n: nat) {
    n > 0 && Disjoint(nodes, a, n) && (strict ==> NoneInside(nodes, a, n))
  }

  /** Where the extent belongs: above a node that starts below it, below one that starts above. */
  lemma Fits(nodes: seq<Extent>, strict: bool, a: nat, n: nat, k: nat)
    requires Returnable(nodes, strict, a, n) && k < |nodes|
    ensures nodes[k].start < a ==> nodes[k].start + nodes[k].size <= a
    ensures nodes[k].start > a && (strict || nodes[k].size > 0) ==> a + n <= nodes[k].start
  {
    if nodes[k].size > 0 { DisjointNode(nodes, a, n, k); }
    else if strict { assert !InTheWay(nodes, a, n, k); }
  }

  lemma ReplaceInv(nodes: seq<Extent>, strict: bool, i: nat, e: Extent)
    requires Sorted(nodes, strict) && i < |nodes| && e.size > 0
    requires forall k :: 0 <= k < i ==> Ordered(nodes[k], e, strict)
    requires forall k :: i < k < |nodes| ==> Ordered(e, nodes[k], strict)
    ensures Sorted(nodes[i := e], strict)
  {
    var t := nodes[i := e];
    forall p, q | 0 <= p < q < |t|
      ensures Ordered(t[p], t[q], strict) && (t[p].size > 0 || t[q].size > 0)
    {
      assert Ordered(nodes[p], nodes[q], strict) && (nodes[p].size > 0 || nodes[q].size > 0);
    }
  }

  lemma InsertInv(nodes: seq<Extent>, strict: bool, i: nat, e: Extent)
    requires Sorted(nodes, strict) && i <= |nodes| && e.size > 0
    requires forall k :: 0 <= k < i ==> Ordered(nodes[k], e, strict)
    requires forall k :: i <= k < |nodes| ==> Ordered(e, nodes[k], strict)
    ensures Sorted(nodes[..i] + [e] + nodes[i..], strict)
  {
    var t := nodes[..i] + [e] + nodes[i..];
    forall p, q | 0 <= p < q < |t|
      ensures Ordered(t[p], t[q], strict) && (t[p].size > 0 || t[q].size > 0)
    {
      var p', q' := if p > i then p - 1 else p, if q > i then q - 1 else q;
      if p != i && q != i {
        assert Ordered(nodes[p'], nodes[q'], strict) && (nodes[p'].size > 0 || nodes[q'].size > 0);
      }
    }
  }

  lemma DropInv(nodes: seq<Extent>, strict: bool, i: nat)
    requires Sorted(nodes, strict) && i < |nodes| && |nodes| > 1
    ensures Sorted(nodes[..i] + nodes[i + 1..], strict)
  {
    var t := nodes[..i] + nodes[i + 1..];
    forall p, q | 0 <= p < q < |t|
      ensures Ordered(t[p], t[q], strict) && (t[p].size > 0 || t[q].size > 0)
    {
      var p', q' := if p >= i then p + 1 else p, if q >= i then q + 1 else q;
      assert Ordered(nodes[p'], nodes[q'], strict) && (nodes[p'].size > 0 || nodes[q'].size > 0);
    }
  }

  /** The extent is ordered against every node the scan passed, and below every node from the
      first one that does not start below it. */
  lemma Placed(nodes: seq<Extent>, strict: bool, a: nat, n: nat, i: nat)
    requires Sorted(nodes, strict) && Returnable(nodes, strict, a, n) && i <= |nodes| && Passed(nodes, a, i)
    ensures forall k :: 0 <= k < i ==> Ordered(nodes[k], Extent(a, n), strict)
    ensures i < |nodes| && nodes[i].start >= a ==>
              forall k :: i < k < |nodes| ==> Ordered(Extent(a, n), nodes[k], strict)
    ensures i < |nodes| && nodes[i].start > a ==> Ordered(Extent(a, n), nodes[i], strict)
  {
    forall k | 0 <= k < i
      ensures Ordered(nodes[k], Extent(a, n), strict)
    {
      Fits(nodes, strict, a, n, k);
    }
    if i < |nodes| && nodes[i].start >= a {
      forall k | i < k < |nodes|
        ensures Ordered(Extent(a, n), nodes[k], strict)
      {
        assert Ordered(nodes[i], nodes[k], strict);
        Fits(nodes, strict, a, n, k);
        Fits(nodes, strict, a, n, i);
      }
      if nodes[i].start > a { Fits(nodes, strict, a, n, i); }
    }
  }

  lemma {:induction false} ReturnedInv(nodes: seq<Extent>, strict: bool, a: nat, n: nat, i: nat)
    requires Sorted(nodes, strict) && Returnable(nodes, strict, a, n) && i <= |nodes| && Passed(nodes, a, i)
    ensures Sorted(ReturnedFrom(nodes, a, n, i), strict)
    decreases |nodes| - i
  {
    Placed(nodes, strict, a, n, i);
    if i == |nodes| {
      InsertInv(nodes, strict, i, Extent(a, n));
      assert nodes[..i] + [Extent(a, n)] + nodes[i..] == nodes + [Extent(a, n)];
    } else {
      var e := nodes[i];
      if e.start == a {
        if e.size > 0 { DisjointNode(nodes, a, n, i); }
        ReplaceInv(nodes, strict, i, Extent(a, n));
      } else if a < e.start {
        if a + n == e.start {
          forall k | i < k < |nodes|
            ensures Ordered(Extent(a, e.size + n), nodes[k], strict)
          {
            assert Ordered(e, nodes[k], strict);
          }
          ReplaceInv(nodes, strict, i, Extent(a, e.size + n));
        } else {
          InsertInv(nodes, strict, i, Extent(a, n));
        }
      } else if e.start + e.size == a {
        GrownInv(nodes, strict, a, n, i);
      } else {
        ReturnedInv(nodes, strict, a, n, i + 1);
      }
    }
  }

  /** Growing a node at its end ... */
  lemma GrownOrder(nodes: seq<Extent>, strict: bool, a: nat, n: nat, i: nat)
    requires Sorted(nodes, strict) && Returnable(nodes, strict, a, n) && i < |nodes|
    requires nodes[i].start < a == nodes[i].start + nodes[i].size
    ensures Sorted(nodes[i := Extent(nodes[i].start, nodes[i].size + n)], strict)
  {
    var e := nodes[i];
    var grown := Extent(e.start, e.size + n);
    forall k | i < k < |nodes|
      ensures Ordered(grown, nodes[k], strict)
    {
      assert Ordered(e, nodes[k], strict);
      assert EndsAt(e, a);
      Fits(nodes, strict, a, n, k);
      if nodes[k].size > 0 { DisjointNode(nodes, a, n, k); }
      else if strict { assert !InTheWay(nodes, a, n, k); }
    }
    forall k | 0 <= k < i
      ensures Ordered(nodes[k], grown, strict)
    {
      assert Ordered(nodes[k], e, strict);
    }
    ReplaceInv(nodes, strict, i, grown);
  }

  /** ... and swallowing the next one, which it now touches. */
  lemma SwallowOrder(t: seq<Extent>, strict: bool, i: nat)
    requires Sorted(t, strict) && i + 1 < |t| && t[i].size > 0 && t[i].start + t[i].size == t[i + 1].start
    ensures Sorted(t[..i] + [Extent(t[i].start, t[i].size + t[i + 1].size)] + t[i + 2..], strict)
  {
    var both := Extent(t[i].start, t[i].size + t[i + 1].size);
    var u := t[..i + 1] + t[i + 2..];
    DropInv(t, strict, i + 1);
    SwallowAbove(t, strict, i, both);
    assert forall k :: i < k < |u| ==> u[k] == t[k + 1];
    forall k | 0 <= k < i
      ensures Ordered(u[k], both, strict)
    {
      assert u[k] == t[k] && Ordered(t[k], t[i], strict);
    }
    ReplaceInv(u, strict, i, both);
    assert u[i := both] == t[..i] + [both] + t[i + 2..];
  }

  lemma SwallowAbove(t: seq<Extent>, strict: bool, i: nat, both: Extent)
    requires Sorted(t, strict) && i + 1 < |t| && t[i].size > 0 && t[i].start + t[i].size == t[i + 1].start
    requires both == Extent(t[i].start, t[i].size + t[i + 1].size)
    ensures forall k :: i + 1 < k < |t| ==> Ordered(both, t[k], strict)
  {
    forall k | i + 1 < k < |t|
      ensures Ordered(both, t[k], strict)
    {
      assert Ordered(t[i + 1], t[k], strict) && Ordered(t[i], t[k], strict);
    }
  }

  lemma GrownInv(nodes: seq<Extent>, strict: bool, a: nat, n: nat, i: nat)
    requires Sorted(nodes, strict) && Returnable(nodes, strict, a, n) && i < |nodes|
    requires nodes[i].start < a == nodes[i].start + nodes[i].size
    ensures Sorted(ReturnedFrom(nodes, a, n, i), strict)
  {
    var t := nodes[i := Extent(nodes[i].start, nodes[i].size + n)];
    GrownOrder(nodes, strict, a, n, i);
    if i + 1 < |nodes| && a + n == nodes[i + 1].start {
      SwallowOrder(t, strict, i);
      Swallowed(nodes, t, a, n, i);
    }
  }

  lemma Swallowed(nodes: seq<Extent>, t: seq<Extent>, a: nat, n: nat, i: nat)
    requires i + 1 < |nodes| && nodes[i].start < a == nodes[i].start + nodes[i].size && a + n == nodes[i + 1].start
    requires t == nodes[i := Extent(nodes[i].start, nodes[i].size + n)]
    ensures ReturnedFrom(nodes, a, n, i)
            == t[..i] + [Extent(t[i].start, t[i].size + t[i + 1].size)] + t[i + 2..]
  {
    assert t[..i] == nodes[..i] && t[i + 2..] == nodes[i + 2..];
  }

  /** The last node never comes to touch the first one round the ring. */
  lemma NoMergeRoundRing(nodes: seq<Extent>, n: nat)
    requires Inv(nodes) && nodes[|nodes| - 1].size > 0 && n > 0
    ensures nodes[|nodes| - 1].start + nodes[|nodes| - 1].size + n != nodes[0].start
  {
    if |nodes| > 1 { assert Ordered(nodes[0], nodes[|nodes| - 1], false); }
  }

  // ----- the list after a return, without the scan -----

  lemma {:induction false} ReturnedSkips(nodes: seq<Extent>, a: nat, n: nat, i: nat, k: nat)
    requires i <= k <= |nodes| && Passed(nodes, a, k)
    ensures ReturnedFrom(nodes, a, n, i) == ReturnedFrom(nodes, a, n, k)
    decreases k - i
  {
    if i < k { ReturnedSkips(nodes, a, n, i + 1, k); }
  }

  /** Node i is the first that does not lie wholly below the extent, or that ends where it starts. */
  predicate ComesTo(nodes: seq<Extent>, a: nat, i: nat) {
    && i <= |nodes|
    && (forall k :: 0 <= k < i ==> nodes[k].start < a && nodes[k].start + nodes[k].size != a)
    && (i < |nodes| ==> nodes[i].start >= a || nodes[i].start + nodes[i].size == a)
  }

  /** The list after any return, node by node: the extent is put behind the last node, held by a node with
      the same start, put before or joined to the node above it, or joined to the node below it, and then
      to the one above that too if they touch. */
  lemma ReturnedPlace(nodes: seq<Extent>, a: nat, n: nat, i: nat)
    requires n > 0 && ComesTo(nodes, a, i)
    ensures var t := Returned(nodes, a, n);
            if i == |nodes| then t == nodes + [Extent(a, n)]
            else
              var e, below := nodes[i], nodes[..i];
              if e.start == a then
                t == below + [Extent(a, if n <= e.size then e.size else n)] + nodes[i + 1..]
              else if e.start > a then
                t == if a + n == e.start then below + [Extent(a, n + e.size)] + nodes[i + 1..]
                     else below + [Extent(a, n), e] + nodes[i + 1..]
              else if i + 1 < |nodes| && nodes[i + 1].start == a + n then
                t == below + [Extent(e.start, e.size + n + nodes[i + 1].size)] + nodes[i + 2..]
              else t == below + [Extent(e.start, e.size + n)] + nodes[i + 1..]
  {
    ReturnedSkips(nodes, a, n, 0, i);
  }

  // ----- the free clusters after a return -----

  lemma FreeReplace(nodes: seq<Extent>, i: nat, e: Extent, x: int)
    requires i < |nodes|
    ensures IsFree(nodes[i := e], x)
            <==> Holds(e, x) || exists k :: 0 <= k < |nodes| && k != i && Holds(nodes[k], x)
  {
    var t := nodes[i := e];
    if Holds(e, x) { assert Holds(t[i], x); }
    if k :| 0 <= k < |nodes| && k != i && Holds(nodes[k], x) { assert Holds(t[k], x); }
    if IsFree(t, x) {
      var k :| 0 <= k < |t| && Holds(t[k], x);
      if k != i { assert Holds(nodes[k], x); }
    }
  }

  lemma FreeInsert(nodes: seq<Extent>, i: nat, e: Extent, x: int)
    requires i <= |nodes|
    ensures IsFree(nodes[..i] + [e] + nodes[i..], x) <==> IsFree(nodes, x) || Holds(e, x)
  {
    var t := nodes[..i] + [e] + nodes[i..];
    if IsFree(nodes, x) {
      var k :| 0 <= k < |nodes| && Holds(nodes[k], x);
      assert t[if k < i then k else k + 1] == nodes[k];
    }
    if Holds(e, x) { assert t[i] == e; }
    if IsFree(t, x) {
      var k :| 0 <= k < |t| && Holds(t[k], x);
      if k != i { assert t[k] == nodes[if k < i then k else k - 1]; }
    }
  }

  lemma FreeMerge(nodes: seq<Extent>, i: nat, e: Extent, x: int)
    requires i + 1 < |nodes|
    ensures IsFree(nodes[..i] + [e] + nodes[i + 2..], x)
            <==> Holds(e, x) || exists k :: 0 <= k < |nodes| && k != i && k != i + 1 && Holds(nodes[k], x)
  {
    var t := nodes[..i] + [e] + nodes[i + 2..];
    if Holds(e, x) { assert t[i] == e; }
    if k :| 0 <= k < |nodes| && k != i && k != i + 1 && Holds(nodes[k], x) {
      assert t[if k < i then k else k - 1] == nodes[k];
    }
    if IsFree(t, x) {
      var k :| 0 <= k < |t| && Holds(t[k], x);
      if k != i { assert Holds(nodes[if k < i then k else k + 1], x); }
    }
  }

  /** Returning a disjoint extent adds exactly that extent. */
  lemma {:induction false} ReturnedExact(nodes: seq<Extent>, a: nat, n: nat, i: nat, x: int)
    requires Inv(nodes) && Disjoint(nodes, a, n) && n > 0 && i <= |nodes|
    ensures IsFree(ReturnedFrom(nodes, a, n, i), x) <==> IsFree(nodes, x) || a <= x < a + n
    decreases |nodes| - i
  {
    var t := ReturnedFrom(nodes, a, n, i);
    if i == |nodes| {
      FreeInsert(nodes, i, Extent(a, n), x);
      assert nodes[..i] + [Extent(a, n)] + nodes[i..] == t;
    } else {
      var e := nodes[i];
      if e.start == a {
        if e.size > 0 { DisjointNode(nodes, a, n, i); }
        FreeReplace(nodes, i, Extent(a, n), x);
      } else if a < e.start {
        if a + n == e.start {
          FreeReplace(nodes, i, Extent(a, e.size + n), x);
        } else {
          FreeInsert(nodes, i, Extent(a, n), x);
        }
      } else if e.start + e.size == a {
        if i + 1 < |nodes| && a + n == nodes[i + 1].start {
          FreeMerge(nodes, i, Extent(e.start, e.size + n + nodes[i + 1].size), x);
        } else {
          FreeReplace(nodes, i, Extent(e.start, e.size + n), x);
        }
      } else {
        ReturnedExact(nodes, a, n, i + 1, x);
      }
    }
  }

  // ----- the strict order -----

  predicate Covers(e: Extent, a: nat, n: nat) { e.start <= a && a + n <= e.start + e.size }

  /** Some node covers the extent, and e is in the list too. */
  predicate Crossed(t: seq<Extent>, a: nat, n: nat, e: Extent) {
    e in t && exists k :: 0 <= k < |t| && Covers(t[k], a, n)
  }

  /** Some node covers the returned extent, and a placeholder in its way stays where it was. */
  lemma {:induction false} ReturnedCovers(nodes: seq<Extent>, a: nat, n: nat, i: nat, z: nat, j: nat)
    requires Inv(nodes) && Disjoint(nodes, a, n) && n > 0 && i <= |nodes| && z < |nodes|
    requires nodes[z].size == 0
    requires a < nodes[z].start < a + n || (nodes[z].start == a && i <= j < z && EndsAt(nodes[j], a))
    ensures Crossed(ReturnedFrom(nodes, a, n, i), a, n, nodes[z])
    decreases |nodes| - i
  {
    if i < |nodes| && nodes[i].start < a && nodes[i].start + nodes[i].size != a {
      if nodes[z].start == a && j > i { assert Ordered(nodes[i], nodes[j], false); }
      ReturnedCovers(nodes, a, n, i + 1, z, j);
    } else {
      StoppedCovers(nodes, a, n, i, z, j);
    }
  }

  lemma StoppedCovers(nodes: seq<Extent>, a: nat, n: nat, i: nat, z: nat, j: nat)
    requires Inv(nodes) && Disjoint(nodes, a, n) && n > 0 && i <= |nodes| && z < |nodes|
    requires nodes[z].size == 0
    requires a < nodes[z].start < a + n || (nodes[z].start == a && i <= j < z && EndsAt(nodes[j], a))
    requires i < |nodes| ==> nodes[i].start >= a || nodes[i].start + nodes[i].size == a
    ensures Crossed(ReturnedFrom(nodes, a, n, i), a, n, nodes[z])
  {
    var t := ReturnedFrom(nodes, a, n, i);
    if i == |nodes| {
      CoversAt(t, i, z, a, n, nodes[z]);
    } else {
      var e := nodes[i];
      if nodes[z].start == a && j > i { assert Ordered(nodes[i], nodes[j], false); }
      if e.start == a {
        CoversAt(t, i, z, a, n, nodes[z]);
      } else if a < e.start {
        CoversAt(t, i, if a + n == e.start || z < i then z else z + 1, a, n, nodes[z]);
      } else {
        CoversAt(t, i, if |t| == |nodes| || z < i then z else z - 1, a, n, nodes[z]);
      }
    }
  }

  lemma CoversAt(t: seq<Extent>, k: nat, m: nat, a: nat, n: nat, e: Extent)
    requires k < |t| && m < |t| && Covers(t[k], a, n) && t[m] == e
    ensures Crossed(t, a, n, e)
  {
  }

  /** A return keeps the list in strict order exactly when no empty placeholder is in its way. */
  lemma StrictIff(nodes: seq<Extent>, a: nat, n: nat)
    requires Sorted(nodes, true) && Disjoint(nodes, a, n) && n > 0
    ensures Sorted(Returned(nodes, a, n), true) <==> NoneInside(nodes, a, n)
  {
    StrictIsSorted(nodes);
    if NoneInside(nodes, a, n) {
      ReturnedInv(nodes, true, a, n, 0);
    } else {
      var z :| 0 <= z < |nodes| && InTheWay(nodes, a, n, z);
      NotStrict(nodes, a, n, z);
    }
  }

  lemma NotStrict(nodes: seq<Extent>, a: nat, n: nat, z: nat)
    requires Sorted(nodes, true) && Inv(nodes) && Disjoint(nodes, a, n) && n > 0
    requires z < |nodes| && InTheWay(nodes, a, n, z)
    ensures !Sorted(ReturnedFrom(nodes, a, n, 0), true)
  {
    var j: nat := 0;
    if nodes[z].start == a {
      j :| 0 <= j < |nodes| && EndsAt(nodes[j], a);
      if z < j { assert Ordered(nodes[z], nodes[j], true); }
    }
    ReturnedCovers(nodes, a, n, 0, z, j);
    Crossing(ReturnedFrom(nodes, a, n, 0), a, n, nodes[z]);
  }

  /** A placeholder inside a covered extent cannot be in order with the node that covers it. */
  lemma Crossing(t: seq<Extent>, a: nat, n: nat, e: Extent)
    requires Crossed(t, a, n, e) && e.size == 0 && a <= e.start < a + n
    ensures !Sorted(t, true)
  {
    var k :| 0 <= k < |t| && Covers(t[k], a, n);
    var m :| 0 <= m < |t| && t[m] == e;
    if k < m { assert !Ordered(t[k], t[m], true); } else { assert !Ordered(t[m], t[k], true); }
  }

  lemma StrictIsSorted(nodes: seq<Extent>)
    requires Sorted(nodes, true)
    ensures Inv(nodes)
  {
    forall i, j | 0 <= i < j < |nodes|
      ensures Ordered(nodes[i], nodes[j], false)
    {
      assert Ordered(nodes[i], nodes[j], true);
    }
  }

  /** It does happen: hand out everything, then return a larger piece around the placeholder. */
  lemma PlaceholderOutOfPlace()
    ensures var nodes := [Extent(10, 5)];
            && Sorted(nodes, true)
            && Allocated(nodes, 5, 0, false) == ([Extent(10, 0)], Granted(10, 5))
            && Returned([Extent(10, 0)], 8, 7) == [Extent(8, 7), Extent(10, 0)]
            && !Sorted([Extent(8, 7), Extent(10, 0)], true)
  {
    var t := [Extent(8, 7), Extent(10, 0)];
    assert !Ordered(t[0], t[1], true);
  }

  // ----- runs -----

  datatype Op = Alloc(want: nat, hint: nat, useHint: bool) | Return(a: nat, n: nat)

  function Apply(nodes: seq<Extent>, op: Op): seq<Extent>
    requires nodes != []
  {
    match op
    case Alloc(want, hint, useHint) => Allocated(nodes, want, hint, useHint).0
    case Return(a, n) => Returned(nodes, a, n)
  }

  /** Only extents that are not free come back. */
  ghost predicate Legal(nodes: seq<Extent>, op: Op) {
    op.Return? ==> Disjoint(nodes, op.a, op.n)
  }

  /** The operation hands out or takes back this cluster. */
  function Touch(nodes: seq<Extent>, op: Op, x: int, free: bool): bool
    requires nodes != []
  {
    match op
    case Alloc(want, hint, useHint) =>
      var g := Allocated(nodes, want, hint, useHint).1;
      free && !(g.Granted? && g.start <= x < g.start + g.got)
    case Return(a, n) => free || a <= x < a + n
  }

  lemma ApplyFacts(nodes: seq<Extent>, op: Op, x: int)
    requires Inv(nodes) && Legal(nodes, op)
    ensures Inv(Apply(nodes, op))
    ensures IsFree(Apply(nodes, op), x) <==> Touch(nodes, op, x, IsFree(nodes, x))
  {
    match op
    case Alloc(want, hint, useHint) => AllocateExact(nodes, want, hint, useHint);
    case Return(a, n) =>
      if n > 0 {
        ReturnedInv(nodes, false, a, n, 0);
        ReturnedExact(nodes, a, n, 0, x);
      }
  }

  /** Whatever was granted may be returned, and then exactly the same clusters are free as before. */
  lemma GrantComesBack(nodes: seq<Extent>, want: nat, hint: nat, useHint: bool)
    requires Inv(nodes) && want > 0 && Allocated(nodes, want, hint, useHint).1.Granted?
    ensures var (nodes', g) := Allocated(nodes, want, hint, useHint);
            && g.got > 0 && Legal(nodes', Return(g.start, g.got))
            && Inv(Returned(nodes', g.start, g.got))
            && forall x :: IsFree(Returned(nodes', g.start, g.got), x) <==> IsFree(nodes, x)
  {
    AllocateExact(nodes, want, hint, useHint);
    var (nodes', g) := Allocated(nodes, want, hint, useHint);
    forall x
      ensures IsFree(Returned(nodes', g.start, g.got), x) <==> IsFree(nodes, x)
    {
      ApplyFacts(nodes', Return(g.start, g.got), x);
    }
    ApplyFacts(nodes', Return(g.start, g.got), 0);
  }

  /** A run of allocations and returns, each legal when it happens. */
  ghost predicate LegalRun(nodes: seq<Extent>, ops: seq<Op>)
    requires Inv(nodes)
    decreases |ops|
  {
    ops == [] || (Legal(nodes, ops[0]) && (ApplyFacts(nodes, ops[0], 0); LegalRun(Apply(nodes, ops[0]), ops[1..])))
  }

  ghost function Run(nodes: seq<Extent>, ops: seq<Op>): seq<Extent>
    requires Inv(nodes) && LegalRun(nodes, ops)
    decreases |ops|
  {
    if ops == [] then nodes
    else (ApplyFacts(nodes, ops[0], 0); Run(Apply(nodes, ops[0]), ops[1..]))
  }

  /** What becomes of one cluster: handed out, taken back, or left alone, operation by operation. */
  ghost function Fate(nodes: seq<Extent>, ops: seq<Op>, x: int, free: bool): bool
    requires Inv(nodes) && LegalRun(nodes, ops)
    decreases |ops|
  {
    if ops == [] then free
    else (ApplyFacts(nodes, ops[0], 0);
          Fate(Apply(nodes, ops[0]), ops[1..], x, Touch(nodes, ops[0], x, free)))
  }

  /** Such a run: any allocation, and the return of what it granted. */
  lemma GrantRun(nodes: seq<Extent>, want: nat, hint: nat, useHint: bool)
    requires Inv(nodes) && want > 0 && Allocated(nodes, want, hint, useHint).1.Granted?
    ensures var g := Allocated(nodes, want, hint, useHint).1;
            LegalRun(nodes, [Alloc(want, hint, useHint), Return(g.start, g.got)])
  {
    GrantComesBack(nodes, want, hint, useHint);
    var (nodes', g) := Allocated(nodes, want, hint, useHint);
    var ops := [Alloc(want, hint, useHint), Return(g.start, g.got)];
    ApplyFacts(nodes, ops[0], 0);
    ApplyFacts(nodes', ops[1], 0);
    assert ops[1..] == [Return(g.start, g.got)] && ops[1..][1..] == [];
    assert LegalRun(nodes', ops[1..]);
  }

  /** Every run keeps the list sorted and disjoint, and at its end a cluster is free exactly when
      the operations on it say so: nothing leaks and nothing is free twice. */
  lemma {:induction false} RunFacts(nodes: seq<Extent>, ops: seq<Op>, x: int)
    requires Inv(nodes) && LegalRun(nodes, ops)
    ensures Inv(Run(nodes, ops))
    ensures IsFree(Run(nodes, ops), x) <==> Fate(nodes, ops, x, IsFree(nodes, x))
    decreases |ops|
  {
    if ops != [] {
      ApplyFacts(nodes, ops[0], x);
      RunFacts(Apply(nodes, ops[0]), ops[1..], x);
    }
  }
}
