/** The links of the RBF sector cache, field by field: every bucket's chain and the use list are
    circular and doubly linked, each with a header; the free list is linked through one of the
    fields of the use list.  Pointers are addresses, a field is a map from them. */
module CacheLinks {
  type Pointer = int

  type Links = map<Pointer, Pointer>

  const NULL := 0
  const BUCKETS := 256
  const USE := -1 - BUCKETS

  /** The header of a bucket's chain; nodes have positive addresses. */
  function Header(b: nat): Pointer { -1 - b }

  predicate Nodes(s: seq<Pointer>) {
    forall i :: 0 <= i < |s| ==> s[i] > 0
  }

  predicate Distinct(s: seq<Pointer>) {
    forall i, j :: 0 <= i < j < |s| ==> s[i] != s[j]
  }

  function Next(i: nat, n: nat): nat { if i + 1 < n then i + 1 else 0 }

  /** Element i and the one behind it point at each other. */
  predicate Joined(next: Links, prev: Links, ids: seq<Pointer>, i: nat)
    requires i < |ids|
  {
    var p, q := ids[i], ids[Next(i, |ids|)];
    p in next && q in prev && next[p] == q && prev[q] == p
  }

  predicate Ring(next: Links, prev: Links, ids: seq<Pointer>) {
    ids != [] && Distinct(ids) && forall i :: 0 <= i < |ids| ==> Joined(next, prev, ids, i)
  }

  // ----- taking an element out of a ring -----

  function Without<T>(s: seq<T>, k: nat): (r: seq<T>)
    requires k < |s|
    ensures |r| == |s| - 1
  {
    s[..k] + s[k + 1..]
  }

  /** Index i of the shorter ring stands for this index of the longer one. */
  function Old(i: nat, c: nat): nat { if i < c then i else i + 1 }

  lemma RingLinks(next: Links, prev: Links, ids: seq<Pointer>, c: nat)
    requires Ring(next, prev, ids) && 0 < c < |ids|
    ensures ids[c] in next && ids[c] in prev
    ensures next[ids[c]] == ids[Next(c, |ids|)] && prev[ids[c]] == ids[c - 1]
  {
    assert Joined(next, prev, ids, c) && Joined(next, prev, ids, c - 1);
  }

  lemma UnlinkedAt(next: Links, prev: Links, ids: seq<Pointer>, c: nat, i: nat)
    requires Ring(next, prev, ids) && 0 < c < |ids| && i < |ids| - 1
    ensures var p, q := ids[c - 1], ids[Next(c, |ids|)];
            Joined(next[p := q], prev[q := p], Without(ids, c), i)
  {
    var rest, n := Without(ids, c), |ids|;
    assert Joined(next, prev, ids, Old(i, c));
    assert rest[i] == ids[Old(i, c)] && rest[Next(i, n - 1)] == ids[Old(Next(i, n - 1), c)];
  }

  /** The neighbours of element c point past it. */
  lemma UnlinkRing(next: Links, prev: Links, ids: seq<Pointer>, c: nat)
    requires Ring(next, prev, ids) && 0 < c < |ids|
    ensures var p, q := ids[c - 1], ids[Next(c, |ids|)];
            Ring(next[p := q], prev[q := p], Without(ids, c))
  {
    var p, q, rest := ids[c - 1], ids[Next(c, |ids|)], Without(ids, c);
    var next', prev' := next[p := q], prev[q := p];
    forall i | 0 <= i < |rest|
      ensures Joined(next', prev', rest, i)
    {
      UnlinkedAt(next, prev, ids, c, i);
    }
  }

  /** Links of others do not matter. */
  lemma SameRing(next: Links, prev: Links, next': Links, prev': Links, ids: seq<Pointer>)
    requires Ring(next, prev, ids)
    requires forall i :: 0 <= i < |ids| && ids[i] in next ==> ids[i] in next' && next'[ids[i]] == next[ids[i]]
    requires forall i :: 0 <= i < |ids| && ids[i] in prev ==> ids[i] in prev' && prev'[ids[i]] == prev[ids[i]]
    ensures Ring(next', prev', ids)
  {
    forall i | 0 <= i < |ids|
      ensures Joined(next', prev', ids, i)
    {
      assert Joined(next, prev, ids, i);
    }
  }

  // ----- a list with a header -----

  /** These nodes, behind the header. */
  predicate ListLinked(next: Links, prev: Links, head: Pointer, s: seq<Pointer>) {
    head < 0 && Nodes(s) && Ring(next, prev, [head] + s)
  }

  lemma ListDistinct(next: Links, prev: Links, head: Pointer, s: seq<Pointer>)
    requires ListLinked(next, prev, head, s)
    ensures Distinct(s)
  {
    var ids := [head] + s;
    assert forall i :: 0 <= i < |s| ==> s[i] == ids[i + 1];
  }

  /** A node taken out by the links of its neighbours, which are the only ones that change. */
  lemma ListTaken(next: Links, prev: Links, head: Pointer, s: seq<Pointer>, k: nat)
    returns (next': Links, prev': Links)
    requires ListLinked(next, prev, head, s) && k < |s|
    ensures s[k] in next && s[k] in prev
    ensures next' == next[prev[s[k]] := next[s[k]]] && prev' == prev[next[s[k]] := prev[s[k]]]
    ensures ListLinked(next', prev', head, Without(s, k)) && next'[s[k]] == next[s[k]]
    ensures prev[s[k]] == head || prev[s[k]] in s
    ensures next[s[k]] == head || next[s[k]] in s
  {
    var ids := [head] + s;
    assert ids[k + 1] == s[k];
    RingLinks(next, prev, ids, k + 1);
    UnlinkRing(next, prev, ids, k + 1);
    next', prev' := next[prev[s[k]] := next[s[k]]], prev[next[s[k]] := prev[s[k]]];
    assert [head] + Without(s, k) == Without(ids, k + 1);
  }

  /** A node put in right behind the header. */
  lemma ListFront(next: Links, prev: Links, head: Pointer, s: seq<Pointer>, x: Pointer)
    returns (next': Links, prev': Links)
    requires ListLinked(next, prev, head, s) && x > 0 && x !in s
    ensures head in next && next' == next[x := next[head]][head := x] && prev' == prev[next[head] := x][x := head]
    ensures next[head] == head || next[head] in s
    ensures next[head] in prev && prev[next[head]] == head
    ensures ListLinked(next', prev', head, [x] + s)
  {
    var ids, more := [head] + s, [head] + ([x] + s);
    assert Joined(next, prev, ids, 0);
    next', prev' := next[x := next[head]][head := x], prev[next[head] := x][x := head];
    forall i | 0 <= i < |more|
      ensures Joined(next', prev', more, i)
    {
      FrontAt(next, prev, head, s, x, i);
    }
    DistinctFront(head, s, x);
  }

  lemma DistinctFront(head: Pointer, s: seq<Pointer>, x: Pointer)
    requires Distinct([head] + s) && x != head && x !in s
    ensures Distinct([head] + ([x] + s))
  {
    var ids, more := [head] + s, [head] + ([x] + s);
    forall i, j | 0 <= i < j < |more|
      ensures more[i] != more[j]
    {
      if j > 1 { assert more[j] == s[j - 2] == ids[j - 1]; }
      if i > 1 { assert more[i] == ids[i - 1]; } else { assert ids[0] == head; }
    }
  }

  lemma FrontAt(next: Links, prev: Links, head: Pointer, s: seq<Pointer>, x: Pointer, i: nat)
    requires ListLinked(next, prev, head, s) && x > 0 && x !in s && i < |s| + 2
    ensures head in next
    ensures Joined(next[x := next[head]][head := x], prev[next[head] := x][x := head], [head] + ([x] + s), i)
  {
    var ids, more := [head] + s, [head] + ([x] + s);
    assert Joined(next, prev, ids, 0);
    if i > 1 {
      assert Joined(next, prev, ids, i - 1);
      assert more[i] == ids[i - 1] && more[Next(i, |more|)] == ids[Next(i - 1, |ids|)];
    }
  }

  /** Links of nodes elsewhere do not matter. */
  lemma SameLinked(next: Links, prev: Links, next': Links, prev': Links, head: Pointer, s: seq<Pointer>)
    requires ListLinked(next, prev, head, s)
    requires forall p :: (p == head || p in s) && p in next ==> p in next' && next'[p] == next[p]
    requires forall p :: (p == head || p in s) && p in prev ==> p in prev' && prev'[p] == prev[p]
    ensures ListLinked(next', prev', head, s)
  {
    SameRing(next, prev, next', prev', [head] + s);
  }

  // ----- the chains -----

  /** No node is in two chains. */
  predicate Apart(chains: seq<seq<Pointer>>) {
    forall b, c, i, j :: 0 <= b < c < |chains| && 0 <= i < |chains[b]| && 0 <= j < |chains[c]| ==>
      chains[b][i] != chains[c][j]
  }

  predicate ChainsLinked(next: Links, prev: Links, chains: seq<seq<Pointer>>) {
    && |chains| == BUCKETS && Apart(chains)
    && forall b :: 0 <= b < BUCKETS ==> ListLinked(next, prev, Header(b), chains[b])
  }

  /** The pointer in place k of a chain: a node, or the header behind the last one. */
  function PlaceIn(b: nat, chain: seq<Pointer>, k: nat): Pointer {
    if k < |chain| then chain[k] else Header(b)
  }

  lemma ChainStep(next: Links, prev: Links, chains: seq<seq<Pointer>>, b: nat, k: nat)
    requires ChainsLinked(next, prev, chains) && b < BUCKETS && k < |chains[b]|
    ensures var x := chains[b][k];
            x in next && x in prev && next[x] == PlaceIn(b, chains[b], k + 1)
  {
    RingLinks(next, prev, [Header(b)] + chains[b], k + 1);
  }

  lemma ChainStart(next: Links, prev: Links, chains: seq<seq<Pointer>>, b: nat)
    requires ChainsLinked(next, prev, chains) && b < BUCKETS
    ensures Header(b) in next && next[Header(b)] == PlaceIn(b, chains[b], 0)
    ensures next[Header(b)] in prev && prev[next[Header(b)]] == Header(b)
  {
    assert Joined(next, prev, [Header(b)] + chains[b], 0);
  }

  /** A node taken out of its chain leaves the other chains as they were. */
  lemma ChainTaken(next: Links, prev: Links, chains: seq<seq<Pointer>>, b: nat, k: nat)
    returns (next': Links, prev': Links)
    requires ChainsLinked(next, prev, chains) && b < BUCKETS && k < |chains[b]|
    ensures var x := chains[b][k];
            && x in next && x in prev && next' == next[prev[x] := next[x]] && prev' == prev[next[x] := prev[x]]
            && next'[x] == next[x]
    ensures ChainsLinked(next', prev', chains[b := Without(chains[b], k)])
  {
    var x := chains[b][k];
    next', prev' := ListTaken(next, prev, Header(b), chains[b], k);
    forall c | 0 <= c < BUCKETS && c != b
      ensures ListLinked(next', prev', Header(c), chains[c])
    {
      OtherChain(chains, b, c, prev[x]);
      OtherChain(chains, b, c, next[x]);
      SameLinked(next, prev, next', prev', Header(c), chains[c]);
    }
    ApartWithout(chains, b, k);
  }

  /** A node put in at the front of a chain. */
  lemma ChainFront(next: Links, prev: Links, chains: seq<seq<Pointer>>, b: nat, x: Pointer)
    returns (next': Links, prev': Links)
    requires ChainsLinked(next, prev, chains) && b < BUCKETS && x > 0
    requires forall c :: 0 <= c < BUCKETS ==> x !in chains[c]
    ensures var h := Header(b);
            h in next && next' == next[x := next[h]][h := x] && prev' == prev[next[h] := x][x := h]
    ensures ChainsLinked(next', prev', chains[b := [x] + chains[b]])
  {
    next', prev' := ListFront(next, prev, Header(b), chains[b], x);
    forall c | 0 <= c < BUCKETS && c != b
      ensures ListLinked(next', prev', Header(c), chains[c])
    {
      OtherChain(chains, b, c, Header(b));
      OtherChain(chains, b, c, next[Header(b)]);
      SameLinked(next, prev, next', prev', Header(c), chains[c]);
    }
  }

  lemma OtherChain(chains: seq<seq<Pointer>>, b: nat, c: nat, p: Pointer)
    requires Apart(chains) && b < |chains| && c < |chains| && b != c && Nodes(chains[b]) && Nodes(chains[c])
    requires p == Header(b) || p in chains[b]
    ensures p != Header(c) && p !in chains[c]
  {
  }

  lemma ApartWithout(chains: seq<seq<Pointer>>, b: nat, k: nat)
    requires Apart(chains) && b < |chains| && k < |chains[b]|
    ensures Apart(chains[b := Without(chains[b], k)])
  {
    var rest := Without(chains[b], k);
    assert forall i :: 0 <= i < |rest| ==> rest[i] == chains[b][Old(i, k)];
  }

  // ----- the use list and the free list -----

  function RemoveId(s: seq<Pointer>, id: Pointer): seq<Pointer> {
    if s == [] then []
    else if s[0] == id then RemoveId(s[1..], id)
    else [s[0]] + RemoveId(s[1..], id)
  }

  lemma {:induction false} RemoveIdIff(s: seq<Pointer>, id: Pointer, x: Pointer)
    ensures x in RemoveId(s, id) <==> x in s && x != id
  {
    if s != [] { RemoveIdIff(s[1..], id, x); }
  }

  lemma {:induction false} RemoveNone(s: seq<Pointer>, id: Pointer)
    requires id !in s
    ensures RemoveId(s, id) == s
  {
    if s != [] { RemoveNone(s[1..], id); }
  }

  lemma {:induction false} RemoveOne(s: seq<Pointer>, m: nat)
    requires Distinct(s) && m < |s|
    ensures RemoveId(s, s[m]) == Without(s, m)
  {
    if m == 0 {
      RemoveNone(s[1..], s[0]);
    } else {
      RemoveOne(s[1..], m - 1);
      assert Without(s, m) == [s[0]] + Without(s[1..], m - 1);
    }
  }

  lemma UseTaken(after: Links, before: Links, use: seq<Pointer>, x: Pointer)
    returns (after': Links, before': Links)
    requires ListLinked(after, before, USE, use) && x in use
    ensures x in after && x in before
    ensures after' == after[before[x] := after[x]] && before' == before[after[x] := before[x]]
    ensures (before[x] == USE || before[x] in use) && after'[x] == after[x]
    ensures ListLinked(after', before', USE, RemoveId(use, x))
  {
    var m :| 0 <= m < |use| && use[m] == x;
    after', before' := ListTaken(after, before, USE, use, m);
    ListDistinct(after, before, USE, use);
    RemoveOne(use, m);
  }

  /** From p on the free list holds these nodes. */
  predicate Listed(after: Links, p: Pointer, s: seq<Pointer>)
    decreases |s|
  {
    if s == [] then p == NULL else p == s[0] && p in after && Listed(after, after[p], s[1..])
  }

  lemma {:induction false} SameList(after: Links, after': Links, p: Pointer, s: seq<Pointer>)
    requires Listed(after, p, s)
    requires forall i :: 0 <= i < |s| && s[i] in after ==> s[i] in after' && after'[s[i]] == after[s[i]]
    ensures Listed(after', p, s)
    decreases |s|
  {
    if s != [] {
      assert s[0] in after;
      forall i | 0 <= i < |s[1..]| && s[1..][i] in after
        ensures s[1..][i] in after' && after'[s[1..][i]] == after[s[1..][i]]
      {
        assert s[1..][i] == s[i + 1];
      }
      SameList(after, after', after[p], s[1..]);
    }
  }

  // ----- the whole cache -----

  /** Every cached node is in use, and no free one is. */
  ghost predicate Placed(chains: seq<seq<Pointer>>, use: seq<Pointer>, freed: seq<Pointer>) {
    && (forall b, k :: 0 <= b < |chains| && 0 <= k < |chains[b]| ==> chains[b][k] in use)
    && (forall i :: 0 <= i < |freed| ==> freed[i] > 0 && freed[i] !in use)
    && Distinct(freed)
  }

  lemma PlacedTaken(chains: seq<seq<Pointer>>, use: seq<Pointer>, freed: seq<Pointer>, b: nat, k: nat)
    requires Placed(chains, use, freed) && Apart(chains) && b < |chains| && k < |chains[b]| && Distinct(chains[b])
    ensures var x := chains[b][k];
            && Placed(chains[b := Without(chains[b], k)], RemoveId(use, x), freed)
            && x !in RemoveId(use, x) && x !in freed
  {
    var x, rest := chains[b][k], Without(chains[b], k);
    assert forall i :: 0 <= i < |rest| ==> rest[i] == chains[b][Old(i, k)];
    forall p
      ensures p in RemoveId(use, x) <==> p in use && p != x
    {
      RemoveIdIff(use, x, p);
    }
  }
}
