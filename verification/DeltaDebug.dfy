/** fcddmin.py: delta debugging over a memoised oracle. */
module DeltaDebug {

  function ToSet(s: seq<int>): set<int> { set x | x in s }

  predicate Distinct(s: seq<int>) {
    forall i, j :: 0 <= i < j < |s| ==> s[i] != s[j]
  }

  /** [x for x in items if x not in c] */
  function Without(items: seq<int>, c: seq<int>): (r: seq<int>)
    ensures ToSet(r) == ToSet(items) - ToSet(c)
    ensures |r| <= |items|
  {
    if items == [] then []
    else
      var rest := Without(items[1..], c);
      assert ToSet(items) == {items[0]} + ToSet(items[1..]);
      assert ToSet([items[0]] + rest) == {items[0]} + ToSet(rest);
      if items[0] in c then rest else [items[0]] + rest
  }

  lemma {:induction false} WithoutDistinct(items: seq<int>, c: seq<int>)
    requires Distinct(items)
    ensures Distinct(Without(items, c))
  {
    if items != [] {
      WithoutDistinct(items[1..], c);
      var rest := Without(items[1..], c);
      forall j | 0 <= j < |rest|
        ensures rest[j] in items[1..]
      {
        assert rest[j] in ToSet(rest);
      }
    }
  }

  /** Removing one of the items makes the list shorter. */
  lemma {:induction false} WithoutShorter(items: seq<int>, c: seq<int>, x: int)
    requires x in items && x in c
    ensures |Without(items, c)| < |items|
  {
    if items[0] != x { WithoutShorter(items[1..], c, x); }
  }

  /** What is left of the items without one chunk. */
  lemma Complement(items: seq<int>, i: nat, end: nat)
    requires Distinct(items) && i < end <= |items|
    ensures var comp := Without(items, items[i..end]);
            && |comp| < |items| && Distinct(comp) && ToSet(comp) <= ToSet(items)
            && (end == i + 1 ==> ToSet(comp) == Rest(items, items[i]) && (|items| >= 2 ==> comp != []))
  {
    var c := items[i..end];
    var comp := Without(items, c);
    assert items[i] == c[0];
    WithoutShorter(items, c, items[i]);
    WithoutDistinct(items, c);
    if end == i + 1 {
      assert ToSet(c) == {items[i]};
      if |items| >= 2 {
        var other := if i == 0 then items[1] else items[0];
        assert other in ToSet(comp);
      }
    }
  }

  /** The complement of a single item: what is left after removing it. */
  function Rest(items: seq<int>, x: int): set<int> { ToSet(items) - {x} }

  /** Failing, and no longer failing without any one of its elements. */
  ghost predicate OneMinimal(oracle: set<int> -> bool, items: seq<int>) {
    oracle(ToSet(items)) && forall x :: x in items ==> !oracle(Rest(items, x))
  }

  /** len // k or 1: once there are as many chunks as items, every chunk is a single item. */
  function ChunkSize(n: nat, k: nat): (size: nat)
    requires k > 0
    ensures size > 0 && (k >= n ==> size == 1)
  {
    ChunkBound(n, k);
    if n / k != 0 then n / k else 1
  }

  lemma ChunkBound(n: nat, k: nat)
    requires k > 0
    ensures k >= n ==> n / k <= 1
  {
    if n < k { assert n / k == 0; } else if n == k { assert n / k == 1; }
  }

  /** The search and its cache of answers.  `oracle(s)` is true when the build with exactly the
      sites s is red; `asked` records every run of the oracle, in order. */
  class Search {
    const oracle: set<int> -> bool
    var cache: map<set<int>, bool>
    ghost var asked: seq<set<int>>

    /** The cache agrees with the oracle, holds exactly the answers obtained so far (and the one
        for the empty set), and nothing was ever asked twice. */
    ghost predicate Valid()
      reads this
    {
      && (forall s :: s in cache ==> cache[s] == oracle(s))
      && cache.Keys == {{}} + (set s | s in asked)
      && {} !in asked
      && (forall i, j :: 0 <= i < j < |asked| ==> asked[i] != asked[j])
    }

    constructor (oracle: set<int> -> bool)
      requires !oracle({})
      ensures Valid() && this.oracle == oracle && asked == []
    {
      this.oracle := oracle;
      cache := map[{} := false];
      asked := [];
    }

    /** The memoised oracle. */
    method Fails(s: seq<int>) returns (bad: bool)
      requires Valid()
      modifies this
      ensures Valid() && bad == oracle(ToSet(s))
      ensures ToSet(s) in cache && old(cache.Keys) <= cache.Keys
      ensures asked == old(asked) + (if ToSet(s) in old(cache) then [] else [ToSet(s)])
    {
      var key := ToSet(s);
      if key in cache {
        assert asked + [] == asked;
        return cache[key];
      }
      bad := oracle(key);
      cache := cache[key := bad];
      asked := asked + [key];
      assert cache.Keys == old(cache.Keys) + {key};
      assert (set s' | s' in asked) == (set s' | s' in old(asked)) + {key};
    }

    /** Some chunk alone already fails. */
    method TryChunks(items: seq<int>, size: nat) returns (found: bool, chunk: seq<int>)
      requires Valid() && size > 0 && Distinct(items) && items != []
      modifies this
      ensures Valid() && old(cache.Keys) <= cache.Keys
      ensures found ==> 0 < |chunk| < |items| && Distinct(chunk) && ToSet(chunk) <= ToSet(items)
                        && oracle(ToSet(chunk))
    {
      var i := 0;
      while i < |items|
        invariant Valid() && 0 <= i && old(cache.Keys) <= cache.Keys
        decreases |items| - i
      {
        var end := if i + size < |items| then i + size else |items|;
        chunk := items[i..end];
        if |chunk| < |items| {
          var bad := Fails(chunk);
          if bad {
            assert forall x :: x in chunk ==> x in items;
            return true, chunk;
          }
        }
        i := i + size;
      }
      return false, [];
    }

    /** Some complement of a chunk alone already fails; if none does, all their answers are
        passes and in the cache. */
    method TryComplements(items: seq<int>, size: nat) returns (found: bool, comp: seq<int>)
      requires Valid() && size > 0 && Distinct(items) && items != []
      modifies this
      ensures Valid() && old(cache.Keys) <= cache.Keys
      ensures found ==> 0 < |comp| < |items| && Distinct(comp) && ToSet(comp) <= ToSet(items)
                        && oracle(ToSet(comp))
      ensures !found && size == 1 && |items| >= 2 ==>
                forall j :: 0 <= j < |items| ==>
                  Rest(items, items[j]) in cache && !oracle(Rest(items, items[j]))
    {
      var i := 0;
      while i < |items|
        invariant Valid() && 0 <= i && old(cache.Keys) <= cache.Keys
        invariant size == 1 && |items| >= 2 ==>
                    forall j :: 0 <= j < i && j < |items| ==>
                      Rest(items, items[j]) in cache && !oracle(Rest(items, items[j]))
        decreases |items| - i
      {
        var end := if i + size < |items| then i + size else |items|;
        comp := Without(items, items[i..end]);
        Complement(items, i, end);
        if comp != [] && |comp| < |items| {
          var bad := Fails(comp);
          if bad { return true, comp; }
        }
        i := i + size;
      }
      return false, [];
    }

    /** Terminates for every oracle, monotone or not, with a failing subset of the input that no
        longer fails without any single element; the proof of that is already in the cache. */
    method Ddmin(input: seq<int>) returns (items: seq<int>)
      requires Valid() && Distinct(input) && oracle(ToSet(input)) && !oracle({})
      modifies this
      ensures Valid() && Distinct(items) && ToSet(items) <= ToSet(input)
      ensures OneMinimal(oracle, items)
      ensures forall x :: x in items ==> Rest(items, x) in cache
    {
      items := input;
      var k := 2;
      while |items| >= 2
        invariant Valid() && Distinct(items) && ToSet(items) <= ToSet(input) && oracle(ToSet(items))
        invariant k >= 2
        decreases |items|, |items| - k
      {
        var size := ChunkSize(|items|, k);
        var reduced, smaller := TryChunks(items, size);
        if reduced {
          items, k := smaller, 2;
        } else {
          reduced, smaller := TryComplements(items, size);
          if reduced {
            items, k := smaller, if k - 1 > 2 then k - 1 else 2;
          } else {
            if k >= |items| {
              Answered(items);
              return;
            }
            k := if |items| < k * 2 then |items| else k * 2;
          }
        }
      }
      Small(items);
    }

    lemma Answered(items: seq<int>)
      requires Valid() && oracle(ToSet(items))
      requires forall j :: 0 <= j < |items| ==>
                 Rest(items, items[j]) in cache && !oracle(Rest(items, items[j]))
      ensures OneMinimal(oracle, items) && forall x :: x in items ==> Rest(items, x) in cache
    {
      forall x | x in items
        ensures Rest(items, x) in cache && !oracle(Rest(items, x))
      {
        var j :| 0 <= j < |items| && items[j] == x;
      }
    }

    lemma Small(items: seq<int>)
      requires Valid() && oracle(ToSet(items)) && !oracle({}) && |items| < 2
      ensures OneMinimal(oracle, items) && forall x :: x in items ==> Rest(items, x) in cache
    {
      forall x | x in items
        ensures Rest(items, x) == {}
      {
      }
    }

    /** The closing confirmation: every answer is a pass, and the oracle is not run once more. */
    method Confirm(res: seq<int>) returns (minimal: bool)
      requires Valid() && OneMinimal(oracle, res)
      requires forall x :: x in res ==> Rest(res, x) in cache
      modifies this
      ensures Valid() && minimal && asked == old(asked)
    {
      minimal := true;
      var i := 0;
      while i < |res|
        invariant 0 <= i <= |res| && Valid() && minimal && asked == old(asked)
        invariant old(cache.Keys) <= cache.Keys
      {
        var rest := Without(res, [res[i]]);
        assert ToSet(rest) == Rest(res, res[i]);
        if rest != [] {
          var bad := Fails(rest);
          if bad { minimal := false; }
        }
        i := i + 1;
      }
    }
  }

  // ----- the site list handed to the oracle -----

  datatype Span = Span(lo: int, hi: int)

  /** What the bisection script selects for a list of spans: every number in any of them. */
  ghost predicate Selects(spans: seq<Span>, x: int) {
    exists k :: 0 <= k < |spans| && spans[k].lo <= x <= spans[k].hi
  }

  predicate Increasing(s: seq<int>) {
    forall i, j :: 0 <= i < j < |s| ==> s[i] < s[j]
  }

  /** Non-empty spans with a gap before each next one: there is only one such list for a set. */
  predicate Canonical(spans: seq<Span>) {
    && (forall k :: 0 <= k < |spans| ==> spans[k].lo <= spans[k].hi)
    && (forall k :: 0 < k < |spans| ==> spans[k - 1].hi + 1 < spans[k].lo)
  }

  // sorted(s), by insertion

  function Insert(s: seq<int>, x: int): seq<int> {
    if s == [] || s[|s| - 1] <= x then s + [x] else Insert(s[..|s| - 1], x) + [s[|s| - 1]]
  }

  function Sorted(s: seq<int>): seq<int> {
    if s == [] then [] else Insert(Sorted(s[..|s| - 1]), s[|s| - 1])
  }

  predicate Ascending(s: seq<int>) {
    forall i, j :: 0 <= i < j < |s| ==> s[i] <= s[j]
  }

  lemma {:induction false} InsertKeeps(s: seq<int>, x: int)
    ensures multiset(Insert(s, x)) == multiset(s) + multiset{x}
  {
    if s != [] {
      assert s == s[..|s| - 1] + [s[|s| - 1]];
      if s[|s| - 1] > x { InsertKeeps(s[..|s| - 1], x); }
    }
  }

  lemma {:induction false} InsertAscends(s: seq<int>, x: int)
    requires Ascending(s)
    ensures Ascending(Insert(s, x))
  {
    if s != [] && s[|s| - 1] > x {
      var init, last := s[..|s| - 1], s[|s| - 1];
      InsertAscends(init, x);
      InsertKeeps(init, x);
      forall k | 0 <= k < |Insert(init, x)|
        ensures Insert(init, x)[k] <= last
      {
        assert Insert(init, x)[k] in multiset(Insert(init, x));
        assert Insert(init, x)[k] == x || Insert(init, x)[k] in init;
      }
    }
  }

  /** Sorting keeps every number as often as it is there. */
  lemma {:induction false} SortedFacts(s: seq<int>)
    ensures Ascending(Sorted(s)) && multiset(Sorted(s)) == multiset(s)
  {
    if s != [] {
      var init, last := s[..|s| - 1], s[|s| - 1];
      assert s == init + [last];
      SortedFacts(init);
      InsertKeeps(Sorted(init), last);
      InsertAscends(Sorted(init), last);
    }
  }

  /** A list without duplicates sorts into a strictly increasing one. */
  lemma SortedDistinct(s: seq<int>)
    requires Distinct(s)
    ensures Increasing(Sorted(s))
  {
    SortedFacts(s);
    var t := Sorted(s);
    forall i, j | 0 <= i < j < |t|
      ensures t[i] < t[j]
    {
      OnceIn(s, t[i]);
      if t[i] == t[j] { TwiceIn(t, i, j); }
    }
  }

  lemma {:induction false} OnceIn(s: seq<int>, x: int)
    requires Distinct(s)
    ensures multiset(s)[x] <= 1
  {
    if s != [] {
      var init, last := s[..|s| - 1], s[|s| - 1];
      assert s == init + [last];
      OnceIn(init, x);
      if x == last { assert x !in init; }
    }
  }

  lemma TwiceIn(t: seq<int>, i: nat, j: nat)
    requires i < j < |t| && t[i] == t[j]
    ensures multiset(t)[t[i]] >= 2
  {
    var u := t[..j];
    assert t == u + [t[j]] + t[j + 1..];
    assert u[i] in multiset(u);
  }

  /** spec: the numbers sorted, and runs of consecutive ones become spans. */
  method Spec(s: seq<int>) returns (spans: seq<Span>)
    ensures forall x :: Selects(spans, x) <==> x in s
    ensures Distinct(s) ==> Canonical(spans)
  {
    var t := Sorted(s);
    SortedFacts(s);
    spans := SpansOf(t);
    forall x
      ensures Selects(spans, x) <==> x in s
    {
      assert x in t <==> x in multiset(t);
    }
    if Distinct(s) { SortedDistinct(s); }
  }

  method SpansOf(s: seq<int>) returns (spans: seq<Span>)
    requires Ascending(s)
    ensures forall x :: Selects(spans, x) <==> x in s
    ensures Increasing(s) ==> Canonical(spans)
  {
    spans := [];
    var i := 0;
    while i < |s|
      invariant 0 <= i <= |s|
      invariant forall x :: Selects(spans, x) <==> x in s[..i]
      invariant Increasing(s) ==> Canonical(spans)
      invariant spans != [] ==> 0 < i && spans[|spans| - 1].hi == s[i - 1]
      invariant Increasing(s) && spans != [] && i < |s| ==> s[i - 1] + 1 < s[i]
    {
      var j := i;
      while j + 1 < |s| && s[j + 1] == s[j] + 1
        invariant i <= j < |s| && forall m :: i <= m <= j ==> s[m] == s[i] + (m - i)
      {
        j := j + 1;
      }
      ghost var before := spans;
      spans := spans + [Span(s[i], s[j])];
      forall x
        ensures Selects(spans, x) <==> x in s[..j + 1]
      {
        SelectsMore(before, Span(s[i], s[j]), x);
        SpanCovers(s, i, j, x);
        assert s[..j + 1] == s[..i] + s[i..j + 1];
      }
      i := j + 1;
    }
    assert s[..i] == s;
  }

  lemma SelectsMore(spans: seq<Span>, p: Span, x: int)
    ensures Selects(spans + [p], x) <==> Selects(spans, x) || p.lo <= x <= p.hi
  {
    var more := spans + [p];
    if Selects(spans, x) {
      var k :| 0 <= k < |spans| && spans[k].lo <= x <= spans[k].hi;
      assert more[k] == spans[k];
    }
    if p.lo <= x <= p.hi { assert more[|spans|] == p; }
  }

  /** A run of consecutive values is exactly an interval. */
  lemma SpanCovers(s: seq<int>, i: nat, j: nat, x: int)
    requires i <= j < |s| && forall m :: i <= m <= j ==> s[m] == s[i] + (m - i)
    ensures x in s[i..j + 1] <==> s[i] <= x <= s[j]
  {
    if s[i] <= x <= s[j] { assert s[i..j + 1][x - s[i]] == x; }
  }

  /** Two canonical lists that select the same numbers are the same list, so the oracle is asked
      different questions for different sets. */
  lemma {:induction false} CanonicalUnique(p: seq<Span>, q: seq<Span>)
    requires Canonical(p) && Canonical(q)
    requires forall x :: Selects(p, x) <==> Selects(q, x)
    ensures p == q
  {
    if p == [] {
      if q != [] { assert Selects(q, q[0].lo); }
    } else if q == [] {
      assert Selects(p, p[0].lo);
    } else {
      FirstSpan(p, q);
      FirstSpan(q, p);
      forall x
        ensures Selects(p[1..], x) <==> Selects(q[1..], x)
      {
        SelectsTail(p, x);
        SelectsTail(q, x);
      }
      CanonicalUnique(p[1..], q[1..]);
    }
  }

  lemma {:induction false} LaterSpans(p: seq<Span>, k: nat)
    requires Canonical(p) && 0 < k < |p|
    ensures p[0].hi + 1 < p[k].lo
  {
    if k > 1 { LaterSpans(p, k - 1); }
  }

  lemma SelectsTail(p: seq<Span>, x: int)
    requires Canonical(p) && p != []
    ensures Canonical(p[1..])
    ensures Selects(p[1..], x) <==> Selects(p, x) && x > p[0].hi
    ensures p[0].lo <= x <= p[0].hi ==> Selects(p, x)
    ensures x < p[0].lo || x == p[0].hi + 1 ==> !Selects(p, x)
  {
    forall k | 0 < k < |p|
      ensures p[0].hi + 1 < p[k].lo
    {
      LaterSpans(p, k);
    }
    if Selects(p, x) && x > p[0].hi {
      var k :| 0 <= k < |p| && p[k].lo <= x <= p[k].hi;
      assert p[1..][k - 1] == p[k];
    }
    if Selects(p[1..], x) {
      var k :| 0 <= k < |p[1..]| && p[1..][k].lo <= x <= p[1..][k].hi;
      assert p[k + 1] == p[1..][k];
    }
  }

  /** Equal selections start with the same number and have their first gap in the same place. */
  lemma FirstSpan(p: seq<Span>, q: seq<Span>)
    requires Canonical(p) && Canonical(q) && p != [] && q != []
    requires forall x :: Selects(p, x) <==> Selects(q, x)
    ensures p[0].lo == q[0].lo && p[0].hi <= q[0].hi
  {
    SelectsTail(p, p[0].lo);
    SelectsTail(q, p[0].lo);
    SelectsTail(p, q[0].lo);
    SelectsTail(q, q[0].lo);
    if p[0].hi > q[0].hi {
      SelectsTail(p, q[0].hi + 1);
      SelectsTail(q, q[0].hi + 1);
    }
  }
}
