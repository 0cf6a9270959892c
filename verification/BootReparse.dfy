/** When the rebuilt boot file parses back.  A module shorter than its own size field takes the rest
    of that field from whatever follows it; this module says exactly when exchanging `rbf` behind
    such a module does harm. */
module BootReparse {
  import opened Bytes
  import opened BootFile

  /** No module is cut short by the end of the file. */
  predicate Complete(d: seq<byte>, i: nat)
    requires Advances(d, i)
    decreases |d| - i
  {
    Header(d, i) ==> i + SizeAt(d, i) <= |d| && Complete(d, i + SizeAt(d, i))
  }

  /** Module m, with these bytes behind it, shows its own size. */
  predicate Shows(m: seq<byte>, rest: seq<byte>) {
    m != [] && Header(m + rest, 0) && SizeAt(m + rest, 0) == |m|
  }

  /** What follows module k. */
  function After(parts: seq<seq<byte>>, t: seq<byte>, k: nat): seq<byte>
    requires k < |parts|
  {
    Join(parts[k + 1..]) + t
  }

  predicate ShowsAt(parts: seq<seq<byte>>, t: seq<byte>, k: nat)
    requires k < |parts|
  {
    Shows(parts[k], After(parts, t, k))
  }

  predicate AllShow(parts: seq<seq<byte>>, t: seq<byte>) {
    forall k :: 0 <= k < |parts| ==> ShowsAt(parts, t, k)
  }

  // ----- a module in its file -----

  lemma SizeInTail(d: seq<byte>, i: nat)
    requires i + 8 <= |d|
    ensures SizeAt(d, i) == SizeAt(d[i..], 0)
  {
    assert d[i + 4..i + 8] == d[i..][0 + 4..0 + 8];
  }

  /** Parsing finds m at i exactly when m shows its size there. */
  lemma AtHead(d: seq<byte>, i: nat, m: seq<byte>, rest: seq<byte>)
    requires i <= |d| && d[i..] == m + rest
    ensures Shows(m, rest) <==> StartsWith(d, i, m)
    ensures i + |m| <= |d| && d[i + |m|..] == rest && Slice(d, i, i + |m|) == m
  {
    NoHeader(d, i);
    if Header(d, i) { SizeInTail(d, i); }
    assert d[i..][..|m|] == m && d[i..][|m|..] == rest;
  }

  lemma AfterFirst(parts: seq<seq<byte>>, t: seq<byte>)
    requires parts != []
    ensures Join(parts) + t == parts[0] + After(parts, t, 0)
  {
    ConcatAssoc(parts[0], Join(parts[1..]), t);
  }

  lemma AfterTail(parts: seq<seq<byte>>, t: seq<byte>, k: nat)
    requires 0 < k < |parts|
    ensures After(parts, t, k) == After(parts[1..], t, k - 1)
  {
    assert parts[1..][k..] == parts[k + 1..];
  }

  lemma AfterNext(parts: seq<seq<byte>>, t: seq<byte>, k: nat)
    requires k + 1 < |parts|
    ensures After(parts, t, k) == parts[k + 1] + After(parts, t, k + 1)
  {
    assert parts[k + 1..][0] == parts[k + 1] && parts[k + 1..][1..] == parts[k + 2..];
    ConcatAssoc(parts[k + 1], Join(parts[k + 2..]), t);
  }

  lemma AfterLast(parts: seq<seq<byte>>, t: seq<byte>)
    requires parts != []
    ensures After(parts, t, |parts| - 1) == t
  {
    assert parts[|parts|..] == [];
  }

  lemma AllShowCons(m: seq<byte>, parts: seq<seq<byte>>, t: seq<byte>)
    requires Shows(m, Join(parts) + t) && AllShow(parts, t)
    ensures AllShow([m] + parts, t)
  {
    var all := [m] + parts;
    assert all[1..] == parts;
    forall k | 0 <= k < |all|
      ensures ShowsAt(all, t, k)
    {
      if k > 0 {
        AfterTail(all, t, k);
        assert ShowsAt(parts, t, k - 1);
      }
    }
  }

  // ----- parsing and showing -----

  /** The file from i on is these modules and these bytes. */
  predicate Lies(d: seq<byte>, i: nat, parts: seq<seq<byte>>, t: seq<byte>) {
    i <= |d| && d[i..] == Join(parts) + t
  }

  lemma LiesStep(d: seq<byte>, i: nat, parts: seq<seq<byte>>, t: seq<byte>)
    requires Lies(d, i, parts, t) && parts != []
    ensures Lies(d, i + |parts[0]|, parts[1..], t) && |d| - i == |parts[0]| + |After(parts, t, 0)|
    ensures Shows(parts[0], After(parts, t, 0)) <==> StartsWith(d, i, parts[0])
  {
    AfterFirst(parts, t);
    AtHead(d, i, parts[0], After(parts, t, 0));
  }

  lemma NoneParses(d: seq<byte>, i: nat, parts: seq<seq<byte>>, t: seq<byte>)
    requires Lies(d, i, parts, t) && parts == [] && !Header(t, 0)
    ensures ParsesTo(d, i, parts, t)
  {
    ParseNone(d, i, t);
  }

  /** Parsing finds the module, with these bytes behind it: it shows its size, or it is the end of the
      file and claims at least what is there. */
  predicate Found(m: seq<byte>, rest: seq<byte>) {
    if rest == [] then Header(m, 0) && SizeAt(m, 0) >= |m| else Shows(m, rest)
  }

  predicate FoundIn(parts: seq<seq<byte>>, t: seq<byte>, k: nat)
    requires k < |parts|
  {
    Found(parts[k], After(parts, t, k))
  }

  predicate AllFound(parts: seq<seq<byte>>, t: seq<byte>) {
    forall k :: 0 <= k < |parts| ==> FoundIn(parts, t, k)
  }

  lemma ShowsFound(m: seq<byte>, rest: seq<byte>)
    requires Shows(m, rest)
    ensures Found(m, rest)
  {
    if rest == [] { assert m + rest == m; }
  }

  lemma AllFoundCons(parts: seq<seq<byte>>, t: seq<byte>)
    requires parts != []
    ensures AllFound(parts, t) <==> FoundIn(parts, t, 0) && AllFound(parts[1..], t)
  {
    forall k | 0 <= k < |parts[1..]|
      ensures FoundIn(parts[1..], t, k) <==> FoundIn(parts, t, k + 1)
    {
      AfterTail(parts, t, k + 1);
    }
    if FoundIn(parts, t, 0) && AllFound(parts[1..], t) {
      forall k | 0 <= k < |parts|
        ensures FoundIn(parts, t, k)
      {
        if k > 0 { assert FoundIn(parts[1..], t, k - 1); }
      }
    }
  }

  /** A module found is not empty, so only the last one can have nothing behind it. */
  lemma NothingBehind(parts: seq<seq<byte>>, t: seq<byte>)
    requires parts != [] && After(parts, t, 0) == []
    ensures AllFound(parts, t) <==> |parts| == 1 && t == [] && Found(parts[0], [])
  {
    if |parts| == 1 {
      AfterLast(parts, t);
      assert AllFound(parts, t) <==> FoundIn(parts, t, 0);
    } else {
      AfterNext(parts, t, 0);
      assert !FoundIn(parts, t, 1);
    }
  }

  lemma LastModule(d: seq<byte>, i: nat, m: seq<byte>)
    requires i <= |d| && d[i..] == m && Header(m, 0) && SizeAt(m, 0) >= |m|
    ensures Advances(d, i) && |Modules(d, i)| == 1 && Modules(d, i)[0].bytes == m && Trailing(d, i) == []
  {
    SameHeader(d, i, m);
    var j := i + SizeAt(d, i);
    PastEnd(d, j);
    ModulesUnfold(d, i, j);
    SliceAll(d, i, j);
  }

  lemma ModulesUnfold(d: seq<byte>, i: nat, j: nat)
    requires Header(d, i) && SizeAt(d, i) > 0 && j == i + SizeAt(d, i) && Advances(d, j)
    ensures Advances(d, i) && Modules(d, i) == [ModuleAt(d, i)] + Modules(d, j) && EndOf(d, i) == EndOf(d, j)
    ensures ModuleAt(d, i).bytes == Slice(d, i, j)
  {
    assert Advances(d, i + SizeAt(d, i));
    assert Advances(d, i);
  }

  lemma SliceAll(d: seq<byte>, i: nat, j: nat)
    requires i <= |d| <= j
    ensures Slice(d, i, j) == d[i..]
  {
  }

  lemma PastEnd(d: seq<byte>, j: nat)
    requires j >= |d|
    ensures !Header(d, j) && Advances(d, j) && Modules(d, j) == [] && EndOf(d, j) == j && Slice(d, j, |d|) == []
  {
  }

  /** What parsing meets, module by module, without a look at the rest of the file. */
  predicate Steps(d: seq<byte>, i: nat, parts: seq<seq<byte>>, t: seq<byte>)
    decreases |parts|
  {
    if parts == [] then ParsesTo(d, i, [], t)
    else if i + |parts[0]| < |d| then StartsWith(d, i, parts[0]) && Steps(d, i + |parts[0]|, parts[1..], t)
    else EndsFile(d, i, parts, t)
  }

  /** The last module, which claims at least what is there. */
  predicate EndsFile(d: seq<byte>, i: nat, parts: seq<seq<byte>>, t: seq<byte>) {
    |parts| == 1 && t == [] && i <= |d| && d[i..] == parts[0] && Header(d, i) && SizeAt(d, i) >= |parts[0]|
  }

  lemma EndParses(d: seq<byte>, i: nat, parts: seq<seq<byte>>, t: seq<byte>)
    requires EndsFile(d, i, parts, t)
    ensures ParsesTo(d, i, parts, t)
  {
    NoHeader(d, i);
    SizeInTail(d, i);
    LastModule(d, i, parts[0]);
    assert Contents(Modules(d, i)) == parts;
  }

  lemma SameHeader(d: seq<byte>, i: nat, m: seq<byte>)
    requires i <= |d| && d[i..] == m && Header(m, 0)
    ensures Header(d, i) && SizeAt(d, i) == SizeAt(m, 0)
  {
    NoHeader(d, i);
    SizeInTail(d, i);
  }

  lemma {:induction false} StepsParse(d: seq<byte>, i: nat, parts: seq<seq<byte>>, t: seq<byte>)
    requires Steps(d, i, parts, t)
    ensures ParsesTo(d, i, parts, t)
    decreases |parts|
  {
    if parts == [] {
    } else if i + |parts[0]| < |d| {
      StepsParse(d, i + |parts[0]|, parts[1..], t);
      ParseOne(d, i, parts, t);
    } else {
      EndParses(d, i, parts, t);
    }
  }

  /** A parse that gives these modules found the first one at its place, if more follows it, ... */
  lemma HeadFound(d: seq<byte>, i: nat, parts: seq<seq<byte>>, t: seq<byte>)
    requires parts != [] && ParsesTo(d, i, parts, t) && i + |parts[0]| < |d|
    ensures StartsWith(d, i, parts[0])
  {
    ModulesCons(d, i);
    assert parts[0] == ModuleAt(d, i).bytes;
    SliceSize(d, i, SizeAt(d, i), |parts[0]|);
  }

  lemma SliceSize(d: seq<byte>, i: nat, size: nat, n: nat)
    requires |Slice(d, i, i + size)| == n && i + n < |d|
    ensures size == n
  {
  }

  /** ... and goes on behind it. */
  lemma TailParses(d: seq<byte>, i: nat, parts: seq<seq<byte>>, t: seq<byte>)
    requires parts != [] && ParsesTo(d, i, parts, t) && StartsWith(d, i, parts[0])
    ensures ParsesTo(d, i + |parts[0]|, parts[1..], t)
  {
    ModulesCons(d, i);
    var m, ms := ModuleAt(d, i), Modules(d, i + |parts[0]|);
    ContentsCons(m, ms, [m.bytes] + Contents(ms));
    assert parts[1..] == Contents(ms);
  }

  lemma EndReached(d: seq<byte>, i: nat, parts: seq<seq<byte>>, t: seq<byte>)
    requires parts != [] && ParsesTo(d, i, parts, t) && i + |parts[0]| >= |d|
    ensures EndsFile(d, i, parts, t)
  {
    ModulesCons(d, i);
    var j := i + SizeAt(d, i);
    assert parts[0] == Slice(d, i, j);
    SliceReaches(d, i, j);
    PastEnd(d, j);
    ModulesUnfold(d, i, j);
  }

  lemma SliceReaches(d: seq<byte>, i: nat, j: nat)
    requires i < |d| && i <= j && i + |Slice(d, i, j)| >= |d|
    ensures j >= |d| && Slice(d, i, j) == d[i..] && |Slice(d, i, j)| <= j - i
  {
  }

  lemma {:induction false} ParseSteps(d: seq<byte>, i: nat, parts: seq<seq<byte>>, t: seq<byte>)
    requires ParsesTo(d, i, parts, t)
    ensures Steps(d, i, parts, t)
    decreases |parts|
  {
    if parts == [] {
      NoSteps(d, i, parts, t);
    } else if i + |parts[0]| < |d| {
      var j, rest := FirstStep(d, i, parts, t);
      ParseSteps(d, j, rest, t);
      OneStep(d, i, parts, t, j, rest);
    } else {
      EndReached(d, i, parts, t);
      LastStep(d, i, parts, t);
    }
  }

  lemma NoSteps(d: seq<byte>, i: nat, parts: seq<seq<byte>>, t: seq<byte>)
    requires parts == [] && ParsesTo(d, i, parts, t)
    ensures Steps(d, i, parts, t)
  {
  }

  lemma FirstStep(d: seq<byte>, i: nat, parts: seq<seq<byte>>, t: seq<byte>) returns (j: nat, rest: seq<seq<byte>>)
    requires parts != [] && ParsesTo(d, i, parts, t) && i + |parts[0]| < |d|
    ensures j == i + |parts[0]| && rest == parts[1..] && StartsWith(d, i, parts[0]) && ParsesTo(d, j, rest, t)
  {
    HeadFound(d, i, parts, t);
    TailParses(d, i, parts, t);
    j, rest := i + |parts[0]|, parts[1..];
  }

  lemma OneStep(d: seq<byte>, i: nat, parts: seq<seq<byte>>, t: seq<byte>, j: nat, rest: seq<seq<byte>>)
    requires parts != [] && i + |parts[0]| < |d| && StartsWith(d, i, parts[0])
    requires j == i + |parts[0]| && rest == parts[1..] && Steps(d, j, rest, t)
    ensures Steps(d, i, parts, t)
  {
  }

  lemma LastStep(d: seq<byte>, i: nat, parts: seq<seq<byte>>, t: seq<byte>)
    requires parts != [] && i + |parts[0]| >= |d| && EndsFile(d, i, parts, t)
    ensures Steps(d, i, parts, t)
  {
  }

  /** At the end of the file: parsing reaches it exactly if the module is found. */
  lemma EndIffFound(d: seq<byte>, i: nat, parts: seq<seq<byte>>, t: seq<byte>)
    requires Lies(d, i, parts, t) && parts != [] && After(parts, t, 0) == []
    ensures EndsFile(d, i, parts, t) <==> AllFound(parts, t)
  {
    NothingBehind(parts, t);
    AfterFirst(parts, t);
    assert parts[0] + [] == parts[0];
    NoHeader(d, i);
    if Header(d, i) { SizeInTail(d, i); }
  }

  /** Parsing meets the modules exactly if all of them are found. */
  lemma {:induction false} StepsIffFound(d: seq<byte>, i: nat, parts: seq<seq<byte>>, t: seq<byte>)
    requires Lies(d, i, parts, t) && !Header(t, 0)
    ensures Steps(d, i, parts, t) <==> AllFound(parts, t)
    decreases |parts|
  {
    if parts == [] {
      NoneParses(d, i, parts, t);
    } else {
      LiesStep(d, i, parts, t);
      if After(parts, t, 0) == [] {
        EndIffFound(d, i, parts, t);
      } else {
        AllFoundCons(parts, t);
        StepsIffFound(d, i + |parts[0]|, parts[1..], t);
      }
    }
  }

  lemma OwnBytes(d: seq<byte>, i: nat)
    requires i <= |d| && Advances(d, i)
    ensures Join(Contents(Modules(d, i))) + Trailing(d, i) == d[i..]
  {
    ParsePartitions(d, i);
    assert Slice(d, i, |d|) == d[i..];
  }

  lemma CutOff(d: seq<byte>, i: nat, n: nat)
    requires i + n <= |d|
    ensures d[i..] == Slice(d, i, i + n) + d[i + n..]
  {
    if n == 0 { assert Slice(d, i, i + n) == []; }
  }

  lemma ModuleShows(d: seq<byte>, i: nat)
    requires Header(d, i) && SizeAt(d, i) > 0 && i + SizeAt(d, i) <= |d|
    ensures Shows(ModuleAt(d, i).bytes, d[i + SizeAt(d, i)..])
  {
    var m, rest := ModuleAt(d, i).bytes, d[i + SizeAt(d, i)..];
    CutOff(d, i, SizeAt(d, i));
    AtHead(d, i, m, rest);
  }

  /** In a boot file of complete modules every module shows its size. */
  lemma {:induction false} FileShows(d: seq<byte>, i: nat)
    requires i <= |d| && Advances(d, i) && Complete(d, i)
    ensures AllShow(Contents(Modules(d, i)), Trailing(d, i)) && !Header(Trailing(d, i), 0)
    decreases |d| - i
  {
    if Header(d, i) {
      var j := i + SizeAt(d, i);
      FileShows(d, j);
      OwnBytes(d, j);
      var m, ms := ModuleAt(d, i), Modules(d, j);
      ModuleShows(d, i);
      AllShowCons(m.bytes, Contents(ms), Trailing(d, j));
      ContentsCons(m, ms, [m.bytes] + Contents(ms));
    } else {
      NoHeader(d, i);
    }
  }

  // ----- modules shorter than their size field -----

  lemma BeFour(s: seq<byte>)
    requires |s| == 4
    ensures Be(s) == 0x100_0000 * (s[0] as int) + 0x1_0000 * (s[1] as int) + 0x100 * (s[2] as int) + s[3]
  {
    assert s[..3][..2] == s[..2] && s[..2][..1] == s[..1] && s[..1][..0] == [];
    assert Be(s[..1]) == s[0];
    assert Be(s[..2]) == 0x100 * Be(s[..1]) + s[1];
    assert Be(s[..3]) == 0x100 * Be(s[..2]) + s[2];
  }

  lemma SizeBytes(x: seq<byte>)
    requires |x| >= 8
    ensures SizeAt(x, 0) == 0x100_0000 * (x[4] as int) + 0x1_0000 * (x[5] as int) + 0x100 * (x[6] as int) + x[7]
  {
    BeFour(x[0 + 4..0 + 8]);
  }

  /** In front of another header, the only module that short which shows its size is a bare sync
      word, and then the size stands in the four bytes behind the next sync word. */
  lemma SmallShows(m: seq<byte>, rest: seq<byte>)
    requires 0 < |m| < 8 && Header(rest, 0)
    ensures Shows(m, rest) <==> m == [0x4A, 0xFC] && rest[2] == 0 && rest[3] == 0 && rest[4] == 0 && rest[5] == 2
  {
    var x := m + rest;
    SizeBytes(x);
    assert forall k :: |m| <= k < |x| ==> x[k] == rest[k - |m|];
  }

  lemma BigShows(m: seq<byte>, rest: seq<byte>, rest': seq<byte>)
    requires |m| >= 8 && Shows(m, rest) && |m| + |rest'| >= 16
    ensures Shows(m, rest')
  {
    SizeBytes(m + rest);
    SizeBytes(m + rest');
  }

  predicate Sync(m: seq<byte>) { |m| >= 2 && m[0] == 0x4A && m[1] == 0xFC }

  /** A file of at least a header's length. */
  lemma NewFound(rbf: seq<byte>, rest: seq<byte>)
    requires |rbf| >= 16
    ensures Found(rbf, rest)
            <==> Sync(rbf) && (SizeAt(rbf, 0) == |rbf| || (SizeAt(rbf, 0) > |rbf| && rest == []))
  {
    SizeBytes(rbf);
    SizeBytes(rbf + rest);
  }

  // ----- the rebuilt file -----

  /** The new module comes to stand behind module k. */
  predicate NextIsNew(ms: seq<Module>, k: nat)
    requires k < |ms|
  {
    if k + 1 < |ms| then IsRbf(ms[k + 1].name) else !HasRbf(ms)
  }

  /** Module k is kept, is shorter than its size field, and has the new module behind it. */
  predicate Exposed(ms: seq<Module>, k: nat)
    requires k < |ms|
  {
    !IsRbf(ms[k].name) && |ms[k].bytes| < 8 && NextIsNew(ms, k)
  }

  /** Every exposed module is a bare sync word for which the new module happens to hold a size of 2. */
  predicate Unharmed(ms: seq<Module>, rbf: seq<byte>)
    requires |rbf| >= 16
  {
    forall k :: 0 <= k < |ms| && Exposed(ms, k) ==>
      |ms[k].bytes| == 2 && rbf[2] == 0 && rbf[3] == 0 && rbf[4] == 0 && rbf[5] == 2
  }

  lemma NewAt(ms: seq<Module>, rbf: seq<byte>)
    ensures |NewModules(ms, rbf)| == |ms| + (if HasRbf(ms) then 0 else 1)
    ensures forall k :: 0 <= k < |ms| ==> NewModules(ms, rbf)[k] == if IsRbf(ms[k].name) then rbf else ms[k].bytes
    ensures !HasRbf(ms) ==> NewModules(ms, rbf)[|ms|] == rbf
  {
    ReplacedAt(ms, rbf);
  }

  /** An exposed module survives exactly in the lucky case. */
  lemma ExposedShows(ms: seq<Module>, rbf: seq<byte>, t: seq<byte>, k: nat)
    requires AllShow(Contents(ms), t) && Sync(rbf) && |rbf| >= 16
    requires k < |ms| && Exposed(ms, k)
    ensures k + 1 < |NewModules(ms, rbf)| && After(NewModules(ms, rbf), t, k) != []
    ensures Shows(NewModules(ms, rbf)[k], After(NewModules(ms, rbf), t, k))
            <==> |ms[k].bytes| == 2 && rbf[2] == 0 && rbf[3] == 0 && rbf[4] == 0 && rbf[5] == 2
  {
    var parts, m := NewModules(ms, rbf), ms[k].bytes;
    NewAt(ms, rbf);
    AfterNext(parts, t, k);
    assert parts[k] == m && parts[k + 1] == rbf;
    assert ShowsAt(Contents(ms), t, k);
    ShortBefore(m, After(Contents(ms), t, k), rbf, After(parts, t, k + 1));
  }

  lemma ShortBefore(m: seq<byte>, rest: seq<byte>, rbf: seq<byte>, x: seq<byte>)
    requires |m| < 8 && Shows(m, rest) && Sync(rbf) && |rbf| >= 16
    ensures Shows(m, rbf + x) <==> |m| == 2 && rbf[2] == 0 && rbf[3] == 0 && rbf[4] == 0 && rbf[5] == 2
  {
    SyncAtStart(m, rest);
    SmallShows(m, rbf + x);
  }

  lemma SyncAtStart(m: seq<byte>, rest: seq<byte>)
    requires Shows(m, rest)
    ensures |m| == 2 ==> m == [0x4A, 0xFC]
  {
    if |m| == 2 { assert (m + rest)[0] == m[0] && (m + rest)[1] == m[1]; }
  }

  /** A short module in front of a kept one. */
  lemma SmallKept(m: seq<byte>, n: seq<byte>, x: seq<byte>, x': seq<byte>)
    requires 0 < |m| < 8 && Shows(m, n + x) && Shows(n, x)
    ensures Shows(m, n + x')
  {
    SmallShows(m, n + x);
    SizeBytes(n + x);
    assert |n| >= 0x2_0000;
    assert Header(n + x', 0) by { assert (n + x')[0] == (n + x)[0] && (n + x')[1] == (n + x)[1]; }
    SmallShows(m, n + x');
    assert forall j :: 0 <= j < 6 ==> (n + x')[j] == (n + x)[j];
  }

  lemma ShowsRoom(parts: seq<seq<byte>>, t: seq<byte>)
    requires AllShow(parts, t)
    ensures RoomForHeaders(parts, t)
  {
    forall k | 0 <= k < |parts|
      ensures RoomAt(parts, t, k) >= 16
    {
      assert ShowsAt(parts, t, k);
      assert parts[k..][1..] == parts[k + 1..];
    }
  }

  /** A kept module that is not exposed keeps showing its size. */
  lemma KeptShows(ms: seq<Module>, rbf: seq<byte>, t: seq<byte>, k: nat)
    requires AllShow(Contents(ms), t) && |rbf| >= 16
    requires k < |ms| && !IsRbf(ms[k].name) && !Exposed(ms, k)
    ensures k < |NewModules(ms, rbf)| && Shows(NewModules(ms, rbf)[k], After(NewModules(ms, rbf), t, k))
  {
    var old_, parts, m := Contents(ms), NewModules(ms, rbf), ms[k].bytes;
    NewAt(ms, rbf);
    assert ShowsAt(old_, t, k);
    if |m| >= 8 {
      ShowsRoom(old_, t);
      NewRoomAt(ms, rbf, t, k);
      assert parts[k..][1..] == parts[k + 1..];
      BigShows(m, After(old_, t, k), After(parts, t, k));
    } else if k + 1 < |ms| {
      AfterNext(old_, t, k);
      AfterNext(parts, t, k);
      assert ShowsAt(old_, t, k + 1);
      SmallKept(m, old_[k + 1], After(old_, t, k + 1), After(parts, t, k + 1));
    } else {
      AfterLast(old_, t);
      AfterLast(parts, t);
    }
  }

  /** The new module stands at k. */
  predicate IsNew(ms: seq<Module>, k: nat) { k == |ms| || (k < |ms| && IsRbf(ms[k].name)) }

  /** The new module comes to stand at the end of the module list and nowhere else. */
  predicate OnlyAtEnd(ms: seq<Module>) {
    forall k :: 0 <= k < |ms| && IsRbf(ms[k].name) ==> k + 1 == |ms|
  }

  /** The new file is a module: sync word, and a size field that is its length, or that claims more
      where the file is the end of the boot file. */
  predicate SizeFits(ms: seq<Module>, rbf: seq<byte>, t: seq<byte>)
    requires |rbf| >= 16
  {
    && Sync(rbf)
    && (SizeAt(rbf, 0) == |rbf| || (SizeAt(rbf, 0) > |rbf| && t == [] && OnlyAtEnd(ms)))
  }

  lemma SomeNew(ms: seq<Module>, rbf: seq<byte>) returns (k: nat)
    ensures k < |NewModules(ms, rbf)| && IsNew(ms, k)
  {
    NewAt(ms, rbf);
    k := |ms|;
    if HasRbf(ms) { k :| 0 <= k < |ms| && IsRbf(ms[k].name); }
  }

  /** Nothing stands behind the new module exactly at the end of a file without trailing bytes. */
  lemma EndIff(ms: seq<Module>, rbf: seq<byte>, t: seq<byte>, k: nat)
    requires AllShow(Contents(ms), t) && |rbf| >= 16 && k < |NewModules(ms, rbf)|
    ensures After(NewModules(ms, rbf), t, k) == [] <==> k + 1 == |NewModules(ms, rbf)| && t == []
  {
    var parts := NewModules(ms, rbf);
    NewAt(ms, rbf);
    if k + 1 < |parts| {
      AfterNext(parts, t, k);
      if k + 1 < |ms| { assert ShowsAt(Contents(ms), t, k + 1); }
      assert parts[k + 1] != [];
    } else {
      AfterLast(parts, t);
    }
  }

  /** One place of the new module: its size is its length, or it is the end and claims more. */
  predicate PlaceOk(parts: seq<seq<byte>>, rbf: seq<byte>, t: seq<byte>, k: nat)
    requires |rbf| >= 16
  {
    Sync(rbf) && (SizeAt(rbf, 0) == |rbf| || (SizeAt(rbf, 0) > |rbf| && k + 1 == |parts| && t == []))
  }

  lemma PlaceIff(ms: seq<Module>, rbf: seq<byte>, t: seq<byte>, k: nat)
    requires AllShow(Contents(ms), t) && |rbf| >= 16 && k < |NewModules(ms, rbf)| && IsNew(ms, k)
    ensures NewModules(ms, rbf)[k] == rbf
    ensures Found(rbf, After(NewModules(ms, rbf), t, k)) <==> PlaceOk(NewModules(ms, rbf), rbf, t, k)
  {
    NewAt(ms, rbf);
    NewFound(rbf, After(NewModules(ms, rbf), t, k));
    EndIff(ms, rbf, t, k);
  }

  /** Every place is right exactly if the size fits. */
  lemma PlacesIff(ms: seq<Module>, rbf: seq<byte>, t: seq<byte>)
    requires |rbf| >= 16
    ensures var parts := NewModules(ms, rbf);
            (forall k :: 0 <= k < |parts| && IsNew(ms, k) ==> PlaceOk(parts, rbf, t, k)) <==> SizeFits(ms, rbf, t)
  {
    var parts := NewModules(ms, rbf);
    NewAt(ms, rbf);
    if SizeFits(ms, rbf, t) {
      forall k | 0 <= k < |parts| && IsNew(ms, k)
        ensures PlaceOk(parts, rbf, t, k)
      {
        if k < |ms| { assert IsRbf(ms[k].name); }
      }
    }
    if forall k :: 0 <= k < |parts| && IsNew(ms, k) ==> PlaceOk(parts, rbf, t, k) {
      var k := SomeNew(ms, rbf);
      assert PlaceOk(parts, rbf, t, k);
      forall j | 0 <= j < |ms| && IsRbf(ms[j].name)
        ensures SizeAt(rbf, 0) != |rbf| ==> j + 1 == |ms|
      {
        assert IsNew(ms, j);
      }
    }
  }

  lemma NewAllFound(ms: seq<Module>, rbf: seq<byte>, t: seq<byte>)
    requires AllShow(Contents(ms), t) && |rbf| >= 16 && SizeFits(ms, rbf, t) && Unharmed(ms, rbf)
    ensures AllFound(NewModules(ms, rbf), t)
  {
    var parts := NewModules(ms, rbf);
    NewAt(ms, rbf);
    PlacesIff(ms, rbf, t);
    forall k | 0 <= k < |parts|
      ensures FoundIn(parts, t, k)
    {
      if IsNew(ms, k) {
        PlaceIff(ms, rbf, t, k);
      } else {
        if Exposed(ms, k) { ExposedShows(ms, rbf, t, k); } else { KeptShows(ms, rbf, t, k); }
        ShowsFound(parts[k], After(parts, t, k));
      }
    }
  }

  lemma AllFoundNew(ms: seq<Module>, rbf: seq<byte>, t: seq<byte>)
    requires AllShow(Contents(ms), t) && |rbf| >= 16 && AllFound(NewModules(ms, rbf), t)
    ensures SizeFits(ms, rbf, t) && Unharmed(ms, rbf)
  {
    var parts := NewModules(ms, rbf);
    NewAt(ms, rbf);
    forall k | 0 <= k < |parts| && IsNew(ms, k)
      ensures PlaceOk(parts, rbf, t, k)
    {
      assert FoundIn(parts, t, k);
      PlaceIff(ms, rbf, t, k);
    }
    PlacesIff(ms, rbf, t);
    forall k | 0 <= k < |ms| && Exposed(ms, k)
      ensures |ms[k].bytes| == 2 && rbf[2] == 0 && rbf[3] == 0 && rbf[4] == 0 && rbf[5] == 2
    {
      ExposedShows(ms, rbf, t, k);
      assert FoundIn(parts, t, k);
    }
  }

  /** For every boot file of complete modules and every file put in, whatever it holds: the rebuilt
      file parses into the modules with every `rbf` exchanged, or one appended, and the same trailing
      bytes, if and only if each of these modules is found where it then stands. */
  lemma ReparseExact(d: seq<byte>, rbf: seq<byte>)
    requires Advances(d, 0) && Complete(d, 0)
    ensures ParsesTo(Rebuilt(d, rbf), 0, NewModules(Modules(d, 0), rbf), Trailing(d, 0))
            <==> AllFound(NewModules(Modules(d, 0), rbf), Trailing(d, 0))
  {
    var parts, t, out := NewModules(Modules(d, 0), rbf), Trailing(d, 0), Rebuilt(d, rbf);
    FileShows(d, 0);
    assert out[0..] == out;
    StepsIffFound(out, 0, parts, t);
    if Steps(out, 0, parts, t) { StepsParse(out, 0, parts, t); }
    if ParsesTo(out, 0, parts, t) { ParseSteps(out, 0, parts, t); }
  }

  /** For files of at least a header's length that comes down to the size field of the file put in, and
      to the modules shorter than 8 bytes that get it behind them. */
  lemma ReparseIff(d: seq<byte>, rbf: seq<byte>)
    requires Advances(d, 0) && Complete(d, 0) && |rbf| >= 16
    ensures ParsesTo(Rebuilt(d, rbf), 0, NewModules(Modules(d, 0), rbf), Trailing(d, 0))
            <==> SizeFits(Modules(d, 0), rbf, Trailing(d, 0)) && Unharmed(Modules(d, 0), rbf)
  {
    var ms, t := Modules(d, 0), Trailing(d, 0);
    ReparseExact(d, rbf);
    FileShows(d, 0);
    if AllFound(NewModules(ms, rbf), t) { AllFoundNew(ms, rbf, t); }
    if SizeFits(ms, rbf, t) && Unharmed(ms, rbf) { NewAllFound(ms, rbf, t); }
  }
}
