/** mk_rbfboot.py: split a boot file into its modules, replace `rbf`, and join the rest again. */
module BootFile {
  import opened Bytes

  datatype Module = Module(name: seq<byte>, bytes: seq<byte>)

  /** A module header starts at i: 16 bytes are there and the sync word is right. */
  predicate Header(d: seq<byte>, i: nat) {
    i + 16 <= |d| && d[i] == 0x4A && d[i + 1] == 0xFC
  }

  function SizeAt(d: seq<byte>, i: nat): nat
    requires i + 8 <= |d|
  {
    Be(d[i + 4..i + 8])
  }

  function UpToNul(s: seq<byte>): seq<byte> {
    if s == [] || s[0] == 0 then [] else [s[0]] + UpToNul(s[1..])
  }

  /** The name is looked up in the whole file, not only in the module. */
  function NameAt(d: seq<byte>, i: nat): seq<byte>
    requires Header(d, i)
  {
    var off := i + Be(d[i + 12..i + 16]);
    UpToNul(Slice(d, off, off + 32))
  }

  /** No header met while parsing has size 0, for which the loop would stand still. */
  predicate Advances(d: seq<byte>, i: nat)
    decreases |d| - i
  {
    Header(d, i) ==> SizeAt(d, i) > 0 && Advances(d, i + SizeAt(d, i))
  }

  function ModuleAt(d: seq<byte>, i: nat): Module
    requires Header(d, i)
  {
    Module(NameAt(d, i), Slice(d, i, i + SizeAt(d, i)))
  }

  function Modules(d: seq<byte>, i: nat): seq<Module>
    requires Advances(d, i)
    decreases |d| - i
  {
    if !Header(d, i) then [] else [ModuleAt(d, i)] + Modules(d, i + SizeAt(d, i))
  }

  /** Where parsing stops. */
  function EndOf(d: seq<byte>, i: nat): nat
    requires Advances(d, i)
    decreases |d| - i
  {
    if !Header(d, i) then i else EndOf(d, i + SizeAt(d, i))
  }

  function Trailing(d: seq<byte>, i: nat): seq<byte>
    requires Advances(d, i)
  {
    Slice(d, EndOf(d, i), |d|)
  }

  /** Parsing has come to i with these modules found; the rest gives `all` and stops at `end`. */
  predicate ParsedTo(d: seq<byte>, i: nat, found: seq<Module>, all: seq<Module>, end: nat) {
    Advances(d, i) && found + Modules(d, i) == all && EndOf(d, i) == end
  }

  lemma ParseStart(d: seq<byte>, i: nat)
    requires Advances(d, i)
    ensures ParsedTo(d, i, [], Modules(d, i), EndOf(d, i))
  {
  }

  lemma ParseStep(d: seq<byte>, i: nat, found: seq<Module>, all: seq<Module>, end: nat)
    requires ParsedTo(d, i, found, all, end) && Header(d, i)
    ensures SizeAt(d, i) > 0 && ParsedTo(d, i + SizeAt(d, i), found + [ModuleAt(d, i)], all, end)
  {
    ConcatAssoc(found, [ModuleAt(d, i)], Modules(d, i + SizeAt(d, i)));
  }

  lemma ParseEnd(d: seq<byte>, i: nat, found: seq<Module>, all: seq<Module>, end: nat)
    requires ParsedTo(d, i, found, all, end) && !Header(d, i)
    ensures found == all && i == end
  {
  }

  method ParseBootfile(d: seq<byte>) returns (modules: seq<Module>, trailing: seq<byte>)
    requires Advances(d, 0)
    ensures modules == Modules(d, 0) && trailing == Trailing(d, 0)
  {
    ghost var all, end := Modules(d, 0), EndOf(d, 0);
    modules := [];
    var i: nat := 0;
    ParseStart(d, i);
    while Header(d, i)
      invariant ParsedTo(d, i, modules, all, end)
      decreases |d| - i
    {
      ParseStep(d, i, modules, all, end);
      modules := modules + [ModuleAt(d, i)];
      i := i + SizeAt(d, i);
    }
    ParseEnd(d, i, modules, all, end);
    trailing := Slice(d, i, |d|);
  }

  function Contents(ms: seq<Module>): (r: seq<seq<byte>>)
    ensures |r| == |ms| && forall k :: 0 <= k < |ms| ==> r[k] == ms[k].bytes
  {
    if ms == [] then [] else [ms[0].bytes] + Contents(ms[1..])
  }

  lemma SliceSplit(d: seq<byte>, i: nat, j: nat)
    requires i <= j
    ensures Slice(d, i, j) + Slice(d, j, |d|) == Slice(d, i, |d|)
  {
  }

  lemma JoinCons(m: Module, ms: seq<Module>, t: seq<byte>)
    ensures Contents([m] + ms) == [m.bytes] + Contents(ms)
    ensures Join(Contents([m] + ms)) + t == m.bytes + (Join(Contents(ms)) + t)
  {
    assert Contents([m] + ms) == [m.bytes] + Contents(ms);
    assert Contents([m] + ms)[1..] == Contents(ms);
  }

  /** Splitting loses and duplicates nothing: the modules and the trailing bytes, in order,
      are the file.  This holds for a truncated last module too. */
  lemma {:induction false} ParsePartitions(d: seq<byte>, i: nat)
    requires Advances(d, i)
    ensures Join(Contents(Modules(d, i))) + Trailing(d, i) == Slice(d, i, |d|)
    decreases |d| - i
  {
    if Header(d, i) {
      var j := i + SizeAt(d, i);
      ParsePartitions(d, j);
      JoinCons(ModuleAt(d, i), Modules(d, j), Trailing(d, i));
      SliceSplit(d, i, j);
    }
  }

  // ----- replacing rbf -----

  predicate IsRbf(name: seq<byte>) {
    && |name| == 3
    && (name[0] == 0x72 || name[0] == 0x52)
    && (name[1] == 0x62 || name[1] == 0x42)
    && (name[2] == 0x66 || name[2] == 0x46)
  }

  function Replaced(ms: seq<Module>, rbf: seq<byte>): seq<seq<byte>> {
    if ms == [] then []
    else [if IsRbf(ms[0].name) then rbf else ms[0].bytes] + Replaced(ms[1..], rbf)
  }

  predicate HasRbf(ms: seq<Module>) {
    exists k :: 0 <= k < |ms| && IsRbf(ms[k].name)
  }

  /** Every module in its place, each `rbf` exchanged, or one appended if there was none. */
  function NewModules(ms: seq<Module>, rbf: seq<byte>): seq<seq<byte>> {
    Replaced(ms, rbf) + (if HasRbf(ms) then [] else [rbf])
  }

  function Rebuilt(d: seq<byte>, rbf: seq<byte>): seq<byte>
    requires Advances(d, 0)
  {
    Join(NewModules(Modules(d, 0), rbf)) + Trailing(d, 0)
  }

  lemma HasRbfStep(ms: seq<Module>, k: nat)
    requires k < |ms|
    ensures HasRbf(ms[..k + 1]) <==> HasRbf(ms[..k]) || IsRbf(ms[k].name)
  {
    var a, b := ms[..k], ms[..k + 1];
    if HasRbf(a) {
      var j :| 0 <= j < |a| && IsRbf(a[j].name);
      assert b[j] == a[j];
    }
    if IsRbf(ms[k].name) { assert b[k] == ms[k]; }
    if HasRbf(b) {
      var j :| 0 <= j < |b| && IsRbf(b[j].name);
      if j < k { assert a[j] == b[j]; }
    }
  }

  /** The first k modules are exchanged. */
  predicate ReplacedTo(ms: seq<Module>, rbf: seq<byte>, k: nat, out: seq<seq<byte>>, replaced: bool) {
    k <= |ms| && out == Replaced(ms[..k], rbf) && (replaced <==> HasRbf(ms[..k]))
  }

  lemma ReplacedStart(ms: seq<Module>, rbf: seq<byte>)
    ensures ReplacedTo(ms, rbf, 0, [], false)
  {
  }

  lemma ReplacedStep(ms: seq<Module>, rbf: seq<byte>, k: nat, out: seq<seq<byte>>, replaced: bool)
    requires ReplacedTo(ms, rbf, k, out, replaced) && k < |ms|
    ensures ReplacedTo(ms, rbf, k + 1, out + [if IsRbf(ms[k].name) then rbf else ms[k].bytes],
                       replaced || IsRbf(ms[k].name))
  {
    HasRbfStep(ms, k);
    ReplacedAt(ms[..k], rbf);
    ReplacedAt(ms[..k + 1], rbf);
  }

  /** The loop that exchanges modules. */
  method ReplaceModules(modules: seq<Module>, rbf: seq<byte>) returns (out: seq<seq<byte>>)
    ensures out == NewModules(modules, rbf)
  {
    var replaced := false;
    out := [];
    var k := 0;
    ReplacedStart(modules, rbf);
    while k < |modules|
      invariant ReplacedTo(modules, rbf, k, out, replaced)
    {
      ReplacedStep(modules, rbf, k, out, replaced);
      if IsRbf(modules[k].name) {
        out := out + [rbf];
        replaced := true;
      } else {
        out := out + [modules[k].bytes];
      }
      k := k + 1;
    }
    assert modules[..k] == modules;
    if !replaced {
      out := out + [rbf];
    }
  }

  lemma JoinStep(parts: seq<seq<byte>>, k: nat, out: seq<byte>)
    requires k < |parts| && out + Join(parts[k..]) == Join(parts)
    ensures (out + parts[k]) + Join(parts[k + 1..]) == Join(parts)
  {
    assert parts[k..][1..] == parts[k + 1..];
    ConcatAssoc(out, parts[k], Join(parts[k + 1..]));
  }

  method JoinModules(parts: seq<seq<byte>>) returns (out: seq<byte>)
    ensures out == Join(parts)
  {
    out := [];
    var k := 0;
    while k < |parts|
      invariant 0 <= k <= |parts|
      invariant out + Join(parts[k..]) == Join(parts)
    {
      JoinStep(parts, k, out);
      out := out + parts[k];
      k := k + 1;
    }
    assert parts[k..] == [];
  }

  method BuildRbfBoot(d: seq<byte>, rbf: seq<byte>) returns (out: seq<byte>)
    requires Advances(d, 0)
    ensures out == Rebuilt(d, rbf)
  {
    var modules, trailing := ParseBootfile(d);
    var newModules := ReplaceModules(modules, rbf);
    out := JoinModules(newModules);
    out := out + trailing;
  }

  // ----- parsing what was joined -----

  /** A module whose header lies in its own bytes and states its own length. */
  predicate SelfDescribing(m: seq<byte>) {
    |m| >= 8 && m[0] == 0x4A && m[1] == 0xFC && SizeAt(m, 0) == |m|
  }

  /** Bytes from module k on. */
  function RoomAt(parts: seq<seq<byte>>, t: seq<byte>, k: nat): nat
    requires k <= |parts|
  {
    |Join(parts[k..])| + |t|
  }

  /** From every module on, at least a header's worth of bytes follows. */
  predicate RoomForHeaders(parts: seq<seq<byte>>, t: seq<byte>) {
    forall k :: 0 <= k < |parts| ==> RoomAt(parts, t, k) >= 16
  }

  lemma RoomTail(parts: seq<seq<byte>>, t: seq<byte>)
    requires parts != [] && RoomForHeaders(parts, t)
    ensures RoomForHeaders(parts[1..], t) && |Join(parts)| + |t| >= 16
  {
    assert RoomAt(parts, t, 0) >= 16 && parts[0..] == parts;
    forall k | 0 <= k < |parts[1..]|
      ensures RoomAt(parts[1..], t, k) >= 16
    {
      assert RoomAt(parts, t, k + 1) >= 16 && parts[1..][k..] == parts[k + 1..];
    }
  }

  /** A self-describing module at i is found there, whatever follows. */
  lemma FoundAt(d: seq<byte>, i: nat, m: seq<byte>, rest: seq<byte>)
    requires i <= |d| && d[i..] == m + rest && SelfDescribing(m) && |m| + |rest| >= 16
    ensures Header(d, i) && SizeAt(d, i) == |m| && Slice(d, i, i + |m|) == m
    ensures i + |m| <= |d| && d[i + |m|..] == rest
  {
    assert d[i..][0] == d[i] && d[i..][1] == d[i + 1];
    assert d[i + 4..i + 8] == d[i..][4..8] == m[4..8];
    assert d[i + |m|..] == d[i..][|m|..];
  }

  lemma NoHeader(d: seq<byte>, i: nat)
    requires i <= |d|
    ensures Header(d, i) <==> Header(d[i..], 0)
  {
  }

  predicate AllDescribing(parts: seq<seq<byte>>) {
    forall k :: 0 <= k < |parts| ==> SelfDescribing(parts[k])
  }

  /** A file from i on, as modules and trailing bytes. */
  predicate LaidOut(d: seq<byte>, i: nat, parts: seq<seq<byte>>, t: seq<byte>) {
    i <= |d| && d[i..] == Join(parts) + t && AllDescribing(parts) && RoomForHeaders(parts, t)
  }

  /** Parsing at i finds exactly this module. */
  predicate StartsWith(d: seq<byte>, i: nat, m: seq<byte>) {
    Header(d, i) && SizeAt(d, i) == |m| > 0 && Slice(d, i, i + |m|) == m
  }

  lemma LaidOutNone(d: seq<byte>, i: nat, t: seq<byte>)
    requires LaidOut(d, i, [], t)
    ensures d[i..] == t
  {
  }

  lemma LaidOutTail(d: seq<byte>, i: nat, parts: seq<seq<byte>>, t: seq<byte>)
    requires LaidOut(d, i, parts, t) && parts != []
    ensures var m := parts[0];
            StartsWith(d, i, m) && LaidOut(d, i + |m|, parts[1..], t)
  {
    ConcatAssoc(parts[0], Join(parts[1..]), t);
    RoomTail(parts, t);
    FoundAt(d, i, parts[0], Join(parts[1..]) + t);
  }

  /** From i on the file parses into these modules and these trailing bytes. */
  predicate ParsesTo(d: seq<byte>, i: nat, parts: seq<seq<byte>>, t: seq<byte>) {
    Advances(d, i) && Contents(Modules(d, i)) == parts && Trailing(d, i) == t
  }

  lemma ParseNone(d: seq<byte>, i: nat, t: seq<byte>)
    requires LaidOut(d, i, [], t) && !Header(t, 0)
    ensures ParsesTo(d, i, [], t)
  {
    LaidOutNone(d, i, t);
    NoHeader(d, i);
  }

  lemma ParseEmpty(d: seq<byte>, i: nat, parts: seq<seq<byte>>, t: seq<byte>)
    requires parts == [] && LaidOut(d, i, parts, t) && !Header(t, 0)
    ensures ParsesTo(d, i, parts, t)
  {
    ParseNone(d, i, t);
  }

  /** Any list of self-describing modules before bytes that start no header parses back. */
  lemma {:induction false} ParseJoined(d: seq<byte>, i: nat, parts: seq<seq<byte>>, t: seq<byte>)
    requires LaidOut(d, i, parts, t) && !Header(t, 0)
    ensures ParsesTo(d, i, parts, t)
    decreases |parts|
  {
    if parts == [] {
      ParseEmpty(d, i, parts, t);
    } else {
      var j, rest := LaidOutStep(d, i, parts, t);
      ParseJoined(d, j, rest, t);
      ParseAt(d, i, parts, t, j, rest);
    }
  }

  lemma LaidOutStep(d: seq<byte>, i: nat, parts: seq<seq<byte>>, t: seq<byte>) returns (j: nat, rest: seq<seq<byte>>)
    requires LaidOut(d, i, parts, t) && parts != []
    ensures j == i + |parts[0]| && rest == parts[1..] && StartsWith(d, i, parts[0]) && LaidOut(d, j, rest, t)
  {
    LaidOutTail(d, i, parts, t);
    j, rest := i + |parts[0]|, parts[1..];
  }

  lemma ParseAt(d: seq<byte>, i: nat, parts: seq<seq<byte>>, t: seq<byte>, j: nat, rest: seq<seq<byte>>)
    requires parts != [] && j == i + |parts[0]| && rest == parts[1..]
    requires StartsWith(d, i, parts[0]) && ParsesTo(d, j, rest, t)
    ensures ParsesTo(d, i, parts, t)
  {
    ParseOne(d, i, parts, t);
  }

  lemma ContentsCons(m: Module, ms: seq<Module>, parts: seq<seq<byte>>)
    requires parts != [] && parts[0] == m.bytes && Contents(ms) == parts[1..]
    ensures Contents([m] + ms) == parts
  {
    assert ([m] + ms)[1..] == ms;
  }

  lemma ParseOne(d: seq<byte>, i: nat, parts: seq<seq<byte>>, t: seq<byte>)
    requires parts != [] && StartsWith(d, i, parts[0]) && ParsesTo(d, i + |parts[0]|, parts[1..], t)
    ensures ParsesTo(d, i, parts, t)
  {
    var ms := Modules(d, i + |parts[0]|);
    assert Modules(d, i) == [ModuleAt(d, i)] + ms;
    ContentsCons(ModuleAt(d, i), ms, parts);
  }

  /** Every module of a boot file is complete and at least 8 bytes long, so that its size field
      is its own. */
  predicate WellSized(d: seq<byte>, i: nat)
    requires Advances(d, i)
    decreases |d| - i
  {
    Header(d, i) ==> 8 <= SizeAt(d, i) && i + SizeAt(d, i) <= |d| && WellSized(d, i + SizeAt(d, i))
  }

  lemma DescribesItself(d: seq<byte>, i: nat)
    requires Header(d, i) && 8 <= SizeAt(d, i) && i + SizeAt(d, i) <= |d|
    ensures SelfDescribing(ModuleAt(d, i).bytes)
  {
    var m := ModuleAt(d, i).bytes;
    assert m == d[i..i + SizeAt(d, i)];
    assert m[0 + 4..0 + 8] == d[i + 4..i + 8];
  }

  lemma {:induction false} ParsedDescribe(d: seq<byte>, i: nat)
    requires Advances(d, i) && WellSized(d, i) && i <= |d|
    ensures forall k :: 0 <= k < |Modules(d, i)| ==> SelfDescribing(Modules(d, i)[k].bytes)
    ensures !Header(Trailing(d, i), 0)
    decreases |d| - i
  {
    if Header(d, i) {
      ParsedDescribe(d, i + SizeAt(d, i));
      DescribesItself(d, i);
    } else {
      NoHeader(d, i);
    }
  }

  lemma RoomCons(m: seq<byte>, parts: seq<seq<byte>>, t: seq<byte>)
    requires RoomForHeaders(parts, t) && |m| + |Join(parts)| + |t| >= 16
    ensures RoomForHeaders([m] + parts, t)
  {
    var all := [m] + parts;
    assert all[1..] == parts;
    forall k | 0 <= k < |all|
      ensures RoomAt(all, t, k) >= 16
    {
      if k == 0 { assert all[0..] == all; } else { assert RoomAt(parts, t, k - 1) >= 16 && all[k..] == parts[k - 1..]; }
    }
  }

  lemma {:induction false} ParsedRoom(d: seq<byte>, i: nat)
    requires Advances(d, i)
    ensures RoomForHeaders(Contents(Modules(d, i)), Trailing(d, i))
    decreases |d| - i
  {
    if Header(d, i) {
      var j := i + SizeAt(d, i);
      ParsedRoom(d, j);
      var m, parts, t := ModuleAt(d, i), Contents(Modules(d, j)), Trailing(d, j);
      assert |Join(parts) + t| == |Slice(d, j, |d|)| by { ParsePartitions(d, j); }
      SliceSplit(d, i, j);
      RoomCons(m.bytes, parts, t);
      ContentsCons(m, Modules(d, j), [m.bytes] + parts);
    }
  }

  lemma {:induction false} ReplacedAt(ms: seq<Module>, rbf: seq<byte>)
    ensures |Replaced(ms, rbf)| == |ms|
    ensures forall k :: 0 <= k < |ms| ==>
              Replaced(ms, rbf)[k] == if IsRbf(ms[k].name) then rbf else ms[k].bytes
  {
    if ms != [] { ReplacedAt(ms[1..], rbf); }
  }

  lemma {:induction false} JoinFrom(parts: seq<seq<byte>>, k: nat)
    requires k < |parts|
    ensures |Join(parts)| >= |parts[k]|
  {
    if k > 0 { JoinFrom(parts[1..], k - 1); }
  }

  lemma NewRoomAt(ms: seq<Module>, rbf: seq<byte>, t: seq<byte>, k: nat)
    requires |rbf| >= 16 && RoomForHeaders(Contents(ms), t) && k < |NewModules(ms, rbf)|
    ensures RoomAt(NewModules(ms, rbf), t, k) >= 16
  {
    ReplacedAt(ms, rbf);
    if !HasRbf(ms) || HasRbf(ms[k..]) {
      var j := NewBehind(ms, rbf, k);
      JoinFrom(NewModules(ms, rbf)[k..], j);
    } else {
      NothingReplaced(ms, rbf, k);
      assert RoomAt(Contents(ms), t, k) >= 16;
    }
  }

  /** The new module stands at k or behind it. */
  lemma NewBehind(ms: seq<Module>, rbf: seq<byte>, k: nat) returns (j: nat)
    requires k < |NewModules(ms, rbf)| && (!HasRbf(ms) || (k <= |ms| && HasRbf(ms[k..])))
    ensures j < |NewModules(ms, rbf)[k..]| && NewModules(ms, rbf)[k..][j] == rbf
  {
    ReplacedAt(ms, rbf);
    if !HasRbf(ms) {
      j := |ms| - k;
    } else {
      j :| 0 <= j < |ms[k..]| && IsRbf(ms[k..][j].name);
      assert ms[k..][j] == ms[k + j];
    }
  }

  /** Replacing keeps room for every header: behind a replaced module the new one is long enough,
      and where nothing is replaced nothing changes. */
  lemma NewRoom(ms: seq<Module>, rbf: seq<byte>, t: seq<byte>)
    requires |rbf| >= 16 && RoomForHeaders(Contents(ms), t)
    ensures RoomForHeaders(NewModules(ms, rbf), t)
  {
    forall k | 0 <= k < |NewModules(ms, rbf)|
      ensures RoomAt(NewModules(ms, rbf), t, k) >= 16
    {
      NewRoomAt(ms, rbf, t, k);
    }
  }

  lemma NothingReplaced(ms: seq<Module>, rbf: seq<byte>, k: nat)
    requires k < |ms| && HasRbf(ms) && !HasRbf(ms[k..])
    ensures |NewModules(ms, rbf)| == |ms|
    ensures NewModules(ms, rbf)[k..] == Contents(ms)[k..]
  {
    ReplacedAt(ms, rbf);
    forall j | k <= j < |ms|
      ensures Replaced(ms, rbf)[j] == ms[j].bytes
    {
      NotRbf(ms, k, j);
    }
    SameFrom(Replaced(ms, rbf), Contents(ms), k);
  }

  lemma SameFrom(x: seq<seq<byte>>, y: seq<seq<byte>>, k: nat)
    requires k <= |x| == |y| && forall j :: k <= j < |x| ==> x[j] == y[j]
    ensures (x + [])[k..] == y[k..]
  {
  }

  lemma NotRbf(ms: seq<Module>, k: nat, j: nat)
    requires k <= j < |ms| && !HasRbf(ms[k..])
    ensures !IsRbf(ms[j].name)
  {
    assert ms[k..][j - k] == ms[j];
  }

  /** Parsing the rebuilt file gives the same modules in the same order with every `rbf` exchanged
      (or one appended), and the same trailing bytes. */
  lemma ReparseRebuilt(d: seq<byte>, rbf: seq<byte>)
    requires Advances(d, 0) && WellSized(d, 0)
    requires SelfDescribing(rbf) && |rbf| >= 16
    ensures var out := Rebuilt(d, rbf);
            && Advances(out, 0)
            && Contents(Modules(out, 0)) == NewModules(Modules(d, 0), rbf)
            && Trailing(out, 0) == Trailing(d, 0)
  {
    var ms, t := Modules(d, 0), Trailing(d, 0);
    var out := Rebuilt(d, rbf);
    ParsedDescribe(d, 0);
    ParsedRoom(d, 0);
    NewRoom(ms, rbf, t);
    ReplacedAt(ms, rbf);
    assert out[0..] == out;
    ParseJoined(out, 0, NewModules(ms, rbf), t);
  }

  // ----- names, and rebuilding twice -----

  function OwnName(m: seq<byte>): seq<byte>
    requires |m| >= 16
  {
    var off := Be(m[12..16]);
    UpToNul(Slice(m, off, off + 32))
  }

  /** The name string ends inside the module, or fills its 32 bytes there. */
  predicate NameInside(m: seq<byte>) {
    && |m| >= 16
    && var off := Be(m[12..16]);
       off + 32 <= |m| || 0 in Slice(m, off, off + 32)
  }

  lemma {:induction false} UpToNulPrefix(s: seq<byte>, x: seq<byte>)
    requires 0 in s
    ensures UpToNul(s + x) == UpToNul(s)
  {
    assert (s + x)[0] == s[0];
    if s[0] != 0 {
      assert (s + x)[1..] == s[1..] + x;
      UpToNulPrefix(s[1..], x);
    }
  }

  lemma SliceInside(d: seq<byte>, i: nat, m: seq<byte>, off: nat)
    requires i + |m| <= |d| && d[i..i + |m|] == m
    ensures Slice(m, off, off + 32) <= Slice(d, i + off, i + off + 32)
    ensures off + 32 <= |m| ==> Slice(m, off, off + 32) == Slice(d, i + off, i + off + 32)
  {
    var inside, seen := Slice(m, off, off + 32), Slice(d, i + off, i + off + 32);
    forall k | 0 <= k < |inside|
      ensures k < |seen| && inside[k] == seen[k]
    {
      assert m[off + k] == d[i..i + |m|][off + k];
    }
  }

  lemma SameOffset(d: seq<byte>, i: nat, m: seq<byte>)
    requires 16 <= |m| && i + |m| <= |d| && d[i..i + |m|] == m
    ensures d[i + 12..i + 16] == m[12..16]
  {
    SubSlice(d, i, i + |m|, 12, 16);
  }

  /** Such a name is the same wherever the module stands. */
  lemma NameStays(d: seq<byte>, i: nat, m: seq<byte>)
    requires Header(d, i) && NameInside(m) && i + |m| <= |d| && d[i..i + |m|] == m
    ensures NameAt(d, i) == OwnName(m)
  {
    SameOffset(d, i, m);
    var off := Be(m[12..16]);
    SliceInside(d, i, m, off);
    SameName(Slice(m, off, off + 32), Slice(d, i + off, i + off + 32));
  }

  lemma SameName(inside: seq<byte>, seen: seq<byte>)
    requires inside <= seen && (inside == seen || 0 in inside)
    ensures UpToNul(seen) == UpToNul(inside)
  {
    if inside != seen {
      assert seen == inside + seen[|inside|..];
      UpToNulPrefix(inside, seen[|inside|..]);
    }
  }

  /** The name a module goes by is the one in its own bytes. */
  predicate OwnNamed(m: Module) {
    NameInside(m.bytes) ==> m.name == OwnName(m.bytes)
  }

  lemma ModuleOwnNamed(d: seq<byte>, i: nat)
    requires Header(d, i) && i + SizeAt(d, i) <= |d|
    ensures OwnNamed(ModuleAt(d, i))
  {
    var m := ModuleAt(d, i);
    assert m.bytes == d[i..i + SizeAt(d, i)];
    if NameInside(m.bytes) { NameStays(d, i, m.bytes); }
  }

  lemma ModulesCons(d: seq<byte>, i: nat)
    requires Advances(d, i) && Modules(d, i) != []
    ensures Header(d, i) && Advances(d, i + SizeAt(d, i))
    ensures Modules(d, i) == [ModuleAt(d, i)] + Modules(d, i + SizeAt(d, i))
  {
  }

  lemma {:induction false} ParsedNames(d: seq<byte>, i: nat, k: nat)
    requires Advances(d, i) && WellSized(d, i) && i <= |d| && k < |Modules(d, i)|
    ensures OwnNamed(Modules(d, i)[k])
    decreases |d| - i
  {
    ModulesCons(d, i);
    if k == 0 {
      ModuleOwnNamed(d, i);
    } else {
      ParsedNames(d, i + SizeAt(d, i), k - 1);
    }
  }

  lemma {:induction false} LaidOutWellSized(d: seq<byte>, i: nat, parts: seq<seq<byte>>, t: seq<byte>)
    requires LaidOut(d, i, parts, t) && !Header(t, 0) && Advances(d, i)
    ensures WellSized(d, i)
    decreases |parts|
  {
    if parts == [] {
      LaidOutNone(d, i, t);
      NoHeader(d, i);
    } else {
      LaidOutTail(d, i, parts, t);
      LaidOutWellSized(d, i + |parts[0]|, parts[1..], t);
    }
  }

  /** The rebuilt file again has only complete modules. */
  lemma RebuiltWellSized(d: seq<byte>, rbf: seq<byte>)
    requires Advances(d, 0) && WellSized(d, 0)
    requires SelfDescribing(rbf) && |rbf| >= 16
    ensures Advances(Rebuilt(d, rbf), 0) && WellSized(Rebuilt(d, rbf), 0)
  {
    var ms, t, out := Modules(d, 0), Trailing(d, 0), Rebuilt(d, rbf);
    ParsedDescribe(d, 0);
    ParsedRoom(d, 0);
    NewRoom(ms, rbf, t);
    ReplacedAt(ms, rbf);
    assert out[0..] == out;
    ParseJoined(out, 0, NewModules(ms, rbf), t);
    LaidOutWellSized(out, 0, NewModules(ms, rbf), t);
  }

  lemma ReplaceNothing(ms: seq<Module>, rbf: seq<byte>)
    requires HasRbf(ms)
    requires forall k :: 0 <= k < |ms| && IsRbf(ms[k].name) ==> ms[k].bytes == rbf
    ensures NewModules(ms, rbf) == Contents(ms)
  {
    ReplacedAt(ms, rbf);
  }

  /** What the modules of the rebuilt file are called. */
  lemma RebuiltName(ms: seq<Module>, m': Module, k: nat, rbf: seq<byte>)
    requires k < |NewModules(ms, rbf)| && m'.bytes == NewModules(ms, rbf)[k]
    requires OwnNamed(m') && NameInside(rbf) && IsRbf(OwnName(rbf))
    requires k < |ms| ==> OwnNamed(ms[k]) && NameInside(ms[k].bytes)
    ensures IsRbf(m'.name) ==> m'.bytes == rbf
    ensures k >= |ms| || IsRbf(ms[k].name) ==> IsRbf(m'.name)
  {
    ReplacedAt(ms, rbf);
    if k < |ms| && !IsRbf(ms[k].name) { assert m'.bytes == ms[k].bytes && m'.name == ms[k].name; }
    else { assert m'.bytes == rbf; }
  }

  /** Putting the same `rbf` in twice is putting it in once. */
  lemma RebuildIdempotent(d: seq<byte>, rbf: seq<byte>)
    requires Advances(d, 0) && WellSized(d, 0)
    requires SelfDescribing(rbf) && NameInside(rbf) && IsRbf(OwnName(rbf))
    requires forall k :: 0 <= k < |Modules(d, 0)| ==> NameInside(Modules(d, 0)[k].bytes)
    ensures Advances(Rebuilt(d, rbf), 0)
    ensures Rebuilt(Rebuilt(d, rbf), rbf) == Rebuilt(d, rbf)
  {
    var out := Rebuilt(d, rbf);
    RebuiltWellSized(d, rbf);
    ReparseRebuilt(d, rbf);
    var ms, ms' := Modules(d, 0), Modules(out, 0);
    forall k | 0 <= k < |ms'|
      ensures IsRbf(ms'[k].name) ==> ms'[k].bytes == rbf
      ensures k == |ms| || (k < |ms| && IsRbf(ms[k].name)) ==> IsRbf(ms'[k].name)
    {
      ParsedNames(out, 0, k);
      if k < |ms| { ParsedNames(d, 0, k); }
      ReplacedAt(ms, rbf);
      RebuiltName(ms, ms'[k], k, rbf);
    }
    assert HasRbf(ms') by {
      ReplacedAt(ms, rbf);
      if HasRbf(ms) {
        var k :| 0 <= k < |ms| && IsRbf(ms[k].name);
        assert IsRbf(ms'[k].name);
      } else {
        assert IsRbf(ms'[|ms|].name);
      }
    }
    ReplaceNothing(ms', rbf);
  }

  /** The size condition is needed: a 7-byte module takes the last byte of its size field from
      whatever follows it, so appending a module behind it changes its size. */
  lemma SevenByteModuleBreaks(rbf: seq<byte>)
    requires SelfDescribing(rbf) && |rbf| >= 16
    ensures var d: seq<byte> := [0x4A, 0xFC, 0, 0, 0, 0, 0, 7, 0, 0, 0, 0, 0, 0, 0, 0];
            && Advances(d, 0) && |Modules(d, 0)| == 1 && |Modules(d, 0)[0].bytes| == 7
            && var out := Rebuilt(d, rbf);
               Advances(out, 0) ==> Contents(Modules(out, 0)) != NewModules(Modules(d, 0), rbf)
  {
    var d: seq<byte> := [0x4A, 0xFC, 0, 0, 0, 0, 0, 7, 0, 0, 0, 0, 0, 0, 0, 0];
    SevenBytes(d);
    SevenRebuilt(d, rbf);
    FirstIsLong(d[..7], rbf, d[7..], Rebuilt(d, rbf));
  }

  /** Seven bytes of a header with a size below 256, and 0x4A behind them. */
  lemma FirstIsLong(head: seq<byte>, rbf: seq<byte>, t: seq<byte>, out: seq<byte>)
    requires |head| == 7 && head[0] == 0x4A && head[1] == 0xFC && head[4] == 0 && head[5] == 0 && head[6] == 0
    requires |rbf| >= 16 && rbf[0] == 0x4A && out == (head + rbf) + t
    ensures Advances(out, 0) ==> Contents(Modules(out, 0)) != [head, rbf]
  {
    assert out[4] == head[4] && out[5] == head[5] && out[6] == head[6] && out[7] == rbf[0];
    BeLast(out[0 + 4..0 + 8]);
    assert Header(out, 0) && SizeAt(out, 0) == 0x4A;
    if Advances(out, 0) {
      ModulesCons(out, 0);
      assert |Slice(out, 0, 0x4A)| > 7;
    }
  }

  lemma SevenRebuilt(d: seq<byte>, rbf: seq<byte>)
    requires Header(d, 0) && SizeAt(d, 0) == 7 && !Header(d, 7) && Advances(d, 0)
    requires !IsRbf(NameAt(d, 0)) && ModuleAt(d, 0).bytes == d[..7] && Trailing(d, 0) == d[7..]
    ensures |Modules(d, 0)| == 1 && Modules(d, 0)[0].bytes == d[..7]
    ensures NewModules(Modules(d, 0), rbf) == [d[..7], rbf]
    ensures Rebuilt(d, rbf) == (d[..7] + rbf) + d[7..]
  {
    var m := ModuleAt(d, 0);
    assert Modules(d, 0) == [m] + Modules(d, 7) == [m];
    ReplacedAt([m], rbf);
    assert NewModules([m], rbf) == [m.bytes, rbf];
    assert [m.bytes, rbf][1..] == [rbf] && [rbf][1..] == [];
    assert Join([rbf]) == rbf + [] == rbf;
  }

  lemma BeLast(s: seq<byte>)
    requires |s| == 4 && s[0] == 0 && s[1] == 0 && s[2] == 0
    ensures Be(s) == s[3]
  {
    assert s[..3][..2][..1][..0] == [];
    assert Be(s[..3][..2][..1]) == 0;
    assert Be(s[..3][..2]) == 0;
    assert Be(s[..3]) == 0;
  }

  lemma SevenBytes(d: seq<byte>)
    requires d == [0x4A, 0xFC, 0, 0, 0, 0, 0, 7, 0, 0, 0, 0, 0, 0, 0, 0]
    ensures Header(d, 0) && SizeAt(d, 0) == 7 && !Header(d, 7) && Advances(d, 0)
    ensures !IsRbf(NameAt(d, 0)) && ModuleAt(d, 0).bytes == d[..7] && Trailing(d, 0) == d[7..]
  {
    BeLast(d[0 + 4..0 + 8]);
    BeLast(d[0 + 12..0 + 16]);
    assert Advances(d, 7) && EndOf(d, 7) == 7;
    var s := Slice(d, 0, 32);
    assert s == d && NameAt(d, 0) == UpToNul(s);
    assert UpToNul(s) == [s[0]] + UpToNul(s[1..]);
  }
}
