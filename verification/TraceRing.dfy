/** q9trace_decode.py: unwrap the trace ring, cut it into records, and pair entries with returns. */
module TraceRing {
  import opened Bytes
  import opened Options

  datatype Item = Good(off: nat, bytes: seq<byte>) | Bad(off: nat, bytes: seq<byte>) | BadBounds

  predicate BoundsOk(data: seq<byte>, size: nat, rd: nat, used: nat) {
    size > 0 && rd < size && used <= size && |data| >= size
  }

  /** The ring read from rd, `used` bytes long. */
  function Unwrap(data: seq<byte>, size: nat, rd: nat, used: nat): (s: seq<byte>)
    requires BoundsOk(data, size, rd, used)
    ensures |s| == used && forall i :: 0 <= i < used ==> s[i] == data[(rd + i) % size]
  {
    seq(used, i requires 0 <= i < used => data[(rd + i) % size])
  }

  /** A record header: at least 12 bytes, and its length byte is possible. */
  predicate Framed(s: seq<byte>, off: nat) {
    off + 12 <= |s| && 12 <= s[off + 1] && off + s[off + 1] <= |s|
  }

  function Broken(s: seq<byte>, off: nat): Item
    requires off < |s| && !Framed(s, off)
  {
    if off + 12 > |s| then Bad(off, s[off..])
    else
      var longer: nat := if s[off + 1] > 12 then s[off + 1] else 12;
      Bad(off, s[off..if off + longer < |s| then off + longer else |s|])
  }

  function Decode(s: seq<byte>, off: nat): seq<Item>
    requires off <= |s|
    decreases |s| - off
  {
    if off == |s| then []
    else if !Framed(s, off) then [Broken(s, off)]
    else [Good(off, s[off..off + s[off + 1]])] + Decode(s, off + s[off + 1])
  }

  method Records(data: seq<byte>, size: nat, rd: nat, used: nat) returns (items: seq<Item>)
    ensures items == if BoundsOk(data, size, rd, used) then Decode(Unwrap(data, size, rd, used), 0)
                     else [BadBounds]
  {
    if size <= 0 || rd >= size || used > size || |data| < size {
      return [BadBounds];
    }
    items := CutRecords(Unwrap(data, size, rd, used));
  }

  lemma DecodeStep(items: seq<Item>, s: seq<byte>, off: nat, all: seq<Item>)
    requires off < |s| && items + Decode(s, off) == all
    ensures !Framed(s, off) ==> items + [Broken(s, off)] == all
    ensures Framed(s, off) ==> (items + [Good(off, s[off..off + s[off + 1]])]) + Decode(s, off + s[off + 1]) == all
  {
    if Framed(s, off) {
      ConcatAssoc(items, [Good(off, s[off..off + s[off + 1]])], Decode(s, off + s[off + 1]));
    }
  }

  method CutRecords(stream: seq<byte>) returns (items: seq<Item>)
    ensures items == Decode(stream, 0)
  {
    ghost var all := Decode(stream, 0);
    items := [];
    var off: nat := 0;
    while off < |stream|
      invariant off <= |stream| && items + Decode(stream, off) == all
    {
      DecodeStep(items, stream, off, all);
      if !Framed(stream, off) {
        return items + [Broken(stream, off)];
      }
      items := items + [Good(off, stream[off..off + stream[off + 1]])];
      off := off + stream[off + 1];
    }
  }

  // ----- framing -----

  predicate WellFormed(r: seq<byte>) {
    |r| >= 12 && r[1] == |r|
  }

  predicate AllWellFormed(rs: seq<seq<byte>>) {
    forall k :: 0 <= k < |rs| ==> WellFormed(rs[k])
  }

  /** The records accepted before the first unreadable one. */
  function Accepted(items: seq<Item>): seq<seq<byte>> {
    if items == [] || !items[0].Good? then [] else [items[0].bytes] + Accepted(items[1..])
  }

  function Listed(rs: seq<seq<byte>>, off: nat): seq<Item> {
    if rs == [] then [] else [Good(off, rs[0])] + Listed(rs[1..], off + |rs[0]|)
  }

  /** The stream from off on is this list of records. */
  predicate Laid(s: seq<byte>, off: nat, rs: seq<seq<byte>>) {
    off <= |s| && s[off..] == Join(rs) && AllWellFormed(rs)
  }

  /** The record r stands at off. */
  predicate RecordAt(s: seq<byte>, off: nat, r: seq<byte>) {
    Framed(s, off) && s[off + 1] == |r| && s[off..off + |r|] == r
  }

  predicate DecodesTo(s: seq<byte>, off: nat, items: seq<Item>) {
    off <= |s| && Decode(s, off) == items
  }

  lemma LaidNone(s: seq<byte>, off: nat)
    requires Laid(s, off, [])
    ensures DecodesTo(s, off, [])
  {
    assert |s[off..]| == 0;
  }

  lemma LaidTail(s: seq<byte>, off: nat, rs: seq<seq<byte>>)
    requires Laid(s, off, rs) && rs != []
    ensures RecordAt(s, off, rs[0]) && Laid(s, off + |rs[0]|, rs[1..])
  {
    FirstRecord(s, off, rs[0], Join(rs[1..]));
  }

  lemma DecodeRecord(s: seq<byte>, off: nat, r: seq<byte>, items: seq<Item>)
    requires RecordAt(s, off, r) && DecodesTo(s, off + |r|, items)
    ensures DecodesTo(s, off, [Good(off, r)] + items)
  {
    var n: nat := s[off + 1];
    assert n == |r| && s[off..off + n] == r;
  }

  /** Every list of well-formed records decodes to exactly that list. */
  lemma {:induction false} DecodeJoined(s: seq<byte>, off: nat, rs: seq<seq<byte>>)
    requires Laid(s, off, rs)
    ensures DecodesTo(s, off, Listed(rs, off))
    decreases |rs|
  {
    if rs == [] {
      LaidNone(s, off);
    } else {
      LaidTail(s, off, rs);
      DecodeJoined(s, off + |rs[0]|, rs[1..]);
      DecodeRecord(s, off, rs[0], Listed(rs[1..], off + |rs[0]|));
    }
  }

  lemma FirstRecord(s: seq<byte>, off: nat, r: seq<byte>, rest: seq<byte>)
    requires off <= |s| && s[off..] == r + rest && WellFormed(r)
    ensures RecordAt(s, off, r) && s[off + |r|..] == rest
  {
    assert s[off..][1] == s[off + 1];
    assert s[off..][..|r|] == r && s[off..][|r|..] == rest;
  }

  lemma {:induction false} AcceptedListed(rs: seq<seq<byte>>, off: nat)
    ensures Accepted(Listed(rs, off)) == rs
    ensures forall k :: 0 <= k < |Listed(rs, off)| ==> Listed(rs, off)[k].Good?
  {
    if rs != [] {
      var l := Listed(rs[1..], off + |rs[0]|);
      AcceptedListed(rs[1..], off + |rs[0]|);
      assert ([Good(off, rs[0])] + l)[1..] == l;
    }
  }

  /** These items account for the stream from off on: records that are well formed and lie there one
      behind the other, up to its end, or up to one unreadable item at the first place where no
      record starts. */
  predicate Accounts(s: seq<byte>, off: nat, items: seq<Item>) {
    var rs := Accepted(items);
    var end := off + |Join(rs)|;
    && AllWellFormed(rs) && end <= |s| && Join(rs) == s[off..end]
    && |rs| <= |items| <= |rs| + 1
    && (|items| == |rs| <==> end == |s|)
    && (|items| > |rs| ==> !Framed(s, end) && items[|rs|] == Broken(s, end))
  }

  /** On any bytes, decoding accounts for the whole stream. */
  lemma {:induction false} DecodePrefix(s: seq<byte>, off: nat)
    requires off <= |s|
    ensures Accounts(s, off, Decode(s, off))
    decreases |s| - off
  {
    if off < |s| && Framed(s, off) {
      var r := s[off..off + s[off + 1]];
      DecodePrefix(s, off + |r|);
      AccountsMore(s, off, r, Decode(s, off + |r|));
      DecodeUnfold(s, off, r);
    } else {
      AccountsEnd(s, off);
    }
  }

  lemma DecodeUnfold(s: seq<byte>, off: nat, r: seq<byte>)
    requires Framed(s, off) && r == s[off..off + s[off + 1]]
    ensures Decode(s, off) == [Good(off, r)] + Decode(s, off + |r|)
  {
  }

  lemma AccountsEnd(s: seq<byte>, off: nat)
    requires off <= |s| && !Framed(s, off)
    ensures Accounts(s, off, Decode(s, off))
  {
    var items := Decode(s, off);
    assert Accepted(items) == [];
    assert s[off..off] == [];
  }

  lemma AccountsMore(s: seq<byte>, off: nat, r: seq<byte>, rest: seq<Item>)
    requires WellFormed(r) && off + |r| <= |s| && s[off..off + |r|] == r && Accounts(s, off + |r|, rest)
    ensures Accounts(s, off, [Good(off, r)] + rest)
  {
    var items, rs := [Good(off, r)] + rest, Accepted(rest);
    assert items[1..] == rest;
    assert Accepted(items) == [r] + rs;
    AcceptedStep(s, off, r, rs);
  }

  lemma AcceptedStep(s: seq<byte>, off: nat, r: seq<byte>, rs: seq<seq<byte>>)
    requires AllWellFormed(rs) && WellFormed(r)
    requires off + |r| + |Join(rs)| <= |s| && s[off..off + |r|] == r
    requires Join(rs) == s[off + |r|..off + |r| + |Join(rs)|]
    ensures AllWellFormed([r] + rs) && |Join([r] + rs)| == |r| + |Join(rs)|
    ensures Join([r] + rs) == s[off..off + |Join([r] + rs)|]
  {
    assert ([r] + rs)[1..] == rs;
    assert s[off..off + |r| + |Join(rs)|] == s[off..off + |r|] + s[off + |r|..off + |r| + |Join(rs)|];
  }

  /** Decoding is clean exactly on the concatenations of well-formed records. */
  lemma CleanIffJoined(s: seq<byte>)
    ensures |Decode(s, 0)| == |Accepted(Decode(s, 0))|
            <==> exists rs :: AllWellFormed(rs) && s == Join(rs)
  {
    DecodePrefix(s, 0);
    var rs := Accepted(Decode(s, 0));
    if |Decode(s, 0)| == |rs| {
      assert s[0..|s|] == s;
      assert AllWellFormed(rs) && s == Join(rs);
    }
    if rs' :| AllWellFormed(rs') && s == Join(rs') {
      assert s[0..] == s;
      DecodeJoined(s, 0, rs');
      AcceptedListed(rs', 0);
      ListedLength(rs', 0);
    }
  }

  lemma {:induction false} ListedLength(rs: seq<seq<byte>>, off: nat)
    ensures |Listed(rs, off)| == |rs|
  {
    if rs != [] { ListedLength(rs[1..], off + |rs[0]|); }
  }

  // ----- the ring -----

  /** The ring after writing a stream at rd, wrapping round. */
  function Lay(ring: seq<byte>, rd: nat, s: seq<byte>): (r: seq<byte>)
    requires rd < |ring|
    ensures |r| == |ring|
  {
    if s == [] then ring
    else Lay(ring, rd, s[..|s| - 1])[(rd + |s| - 1) % |ring| := s[|s| - 1]]
  }

  lemma ModInjective(a: nat, i: nat, j: nat, n: nat)
    requires n > 0 && a < n && i < j < n
    ensures (a + i) % n != (a + j) % n
  {
    ModCase(a + i, n);
    ModCase(a + j, n);
  }

  lemma ModCase(x: nat, n: nat)
    requires n > 0 && x < 2 * n
    ensures x % n == if x < n then x else x - n
  {
    if x >= n {
      assert x == (x - n) + 1 * n;
      assert (x - n) / n == 0;
    }
  }

  lemma {:induction false} LayAt(ring: seq<byte>, rd: nat, s: seq<byte>, i: nat)
    requires rd < |ring| && i < |s| <= |ring|
    ensures Lay(ring, rd, s)[(rd + i) % |ring|] == s[i]
  {
    if i < |s| - 1 {
      LayAt(ring, rd, s[..|s| - 1], i);
      ModInjective(rd, i, |s| - 1, |ring|);
    }
  }

  /** Whatever was in the ring, and wherever the reader stands, a list of well-formed records
      that fits is decoded to exactly that list. */
  lemma RingRoundTrip(ring: seq<byte>, rd: nat, rs: seq<seq<byte>>)
    requires rd < |ring| && AllWellFormed(rs) && |Join(rs)| <= |ring|
    ensures var s := Join(rs);
            var data := Lay(ring, rd, s);
            && BoundsOk(data, |ring|, rd, |s|)
            && Decode(Unwrap(data, |ring|, rd, |s|), 0) == Listed(rs, 0)
            && Accepted(Decode(Unwrap(data, |ring|, rd, |s|), 0)) == rs
  {
    var s := Join(rs);
    var data := Lay(ring, rd, s);
    var u := Unwrap(data, |ring|, rd, |s|);
    forall i | 0 <= i < |s|
      ensures u[i] == s[i]
    {
      LayAt(ring, rd, s, i);
    }
    assert u == s && u[0..] == u;
    DecodeJoined(u, 0, rs);
    AcceptedListed(rs, 0);
  }

  // ----- pairing -----

  datatype Key = Key(pid: nat, depth: nat, code: nat)

  /** The fields of a decoded record that pairing looks at. */
  datatype Rec = Rec(kind: byte, key: Key)

  /** Header fields of a record: type, call code, depth in the low flag bits, process id. */
  function ParseHead(r: seq<byte>): Rec
    requires |r| >= 12
  {
    Rec(r[0], Key(256 * (r[4] as int) + r[5], r[3] % 16, r[2]))
  }

  predicate IsCall(r: Rec) { r.kind == 1 || r.kind == 2 }

  /** No entry or return with this key in recs[lo..hi]. */
  predicate Quiet(recs: seq<Rec>, key: Key, lo: int, hi: int)
    requires 0 <= lo && hi <= |recs|
  {
    forall k :: lo <= k < hi && IsCall(recs[k]) ==> recs[k].key != key
  }

  /** Entry i and return j belong together: same key, and nothing with that key between them. */
  predicate Paired(recs: seq<Rec>, i: nat, j: nat) {
    && i < j < |recs|
    && recs[i].kind == 1 && recs[j].kind == 2 && recs[i].key == recs[j].key
    && Quiet(recs, recs[i].key, i + 1, j)
  }

  /** Entry i is still waiting when the first n records are done. */
  predicate Waiting(recs: seq<Rec>, i: nat, n: nat)
    requires n <= |recs|
  {
    i < n && recs[i].kind == 1 && Quiet(recs, recs[i].key, i + 1, n)
  }

  method Pair(recs: seq<Rec>) returns (ret: seq<Option<nat>>, entry: seq<Option<nat>>)
    ensures |ret| == |entry| == |recs|
    ensures forall i: nat, j: nat :: i < |recs| ==> (ret[i] == Some(j) <==> Paired(recs, i, j))
    ensures forall i: nat, j: nat :: j < |recs| ==> (entry[j] == Some(i) <==> Paired(recs, i, j))
  {
    ret, entry := seq(|recs|, _ => None), seq(|recs|, _ => None);
    var openCalls: map<Key, nat> := map[];
    var n := 0;
    while n < |recs|
      invariant 0 <= n <= |recs| && |ret| == |entry| == |recs|
      invariant forall key :: key in openCalls ==> Waiting(recs, openCalls[key], n) && recs[openCalls[key]].key == key
      invariant forall i: nat :: Waiting(recs, i, n) ==> recs[i].key in openCalls && openCalls[recs[i].key] == i
      invariant forall i: nat, j: nat :: i < |recs| ==> (ret[i] == Some(j) <==> j < n && Paired(recs, i, j))
      invariant forall i: nat, j: nat :: j < |recs| ==> (entry[j] == Some(i) <==> j < n && Paired(recs, i, j))
    {
      var r := recs[n];
      if r.kind == 1 {
        openCalls := openCalls[r.key := n];
      } else if r.kind == 2 {
        if r.key in openCalls {
          var e := openCalls[r.key];
          ret, entry := ret[e := Some(n)], entry[n := Some(e)];
          openCalls := openCalls - {r.key};
        }
      }
      n := n + 1;
    }
  }

  function Heads(rs: seq<seq<byte>>): (h: seq<Rec>)
    requires AllWellFormed(rs)
    ensures |h| == |rs| && forall k :: 0 <= k < |rs| ==> h[k] == ParseHead(rs[k])
  {
    seq(|rs|, k requires 0 <= k < |rs| => ParseHead(rs[k]))
  }

  /** The accepted records are the items up to the first unreadable one. */
  lemma {:induction false} AcceptedItems(items: seq<Item>)
    ensures var rs := Accepted(items);
            && |rs| <= |items|
            && (forall k :: 0 <= k < |rs| ==> items[k].Good? && items[k].bytes == rs[k])
            && (|rs| < |items| ==> !items[|rs|].Good?)
  {
    if items != [] && items[0].Good? {
      AcceptedItems(items[1..]);
      assert forall k :: 0 < k < |items| ==> items[k] == items[1..][k - 1];
    }
  }

  method ParseItems(items: seq<Item>) returns (recs: seq<Rec>)
    requires AllWellFormed(Accepted(items))
    ensures recs == Heads(Accepted(items))
  {
    ghost var rs := Accepted(items);
    AcceptedItems(items);
    recs := [];
    var n := 0;
    while n < |items| && items[n].Good?
      invariant 0 <= n <= |rs| && recs == Heads(rs)[..n]
    {
      recs := recs + [ParseHead(items[n].bytes)];
      n := n + 1;
    }
  }

  /** What is readable of a dump: the accepted records of its stream, or nothing. */
  function Readable(data: seq<byte>, size: nat, rd: nat, used: nat): (rs: seq<seq<byte>>)
    ensures AllWellFormed(rs)
  {
    if BoundsOk(data, size, rd, used) then
      var s := Unwrap(data, size, rd, used);
      DecodePrefix(s, 0);
      Accepted(Decode(s, 0))
    else []
  }

  /** From the dump to the pairs: the readable records, in order, paired among themselves. */
  method PairTrace(data: seq<byte>, size: nat, rd: nat, used: nat)
    returns (recs: seq<Rec>, ret: seq<Option<nat>>, entry: seq<Option<nat>>)
    ensures recs == Heads(Readable(data, size, rd, used))
    ensures |ret| == |entry| == |recs|
    ensures forall i: nat, j: nat :: i < |recs| ==> (ret[i] == Some(j) <==> Paired(recs, i, j))
    ensures forall i: nat, j: nat :: j < |recs| ==> (entry[j] == Some(i) <==> Paired(recs, i, j))
  {
    var items := Records(data, size, rd, used);
    assert Accepted(items) == Readable(data, size, rd, used);
    recs := ParseItems(items);
    ret, entry := Pair(recs);
  }

  /** Two records of the same process, depth and call, in their bytes. */
  predicate SameCall(x: seq<byte>, y: seq<byte>)
    requires |x| >= 12 && |y| >= 12
  {
    x[4] == y[4] && x[5] == y[5] && x[2] == y[2] && x[3] % 16 == y[3] % 16
  }

  /** An entry record and the next record of the same call behind it, which is a return. */
  ghost predicate PairedBytes(rs: seq<seq<byte>>, i: nat, j: nat)
    requires AllWellFormed(rs)
  {
    && i < j < |rs| && rs[i][0] == 1 && rs[j][0] == 2 && SameCall(rs[i], rs[j])
    && forall k :: i < k < j && SameCall(rs[i], rs[k]) ==> rs[k][0] != 1 && rs[k][0] != 2
  }

  lemma SameCallIff(x: seq<byte>, y: seq<byte>)
    requires |x| >= 12 && |y| >= 12
    ensures ParseHead(x).key == ParseHead(y).key <==> SameCall(x, y)
  {
  }

  /** What pairing means for the bytes of the records. */
  lemma PairedInBytes(rs: seq<seq<byte>>, i: nat, j: nat)
    requires AllWellFormed(rs)
    ensures Paired(Heads(rs), i, j) <==> PairedBytes(rs, i, j)
  {
    var recs := Heads(rs);
    if i < j < |rs| {
      forall k | i <= k <= j
        ensures recs[i].key == recs[k].key <==> SameCall(rs[i], rs[k])
        ensures IsCall(recs[k]) <==> rs[k][0] == 1 || rs[k][0] == 2
      {
        SameCallIff(rs[i], rs[k]);
      }
    }
  }

  /** The two tables are mutually inverse partial injections: an entry has at most one return and
      a return at most one entry. */
  lemma PairedUnique(recs: seq<Rec>, i: nat, i': nat, j: nat, j': nat)
    requires Paired(recs, i, j) && Paired(recs, i', j')
    ensures i == i' <==> j == j'
  {
    if i == i' {
      QuietUpTo(recs, recs[i].key, i + 1, j', j);
      QuietUpTo(recs, recs[i].key, i + 1, j, j');
    }
    if j == j' {
      QuietUpTo(recs, recs[i].key, i + 1, j, i');
      QuietUpTo(recs, recs[i].key, i' + 1, j, i);
    }
  }

  lemma QuietUpTo(recs: seq<Rec>, key: Key, lo: nat, hi: nat, k: nat)
    requires hi <= |recs| && k < |recs| && Quiet(recs, key, lo, hi) && IsCall(recs[k]) && recs[k].key == key
    ensures k < lo || hi <= k
  {
  }
}
