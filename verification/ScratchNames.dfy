/** Names in the memory map: what is compared, what makes a cell the base of a table, and in which
    order the cells stand. */
module ScratchNames {
  import opened ScratchMap

  // ----- spellings -----

  lemma {:induction false} LowerAt(s: string)
    ensures |Lower(s)| == |s| && forall k :: 0 <= k < |s| ==> Lower(s)[k] == LowerChar(s[k])
  {
    if s != "" { LowerAt(s[1..]); }
  }

  lemma {:induction false} UpperAt(s: string)
    ensures |Upper(s)| == |s| && forall k :: 0 <= k < |s| ==> Upper(s)[k] == UpperChar(s[k])
  {
    if s != "" { UpperAt(s[1..]); }
  }

  /** Upper and lower case letters are 32 apart. */
  lemma CaseTold(c: char)
    ensures LowerChar(c) == if 0x41 <= c as int <= 0x5A then (c as int + 0x20) as char else c
    ensures UpperChar(c) == if 0x61 <= c as int <= 0x7A then (c as int - 0x20) as char else c
  {
  }

  /** Spellings are compared letter by letter, underscores left out and case ignored. */
  lemma {:induction false} NormJoin(s: string, t: string)
    ensures Norm(s + t) == Norm(s) + Norm(t)
  {
    if s == "" {
      assert s + t == t;
    } else {
      assert (s + t)[1..] == s[1..] + t;
      NormJoin(s[1..], t);
    }
  }

  lemma NormOne(c: char)
    ensures Norm([c]) == if c == '_' then "" else [LowerChar(c)]
  {
    assert [c][1..] == "";
  }

  // ----- table bases -----

  predicate OccursAt(s: string, t: string, i: nat) { i + |t| <= |s| && s[i..i + |t|] == t }

  lemma {:induction false} ContainsAt(s: string, t: string) returns (i: nat)
    requires Contains(s, t)
    ensures OccursAt(s, t, i)
  {
    if t <= s {
      i := 0;
    } else {
      var j := ContainsAt(s[1..], t);
      i := j + 1;
      assert s[1..][j..j + |t|] == s[i..i + |t|];
    }
  }

  lemma {:induction false} OccursContains(s: string, t: string, i: nat)
    requires OccursAt(s, t, i)
    ensures Contains(s, t)
  {
    if i == 0 {
      assert s[..|t|] == t;
    } else {
      assert s[1..][i - 1..i - 1 + |t|] == s[i..i + |t|];
      OccursContains(s[1..], t, i - 1);
    }
  }

  /** From i on the characters of s, whatever their case, are those of the capitals t. */
  predicate SpellsAt(s: string, t: string, i: nat) {
    i + |t| <= |s| && forall k :: 0 <= k < |t| ==> UpperChar(s[i + k]) == t[k]
  }

  lemma SpellsUpper(n: string, i: nat)
    ensures OccursAt(Upper(n), "BASE", i) <==> SpellsAt(n, "BASE", i)
  {
    UpperAt(n);
    if i + 4 <= |n| {
      var u := Upper(n)[i..i + 4];
      assert u[0] == UpperChar(n[i + 0]) && u[1] == UpperChar(n[i + 1]);
      assert u[2] == UpperChar(n[i + 2]) && u[3] == UpperChar(n[i + 3]);
      assert SpellsAt(n, "BASE", i) ==> u == ['B', 'A', 'S', 'E'];
    }
  }

  lemma BaseLetter(c: char)
    ensures LowerChar(c) == 'b' <==> UpperChar(c) == 'B'
    ensures LowerChar(c) == 'a' <==> UpperChar(c) == 'A'
    ensures LowerChar(c) == 's' <==> UpperChar(c) == 'S'
    ensures LowerChar(c) == 'e' <==> UpperChar(c) == 'E'
  {
  }

  predicate FourLetters(s: string, i: nat, a: char, b: char, c: char, d: char) {
    i + 4 <= |s| && s[i] == a && s[i + 1] == b && s[i + 2] == c && s[i + 3] == d
  }

  lemma EndsWithFour(s: string)
    requires |s| >= 4
    ensures EndsWith(s, "base") <==> FourLetters(s, |s| - 4, 'b', 'a', 's', 'e')
  {
    var l := s[|s| - 4..];
    assert l[0] == s[|s| - 4] && l[1] == s[|s| - 3] && l[2] == s[|s| - 2] && l[3] == s[|s| - 1];
  }

  lemma SpellsFour(n: string, i: nat)
    requires i + 4 <= |n|
    ensures SpellsAt(n, "BASE", i) <==>
            && UpperChar(n[i]) == 'B' && UpperChar(n[i + 1]) == 'A'
            && UpperChar(n[i + 2]) == 'S' && UpperChar(n[i + 3]) == 'E'
  {
    var t := "BASE";
    assert t[0] == 'B' && t[1] == 'A' && t[2] == 'S' && t[3] == 'E';
    if SpellsAt(n, t, i) {
      assert UpperChar(n[i + 0]) == t[0] && UpperChar(n[i + 1]) == t[1];
      assert UpperChar(n[i + 2]) == t[2] && UpperChar(n[i + 3]) == t[3];
    }
  }

  lemma SpellsLower(n: string)
    requires |n| >= 4
    ensures EndsWith(Lower(n), "base") <==> SpellsAt(n, "BASE", |n| - 4)
  {
    LowerAt(n);
    var i := |n| - 4;
    EndsWithFour(Lower(n));
    SpellsFour(n, i);
    BaseLetter(n[i]);
    BaseLetter(n[i + 1]);
    BaseLetter(n[i + 2]);
    BaseLetter(n[i + 3]);
  }

  lemma ContainsBase(n: string)
    ensures Contains(Upper(n), "BASE") <==> exists i: nat :: SpellsAt(n, "BASE", i)
  {
    if Contains(Upper(n), "BASE") {
      var i := ContainsAt(Upper(n), "BASE");
      SpellsUpper(n, i);
    }
    if i: nat :| SpellsAt(n, "BASE", i) {
      SpellsUpper(n, i);
      OccursContains(Upper(n), "BASE", i);
    }
  }

  lemma EndsWithBase(n: string)
    ensures EndsWith(Lower(n), "base") <==> |n| >= 4 && SpellsAt(n, "BASE", |n| - 4)
  {
    LowerAt(n);
    if |n| >= 4 { SpellsLower(n); }
  }

  /** Which cells are taken for the base of a table: those at its address whose name has "base" in it, in
      any case, and that have at most 260 bytes, or whose name ends with it. */
  lemma AbsorbedIff(c: Cell, tables: seq<Def>)
    ensures Absorbed(c, tables) <==>
            && (exists k :: 0 <= k < |tables| && tables[k].addr == c.addr)
            && (|| (c.size <= 260 && exists i: nat :: SpellsAt(c.name, "BASE", i))
                || (|c.name| >= 4 && SpellsAt(c.name, "BASE", |c.name| - 4)))
  {
    ContainsBase(c.name);
    EndsWithBase(c.name);
  }

  // ----- shared use -----

  /** A pair is excused exactly by an entry at the first cell's address or, only if there is none, at the
      second's, that names both. */
  lemma AllowedIff(shared: map<int, set<string>>, a: Cell, b: Cell)
    ensures Allowed(shared, a, b) <==>
            exists at :: at in shared && (at == a.addr || (at == b.addr && a.addr !in shared))
                         && {Norm(a.name), Norm(b.name)} <= shared[at]
  {
    if Allowed(shared, a, b) {
      var at := if a.addr in shared then a.addr else b.addr;
      assert {Norm(a.name), Norm(b.name)} <= shared[at];
    }
  }

  /** Two cells of four bytes, the second two bytes into the first. */
  lemma SharedExamples()
    ensures var cells := [Cell("a", 0x1000, 4, true, false), Cell("b", 0x1002, 4, true, false)];
            && Silent(cells, map[0x1002 := {"a", "b"}])
            && Silent(cells, map[0x1000 := {"a", "b"}, 0x1002 := {}])
            && Runs(cells, map[0x1000 := {"a"}, 0x1002 := {"a", "b"}], 0, 1)
            && Runs(cells, map[0x1002 := {"b"}], 0, 1) && Runs(cells, map[], 0, 1)
  {
    NormOne('a');
    NormOne('b');
    assert Norm("a") == "a" && Norm("b") == "b";
    assert "a" !in {"b"} && "b" !in {"a"};
  }

  // ----- order -----

  /** s comes before t: t goes on where s ends, or has the larger character where they first differ. */
  predicate Precedes(s: string, t: string, k: nat) {
    && k <= |s| && k < |t| && s[..k] == t[..k]
    && (k == |s| || s[k] < t[k])
  }

  lemma {:induction false} NameLessIff(s: string, t: string)
    ensures NameLess(s, t) <==> exists k: nat :: Precedes(s, t, k)
  {
    if s == "" {
      if t != "" { assert Precedes(s, t, 0); }
    } else if t != "" {
      if s[0] < t[0] { assert Precedes(s, t, 0); }
      if s[0] == t[0] {
        NameLessIff(s[1..], t[1..]);
        if k: nat :| Precedes(s[1..], t[1..], k) {
          assert s[..k + 1] == [s[0]] + s[1..][..k] && t[..k + 1] == [t[0]] + t[1..][..k];
          assert Precedes(s, t, k + 1);
        }
      }
      if k: nat :| Precedes(s, t, k) {
        if k > 0 {
          assert s[..k][0] == t[..k][0];
          assert s[1..][..k - 1] == s[..k][1..] && t[1..][..k - 1] == t[..k][1..];
          assert Precedes(s[1..], t[1..], k - 1);
        }
      }
    }
  }

  lemma {:induction false} NameOrder(s: string, t: string, u: string)
    ensures !NameLess(s, s)
    ensures NameLess(s, t) && NameLess(t, u) ==> NameLess(s, u)
    ensures NameLess(s, t) || s == t || NameLess(t, s)
  {
    if s != "" {
      NameOrder(s[1..], if t == "" then "" else t[1..], if u == "" then "" else u[1..]);
      if t != "" && s[0] == t[0] && s[1..] == t[1..] { assert s == [s[0]] + s[1..] && t == [t[0]] + t[1..]; }
    }
  }

  lemma NotBefore(a: Cell, b: Cell, c: Cell)
    requires !Before(b, a) && !Before(c, b)
    ensures !Before(c, a)
  {
    NameOrder(c.name, a.name, b.name);
    NameOrder(c.name, b.name, a.name);
    NameOrder(a.name, b.name, c.name);
  }

  /** Cell a may stand in front of b: by its address or, at the same one, by its name. */
  ghost predicate InFront(a: Cell, b: Cell) {
    a.addr < b.addr || (a.addr == b.addr && forall k: nat :: !Precedes(b.name, a.name, k))
  }

  lemma InFrontIff(a: Cell, b: Cell)
    ensures InFront(a, b) <==> !Before(b, a)
  {
    NameLessIff(b.name, a.name);
  }

  predicate Ascending(cells: seq<Cell>) {
    forall i, j :: 0 <= i < j < |cells| ==> !Before(cells[j], cells[i])
  }

  lemma {:induction false} InsertAscending(sorted: seq<Cell>, c: Cell)
    requires Ascending(sorted)
    ensures Ascending(Insert(sorted, c))
    ensures forall x :: x in Insert(sorted, c) <==> x in sorted || x == c
  {
    var n := |sorted|;
    if sorted == [] || !Before(c, sorted[n - 1]) {
      forall i | 0 <= i < n
        ensures !Before(c, sorted[i])
      {
        if i < n - 1 { NotBefore(sorted[i], sorted[n - 1], c); }
      }
    } else {
      var init, last := sorted[..n - 1], sorted[n - 1];
      InsertAscending(init, c);
      var r := Insert(init, c);
      forall i | 0 <= i < |r|
        ensures !Before(last, r[i])
      {
        assert r[i] in init || r[i] == c;
        if r[i] == c { Asymmetric(c, last); }
      }
    }
  }

  lemma Asymmetric(a: Cell, b: Cell)
    requires Before(a, b)
    ensures !Before(b, a)
  {
    NameOrder(a.name, b.name, a.name);
  }

  lemma {:induction false} SortedAscending(cells: seq<Cell>)
    ensures Ascending(Sorted(cells))
  {
    if cells != [] {
      SortedAscending(cells[..|cells| - 1]);
      InsertAscending(Sorted(cells[..|cells| - 1]), cells[|cells| - 1]);
    }
  }

  /** The merged cells stand in the order of their addresses and, at one address, of their names. */
  lemma MergedInOrder(asm: seq<Def>, c: seq<Def>, tables: seq<Def>, i: nat, j: nat)
    requires i < j < |Merged(asm, c, tables)|
    ensures InFront(Merged(asm, c, tables)[i], Merged(asm, c, tables)[j])
  {
    SortedAscending(Kept(AllC(AllAsm(asm), c), tables) + TableCells(tables));
    InFrontIff(Merged(asm, c, tables)[i], Merged(asm, c, tables)[j]);
  }
}
