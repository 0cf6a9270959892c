/** What becomes of the sizes: merge keeps the start of every definition, but not always its extent.
    This module says exactly when it does, and what a silent check means for the definitions. */
module ScratchExtent {
  import opened ScratchMap

  // ----- the cells, read off the inputs -----

  predicate SameName(d: Def, e: Def) { d.addr == e.addr && Norm(d.name) == Norm(e.name) }

  /** Definition k is the first with its address and name. */
  predicate FirstOfKey(defs: seq<Def>, k: nat) {
    k < |defs| && forall j :: 0 <= j < k ==> !SameName(defs[j], defs[k])
  }

  predicate Defines(defs: seq<Def>, addr: int) {
    exists j :: 0 <= j < |defs| && defs[j].addr == addr
  }

  /** Definition k is the first at its address. */
  predicate FirstOfAddr(defs: seq<Def>, k: nat) {
    k < |defs| && forall j :: 0 <= j < k ==> defs[j].addr != defs[k].addr
  }

  /** n, or the largest size among the definitions at the address if that is larger. */
  function GrownTo(n: int, c: seq<Def>, addr: int): int {
    if c == [] then n
    else
      var g := GrownTo(n, c[..|c| - 1], addr);
      if c[|c| - 1].addr == addr && g < c[|c| - 1].size then c[|c| - 1].size else g
  }

  /** The assembler cell that starts with definition k: only the first at an address grows with the
      C definitions there. */
  function AsmCell(asm: seq<Def>, c: seq<Def>, k: nat): Cell
    requires k < |asm|
  {
    var d := asm[k];
    Cell(d.name, d.addr, if FirstOfAddr(asm, k) then GrownTo(d.size, c, d.addr) else d.size, true, false)
  }

  function CCell(d: Def): Cell { Cell(d.name, d.addr, d.size, false, false) }

  /** The cell holds n bytes at the address and is not taken for the base of a table. */
  predicate Room(x: Cell, tables: seq<Def>, addr: int, n: int) {
    x.addr == addr && x.size >= n && !Absorbed(x, tables)
  }

  /** Something keeps n bytes at the address: a table there, the cell of an assembler definition that
      is the first of its name, or, where there is no assembler definition, the cell of the first C
      definition. */
  predicate KeepsSize(asm: seq<Def>, c: seq<Def>, tables: seq<Def>, addr: int, n: int) {
    || (exists t :: 0 <= t < |tables| && tables[t].addr == addr && tables[t].size >= n)
    || (exists k :: 0 <= k < |asm| && FirstOfKey(asm, k) && Room(AsmCell(asm, c, k), tables, addr, n))
    || (!Defines(asm, addr)
        && exists k :: 0 <= k < |c| && FirstOfAddr(c, k) && Room(CCell(c[k]), tables, addr, n))
  }

  // ----- the assembler loop -----

  function Plain(d: Def): Cell { Cell(d.name, d.addr, d.size, true, false) }

  /** A cell with the key of one definition has the key of any other of that name. */
  lemma KeyMoves(cells: seq<Cell>, d: Def, e: Def)
    requires SameName(d, e) && HasKey(cells, d)
    ensures HasKey(cells, e)
  {
    var k :| 0 <= k < |cells| && SameKey(cells[k], d);
    assert SameKey(cells[k], e);
  }

  lemma FirstAtPrefix(cells: seq<Cell>, more: seq<Cell>, addr: int, asm: bool)
    requires FirstAt(cells, addr, asm) < |cells|
    ensures FirstAt(cells + more, addr, asm) == FirstAt(cells, addr, asm)
  {
    var i, j := FirstAt(cells, addr, asm), FirstAt(cells + more, addr, asm);
    assert (cells + more)[i] == cells[i];
  }

  lemma FirstAtEnd(cells: seq<Cell>, x: Cell)
    requires x.asm
    ensures FirstAt(cells + [x], x.addr, true) == |cells| <==> FirstAt(cells, x.addr, true) == |cells|
  {
    assert (cells + [x])[|cells|] == x;
    var i := FirstAt(cells, x.addr, true);
    if i < |cells| { FirstAtPrefix(cells, [x], x.addr, true); }
  }

  /** The assembler cells stand where there are definitions. */
  lemma AsmStands(asm: seq<Def>, addr: int)
    ensures FirstAt(AllAsm(asm), addr, true) < |AllAsm(asm)| <==> Defines(asm, addr)
  {
    AsmAddrs(asm);
    AllAsmShare(asm);
    if j :| 0 <= j < |asm| && asm[j].addr == addr {
      AsmHasCell(asm, j);
      var m :| 0 <= m < |AllAsm(asm)| && SameKey(AllAsm(asm)[m], asm[j]);
    }
  }

  /** Cell i comes from definition k, the first of its name, and is the first cell at its address
      exactly when that is the first definition there. */
  predicate ComesFrom(asm: seq<Def>, i: nat, k: nat) {
    && i < |AllAsm(asm)| && FirstOfKey(asm, k) && AllAsm(asm)[i] == Plain(asm[k])
    && (FirstOfAddr(asm, k) <==> i == FirstAt(AllAsm(asm), asm[k].addr, true))
  }

  lemma OldOrigin(init: seq<Def>, last: Def, i: nat, k: nat)
    requires ComesFrom(init, i, k)
    ensures ComesFrom(init + [last], i, k)
  {
    var asm, cells := init + [last], AllAsm(init);
    assert asm[..|init|] == init;
    assert forall j :: 0 <= j < |init| ==> asm[j] == init[j];
    var at := FirstAt(cells, init[k].addr, true);
    assert at < |cells|;
    if AllAsm(asm) != cells { FirstAtPrefix(cells, [Plain(last)], init[k].addr, true); }
  }

  lemma NewOrigin(init: seq<Def>, last: Def)
    requires !HasKey(AllAsm(init), last)
    ensures ComesFrom(init + [last], |AllAsm(init)|, |init|)
  {
    var asm, cells := init + [last], AllAsm(init);
    assert asm[..|init|] == init;
    assert AllAsm(asm) == cells + [Plain(last)];
    NewKey(init, last);
    AsmStands(init, last.addr);
    FirstAtEnd(cells, Plain(last));
    assert Defines(init, last.addr) <==> !FirstOfAddr(asm, |init|) by { FirstMeansNone(init, last); }
  }

  lemma FirstMeansNone(init: seq<Def>, last: Def)
    ensures Defines(init, last.addr) <==> !FirstOfAddr(init + [last], |init|)
  {
    var asm := init + [last];
    assert forall j :: 0 <= j < |init| ==> asm[j] == init[j];
  }

  /** Every assembler cell comes from some definition ... */
  lemma {:induction false} AsmOrigin(asm: seq<Def>, i: nat) returns (k: nat)
    requires i < |AllAsm(asm)|
    ensures ComesFrom(asm, i, k)
  {
    var init, last := asm[..|asm| - 1], asm[|asm| - 1];
    assert asm == init + [last];
    if i < |AllAsm(init)| {
      k := AsmOrigin(init, i);
      OldOrigin(init, last, i, k);
    } else {
      k := |asm| - 1;
      NewOrigin(init, last);
    }
  }

  /** A definition that makes a new cell has a new name. */
  lemma NewKey(init: seq<Def>, last: Def)
    requires !HasKey(AllAsm(init), last)
    ensures forall j :: 0 <= j < |init| ==> !SameName(init[j], last)
  {
    forall j | 0 <= j < |init|
      ensures !SameName(init[j], last)
    {
      AsmHasCell(init, j);
      if SameName(init[j], last) { KeyMoves(AllAsm(init), init[j], last); }
    }
  }

  lemma {:induction false} AsmAddrs(asm: seq<Def>)
    ensures forall i :: 0 <= i < |AllAsm(asm)| ==> Defines(asm, AllAsm(asm)[i].addr)
  {
    if asm != [] {
      var init := asm[..|asm| - 1];
      AsmAddrs(init);
      forall i | 0 <= i < |AllAsm(asm)|
        ensures Defines(asm, AllAsm(asm)[i].addr)
      {
        if i < |AllAsm(init)| {
          var j :| 0 <= j < |init| && init[j].addr == AllAsm(init)[i].addr;
          assert asm[j] == init[j];
        } else {
          assert asm[|asm| - 1].addr == AllAsm(asm)[i].addr;
        }
      }
    }
  }

  /** ... and every such definition has its cell. */
  lemma {:induction false} AsmPlace(asm: seq<Def>, k: nat) returns (i: nat)
    requires FirstOfKey(asm, k)
    ensures i < |AllAsm(asm)| && AllAsm(asm)[i] == Plain(asm[k])
  {
    var init, last := asm[..|asm| - 1], asm[|asm| - 1];
    if k < |init| {
      i := AsmPlace(init, k);
    } else {
      i := |AllAsm(init)|;
      if HasKey(AllAsm(init), last) {
        var m :| 0 <= m < |AllAsm(init)| && SameKey(AllAsm(init)[m], last);
        var j := AsmOrigin(init, m);
        assert SameName(asm[j], asm[k]);
      }
    }
  }

  // ----- the C loop -----

  predicate Vacant(cells: seq<Cell>, addr: int) {
    forall k :: 0 <= k < |cells| ==> cells[k].addr != addr
  }

  /** Cell k after the C definitions: the first assembler cell at an address grows. */
  function GrownCell(cells: seq<Cell>, c: seq<Def>, k: nat): Cell
    requires k < |cells|
  {
    var x := cells[k];
    x.(size := if FirstAt(cells, x.addr, true) == k then GrownTo(x.size, c, x.addr) else x.size)
  }

  /** The cell comes from C definition n, the first at an address without an assembler cell. */
  predicate FromC(cells: seq<Cell>, c: seq<Def>, x: Cell, n: nat) {
    FirstOfAddr(c, n) && Vacant(cells, c[n].addr) && x == CCell(c[n])
  }

  ghost predicate SomeC(cells: seq<Cell>, c: seq<Def>, x: Cell) {
    exists n :: FromC(cells, c, x, n)
  }

  /** The assembler cells, grown, and behind them C cells only. */
  ghost predicate Grew(cells: seq<Cell>, c: seq<Def>, after: seq<Cell>) {
    && |after| >= |cells|
    && (forall k :: 0 <= k < |cells| ==> after[k] == GrownCell(cells, c, k))
    && (forall k :: |cells| <= k < |after| ==> SomeC(cells, c, after[k]))
  }

  /** Growing moves no cell, so the first at an address stays the first. */
  lemma FirstStays(cells: seq<Cell>, c: seq<Def>, after: seq<Cell>, addr: int)
    requires Grew(cells, c, after)
    ensures var i := FirstAt(cells, addr, true);
            FirstAt(after, addr, true) == if i < |cells| then i else |after|
  {
    var i, j := FirstAt(cells, addr, true), FirstAt(after, addr, true);
    if i < |cells| { assert after[i] == GrownCell(cells, c, i); }
    if j < |cells| { assert after[j] == GrownCell(cells, c, j); }
    assert forall k :: |cells| <= k < |after| ==> SomeC(cells, c, after[k]) && !after[k].asm;
  }

  lemma GrownToMore(n: int, c: seq<Def>, d: Def, addr: int)
    ensures var g := GrownTo(n, c, addr);
            GrownTo(n, c + [d], addr) == if d.addr == addr && g < d.size then d.size else g
  {
    assert (c + [d])[..|c|] == c;
  }

  lemma FromCMore(cells: seq<Cell>, c: seq<Def>, d: Def, x: Cell)
    requires SomeC(cells, c, x)
    ensures SomeC(cells, c + [d], x)
  {
    var n :| FromC(cells, c, x, n);
    assert forall j :: 0 <= j < |c| ==> (c + [d])[j] == c[j];
    assert FromC(cells, c + [d], x, n);
  }

  lemma GrewGrown(cells: seq<Cell>, c: seq<Def>, d: Def, after: seq<Cell>, k: nat)
    requires Grew(cells, c, after) && k < |cells| && forall j :: 0 <= j < |cells| ==> cells[j].asm
    ensures AddC(after, d)[k] == GrownCell(cells, c + [d], k)
  {
    var x := cells[k];
    assert after[k] == GrownCell(cells, c, k);
    FirstStays(cells, c, after, d.addr);
    GrownToMore(x.size, c, d, x.addr);
  }

  lemma GrewOld(cells: seq<Cell>, c: seq<Def>, d: Def, after: seq<Cell>, k: nat)
    requires Grew(cells, c, after) && |cells| <= k < |after|
    ensures SomeC(cells, c + [d], AddC(after, d)[k])
  {
    FirstStays(cells, c, after, d.addr);
    assert AddC(after, d)[k] == after[k];
    FromCMore(cells, c, d, after[k]);
  }

  /** A C definition that makes a cell is the first at its address. */
  lemma GrewNew(cells: seq<Cell>, c: seq<Def>, d: Def, after: seq<Cell>)
    requires after == AllC(cells, c) && Grew(cells, c, after) && |AddC(after, d)| > |after|
    ensures FromC(cells, c + [d], AddC(after, d)[|after|], |c|)
  {
    assert (c + [d])[|c|] == d;
    forall j | 0 <= j < |c|
      ensures (c + [d])[j].addr != d.addr
    {
      var k := CHasCell(cells, c, j);
      assert (c + [d])[j] == c[j];
    }
    forall k | 0 <= k < |cells|
      ensures cells[k].addr != d.addr
    {
      assert after[k] == GrownCell(cells, c, k);
    }
  }

  lemma {:induction false} AllCGrew(cells: seq<Cell>, c: seq<Def>)
    requires forall j :: 0 <= j < |cells| ==> cells[j].asm
    ensures Grew(cells, c, AllC(cells, c))
  {
    if c != [] {
      var init, last := c[..|c| - 1], c[|c| - 1];
      var before := AllC(cells, init);
      AllCGrew(cells, init);
      assert c == init + [last];
      forall k | 0 <= k < |cells|
        ensures AllC(cells, c)[k] == GrownCell(cells, c, k)
      {
        GrewGrown(cells, init, last, before, k);
      }
      forall k | |cells| <= k < |AllC(cells, c)|
        ensures SomeC(cells, c, AllC(cells, c)[k])
      {
        if k < |before| { GrewOld(cells, init, last, before, k); } else { GrewNew(cells, init, last, before); }
      }
    }
  }

  // ----- both loops together -----

  predicate AsmStandsFor(asm: seq<Def>, c: seq<Def>, x: Cell, k: nat) {
    FirstOfKey(asm, k) && x == AsmCell(asm, c, k)
  }

  predicate CStandsFor(asm: seq<Def>, c: seq<Def>, x: Cell, k: nat) {
    FirstOfAddr(c, k) && !Defines(asm, c[k].addr) && x == CCell(c[k])
  }

  lemma VacantIff(asm: seq<Def>, addr: int)
    ensures Vacant(AllAsm(asm), addr) <==> !Defines(asm, addr)
  {
    AsmStands(asm, addr);
    AllAsmShare(asm);
  }

  /** The grown cell of definition k, as the inputs give it. */
  lemma GrownIs(asm: seq<Def>, c: seq<Def>, i: nat, k: nat)
    requires ComesFrom(asm, i, k)
    ensures GrownCell(AllAsm(asm), c, i) == AsmCell(asm, c, k)
  {
  }

  /** Every cell has its definition ... */
  lemma CellOrigin(asm: seq<Def>, c: seq<Def>, i: nat) returns (k: nat)
    requires i < |AllC(AllAsm(asm), c)|
    ensures var x := AllC(AllAsm(asm), c)[i]; AsmStandsFor(asm, c, x, k) || CStandsFor(asm, c, x, k)
  {
    var cells := AllAsm(asm);
    AllAsmShare(asm);
    AllCGrew(cells, c);
    if i < |cells| {
      k := AsmOrigin(asm, i);
      GrownIs(asm, c, i, k);
    } else {
      assert SomeC(cells, c, AllC(cells, c)[i]);
      k :| FromC(cells, c, AllC(cells, c)[i], k);
      VacantIff(asm, c[k].addr);
    }
  }

  /** ... and every definition that makes a cell has it. */
  lemma AsmCellIn(asm: seq<Def>, c: seq<Def>, k: nat)
    requires FirstOfKey(asm, k)
    ensures AsmCell(asm, c, k) in AllC(AllAsm(asm), c)
  {
    var i := AsmPlace(asm, k);
    var k' := AsmOrigin(asm, i);
    AsmUnique(asm, k, k');
    AllAsmShare(asm);
    AllCGrew(AllAsm(asm), c);
    GrownIs(asm, c, i, k');
    assert AllC(AllAsm(asm), c)[i] == GrownCell(AllAsm(asm), c, i);
  }

  /** Only one definition is the first of its name. */
  lemma AsmUnique(asm: seq<Def>, k: nat, k': nat)
    requires FirstOfKey(asm, k) && FirstOfKey(asm, k') && Plain(asm[k]) == Plain(asm[k'])
    ensures k == k'
  {
    assert SameName(asm[k], asm[k']) && SameName(asm[k'], asm[k]);
  }

  lemma CCellIn(asm: seq<Def>, c: seq<Def>, k: nat)
    requires FirstOfAddr(c, k) && !Defines(asm, c[k].addr)
    ensures CCell(c[k]) in AllC(AllAsm(asm), c)
  {
    VacantIff(asm, c[k].addr);
    FirstCWins(AllAsm(asm), c, k);
  }

  lemma MergedMember(asm: seq<Def>, c: seq<Def>, tables: seq<Def>, x: Cell)
    ensures x in Merged(asm, c, tables)
            <==> x in TableCells(tables) || (x in AllC(AllAsm(asm), c) && !Absorbed(x, tables))
  {
    var cells, kept := Merged(asm, c, tables), Kept(AllC(AllAsm(asm), c), tables);
    MergedFacts(asm, c, tables);
    AllAsmShare(asm);
    AllCShare(AllAsm(asm), c);
    KeptShare(AllC(AllAsm(asm), c), tables);
    assert x in cells <==> x in multiset(cells);
  }

  // ----- the exact condition -----

  /** A cell of at least n bytes starts at the address. */
  ghost predicate Held(cells: seq<Cell>, addr: int, n: int) {
    exists x :: x in cells && x.addr == addr && x.size >= n
  }

  lemma KeptHeld(asm: seq<Def>, c: seq<Def>, tables: seq<Def>, addr: int, n: int)
    requires KeepsSize(asm, c, tables, addr, n)
    ensures Held(Merged(asm, c, tables), addr, n)
  {
    if t :| 0 <= t < |tables| && tables[t].addr == addr && tables[t].size >= n {
      MergedMember(asm, c, tables, TableCells(tables)[t]);
    } else if k :| 0 <= k < |asm| && FirstOfKey(asm, k) && Room(AsmCell(asm, c, k), tables, addr, n) {
      AsmCellIn(asm, c, k);
      MergedMember(asm, c, tables, AsmCell(asm, c, k));
    } else {
      var k :| 0 <= k < |c| && FirstOfAddr(c, k) && Room(CCell(c[k]), tables, addr, n);
      CCellIn(asm, c, k);
      MergedMember(asm, c, tables, CCell(c[k]));
    }
  }

  lemma HeldKept(asm: seq<Def>, c: seq<Def>, tables: seq<Def>, addr: int, n: int)
    requires Held(Merged(asm, c, tables), addr, n)
    ensures KeepsSize(asm, c, tables, addr, n)
  {
    var x :| x in Merged(asm, c, tables) && x.addr == addr && x.size >= n;
    MergedMember(asm, c, tables, x);
    if x in TableCells(tables) {
      var t :| 0 <= t < |tables| && TableCells(tables)[t] == x;
      assert tables[t].addr == addr && tables[t].size >= n;
    } else {
      var i :| 0 <= i < |AllC(AllAsm(asm), c)| && AllC(AllAsm(asm), c)[i] == x;
      var k := CellOrigin(asm, c, i);
      if AsmStandsFor(asm, c, x, k) {
        assert Room(AsmCell(asm, c, k), tables, addr, n);
      } else {
        assert Room(CCell(c[k]), tables, addr, n);
      }
    }
  }

  /** For every address and size: a merged cell starts there that is at least that large if and only
      if the inputs keep it. */
  lemma ExtentIff(asm: seq<Def>, c: seq<Def>, tables: seq<Def>, addr: int, n: int)
    ensures Held(Merged(asm, c, tables), addr, n) <==> KeepsSize(asm, c, tables, addr, n)
  {
    if KeepsSize(asm, c, tables, addr, n) { KeptHeld(asm, c, tables, addr, n); }
    if Held(Merged(asm, c, tables), addr, n) { HeldKept(asm, c, tables, addr, n); }
  }

  /** Every definition, from whichever source, is the start of some merged cell, which is as large as
      the definition exactly when its size is kept. */
  lemma NothingLost(asm: seq<Def>, c: seq<Def>, tables: seq<Def>, d: Def) returns (x: Cell)
    requires d in asm || d in c || d in tables
    ensures x in Merged(asm, c, tables) && x.addr == d.addr
    ensures x.size >= d.size <==> KeepsSize(asm, c, tables, d.addr, d.size)
  {
    ExtentIff(asm, c, tables, d.addr, d.size);
    if KeepsSize(asm, c, tables, d.addr, d.size) {
      x :| x in Merged(asm, c, tables) && x.addr == d.addr && x.size >= d.size;
    } else {
      x := StartKept(asm, c, tables, d);
    }
  }

  // ----- what a silent check means for the definitions -----

  /** Both definitions claim the byte. */
  predicate Share(d: Def, e: Def, p: int) {
    d.addr <= p < d.addr + d.size && e.addr <= p < e.addr + e.size
  }

  predicate SizeKept(asm: seq<Def>, c: seq<Def>, tables: seq<Def>, d: Def) {
    KeepsSize(asm, c, tables, d.addr, d.size)
  }

  predicate Holds(x: Cell, d: Def) { x.addr == d.addr && x.size >= d.size }

  /** The two definitions are one cell, or cells that a shared-use entry names both. */
  ghost predicate OneOrCovered(cells: seq<Cell>, shared: map<int, set<string>>, d: Def, e: Def) {
    exists i, j :: 0 <= i <= j < |cells|
                   && ((Holds(cells[i], d) && Holds(cells[j], e)) || (Holds(cells[i], e) && Holds(cells[j], d)))
                   && (i == j || Allowed(shared, cells[i], cells[j]))
  }

  lemma PairCovered(cells: seq<Cell>, shared: map<int, set<string>>, d: Def, e: Def, i: nat, j: nat, p: int)
    requires Covered(cells, shared) && i <= j < |cells| && Share(d, e, p)
    requires (Holds(cells[i], d) && Holds(cells[j], e)) || (Holds(cells[i], e) && Holds(cells[j], d))
    ensures OneOrCovered(cells, shared, d, e)
  {
    assert Claims(cells[i], p) && Claims(cells[j], p);
    assert Intersect(cells[i], cells[j]);
    if i < j { assert Allowed(shared, cells[i], cells[j]); }
  }

  /** After a silent check, two definitions that share a byte are one cell or covered if and only if
      merge keeps the sizes of both. */
  lemma SilentForDefs(asm: seq<Def>, c: seq<Def>, tables: seq<Def>, shared: map<int, set<string>>, d: Def, e: Def,
                      p: int)
    requires Covered(Merged(asm, c, tables), shared) && Share(d, e, p)
    ensures OneOrCovered(Merged(asm, c, tables), shared, d, e)
            <==> SizeKept(asm, c, tables, d) && SizeKept(asm, c, tables, e)
  {
    var cells := Merged(asm, c, tables);
    ExtentIff(asm, c, tables, d.addr, d.size);
    ExtentIff(asm, c, tables, e.addr, e.size);
    if SizeKept(asm, c, tables, d) && SizeKept(asm, c, tables, e) {
      var x :| x in cells && x.addr == d.addr && x.size >= d.size;
      var y :| y in cells && y.addr == e.addr && y.size >= e.size;
      var i :| 0 <= i < |cells| && cells[i] == x;
      var j :| 0 <= j < |cells| && cells[j] == y;
      PairCovered(cells, shared, d, e, if i <= j then i else j, if i <= j then j else i, p);
    }
  }

  /** The tool, as its user reads it: after a silent check, any two definitions that share a byte are
      one cell or covered, exactly where merge keeps their sizes. */
  method CheckSources(asm: seq<Def>, c: seq<Def>, tables: seq<Def>, shared: map<int, set<string>>)
    returns (cells: seq<Cell>, problems: seq<Problem>)
    ensures cells == Merged(asm, c, tables)
    ensures problems == [] ==>
              forall d, e, p | Share(d, e, p) ::
                OneOrCovered(cells, shared, d, e) <==> SizeKept(asm, c, tables, d) && SizeKept(asm, c, tables, e)
  {
    cells, problems := MergeAndCheck(asm, c, tables, shared);
    if problems == [] {
      forall d, e, p | Share(d, e, p)
        ensures OneOrCovered(cells, shared, d, e) <==> SizeKept(asm, c, tables, d) && SizeKept(asm, c, tables, e)
      {
        SilentForDefs(asm, c, tables, shared, d, e, p);
      }
    }
  }

  // ----- the three ways to lose a size, each with a silent check -----

  /** A silent check on these inputs, though definitions d and e both claim byte p. */
  ghost predicate Hidden(asm: seq<Def>, c: seq<Def>, tables: seq<Def>, d: Def, e: Def, p: int) {
    && Silent(Merged(asm, c, tables), map[]) && Share(d, e, p)
    && !OneOrCovered(Merged(asm, c, tables), map[], d, e)
  }

  lemma InsertLast(s: seq<Cell>, x: Cell)
    requires s == [] || !Before(x, s[|s| - 1])
    ensures Insert(s, x) == s + [x]
  {
  }

  lemma SortedPush(s: seq<Cell>, x: Cell)
    ensures Sorted(s + [x]) == Insert(Sorted(s), x)
  {
    assert (s + [x])[..|s|] == s;
  }

  lemma SortedOne(x: Cell)
    ensures Sorted([x]) == [x]
  {
    SortedPush([], x);
    InsertLast([], x);
    assert [] + [x] == [x];
  }

  /** Two cells at different addresses, given in either order. */
  lemma SortedTwo(x: Cell, y: Cell)
    requires x.addr < y.addr
    ensures Sorted([x] + [y]) == [x, y] && Sorted([y] + [x]) == [x, y]
  {
    SortedOne(x);
    SortedOne(y);
    SortedPush([x], y);
    InsertLast([x], y);
    SortedPush([y], x);
    InsertBefore(x, y);
  }

  lemma InsertBefore(x: Cell, y: Cell)
    requires Before(x, y)
    ensures Insert([y], x) == [x, y]
  {
    assert [y][..0] == [];
    InsertLast([], x);
  }

  /** Two cells that do not meet, and a definition larger than the first of them. */
  lemma HiddenBehind(asm: seq<Def>, c: seq<Def>, tables: seq<Def>, x: Cell, y: Cell, d: Def, e: Def)
    requires Merged(asm, c, tables) == [x, y]
    requires x.addr + x.size <= y.addr && x.size > 0 && y.size > 0
    requires d.addr == x.addr && x.size < d.size && d.addr < e.addr < d.addr + d.size && e.size > 0
    ensures Hidden(asm, c, tables, d, e, e.addr)
  {
    var cells := [x, y];
    assert Covered(cells, map[]);
    CoveredMeansSilent(cells, map[]);
  }

  /** Of two C definitions at one address the first decides. */
  lemma LargerAliasHidden(p: Def, q: Def, r: Def)
    requires p.addr == q.addr && 0 < p.size < q.size && r.size > 0
    requires p.addr + p.size <= r.addr < q.addr + q.size
    ensures Hidden([], [p, q, r], [], q, r, r.addr)
  {
    var x, y := CCell(p), CCell(r);
    assert [p, q, r][..2] == [p, q] && [p, q][..1] == [p] && [p][..0] == [];
    assert AllC([], [p]) == [x];
    assert FirstAt([x], q.addr, true) == 1 && FirstAt([x], q.addr, false) == 0;
    assert AllC([], [p, q]) == [x];
    assert !HasKey([x], r);
    assert AllC([], [p, q, r]) == [x] + [y];
    TwoCells([x] + [y], x, y);
    HiddenBehind([], [p, q, r], [], x, y, q, r);
  }

  /** Two cells in order, and no tables. */
  lemma TwoCells(cells: seq<Cell>, x: Cell, y: Cell)
    requires cells == [x] + [y] && x.addr < y.addr
    ensures Sorted(Kept(cells, []) + TableCells([])) == [x, y]
  {
    KeptAll(cells, []);
    SortedTwo(x, y);
    assert cells + [] == [x] + [y];
  }

  lemma {:induction false} KeptAll(cells: seq<Cell>, tables: seq<Def>)
    requires forall k :: 0 <= k < |cells| ==> !TableAt(tables, cells[k].addr)
    ensures Kept(cells, tables) == cells
  {
    if cells != [] { KeptAll(cells[..|cells| - 1], tables); }
  }

  /** Of two assembler definitions whose names differ in underscores or case only, the first decides. */
  lemma SameNameHidden(p: Def, q: Def, r: Def)
    requires SameName(p, q) && 0 < p.size < q.size && r.size > 0
    requires p.addr + p.size <= r.addr < q.addr + q.size
    ensures Hidden([p, q, r], [], [], q, r, r.addr)
  {
    var x, y := Plain(p), Plain(r);
    assert [p, q, r][..2] == [p, q] && [p, q][..1] == [p] && [p][..0] == [];
    assert AllAsm([p]) == [x];
    assert SameKey([x][0], q);
    assert AllAsm([p, q]) == [x];
    assert !HasKey([x], r);
    assert AllAsm([p, q, r]) == [x] + [y];
    TwoCells([x] + [y], x, y);
    HiddenBehind([p, q, r], [], [], x, y, q, r);
  }

  /** A cell taken for the base of a table is absorbed even if it is the larger of the two. */
  lemma LargerBaseHidden(b: Def, r: Def, t: Def)
    requires b.addr == t.addr && 0 < t.size < b.size && r.size > 0 && Absorbed(Plain(b), [t])
    requires t.addr + t.size <= r.addr < b.addr + b.size
    ensures Hidden([b, r], [], [t], b, r, r.addr)
  {
    var x, y, z := Plain(b), Plain(r), Cell(t.name, t.addr, t.size, false, true);
    assert [b, r][..1] == [b] && [b][..0] == [];
    assert AllAsm([b]) == [x];
    assert !HasKey([x], r);
    assert AllAsm([b, r]) == [x] + [y];
    BaseAbsorbed(x, y, t, z);
    SortedTwo(z, y);
    HiddenBehind([b, r], [], [t], z, y, b, r);
  }

  lemma BaseAbsorbed(x: Cell, y: Cell, t: Def, z: Cell)
    requires Absorbed(x, [t]) && y.addr != t.addr && z == Cell(t.name, t.addr, t.size, false, true)
    ensures Kept([x] + [y], [t]) + TableCells([t]) == [y] + [z]
  {
    var cells := [x] + [y];
    assert cells[..1] == [x] && [x][..0] == [] && [t][..0] == [];
    assert Kept([x], [t]) == [];
    assert !TableAt([t], y.addr);
    assert Kept(cells, [t]) == [y];
    assert TableCells([t]) == [z];
  }

  /** One input for each. */
  lemma HiddenExamples()
    ensures Hidden([], [Def("P", 0x2000, 4), Def("Q", 0x2000, 16), Def("R", 0x2008, 4)], [],
                   Def("Q", 0x2000, 16), Def("R", 0x2008, 4), 0x2008)
    ensures Hidden([Def("a_b", 0x100, 4), Def("ab", 0x100, 16), Def("c", 0x108, 4)], [], [],
                   Def("ab", 0x100, 16), Def("c", 0x108, 4), 0x108)
    ensures Hidden([Def("xbase", 0x100, 64), Def("c", 0x110, 4)], [], [Def("T", 0x100, 8)],
                   Def("xbase", 0x100, 64), Def("c", 0x110, 4), 0x110)
  {
    LargerAliasHidden(Def("P", 0x2000, 4), Def("Q", 0x2000, 16), Def("R", 0x2008, 4));
    NormExample();
    SameNameHidden(Def("a_b", 0x100, 4), Def("ab", 0x100, 16), Def("c", 0x108, 4));
    BaseExample(Def("xbase", 0x100, 64), Def("T", 0x100, 8));
    LargerBaseHidden(Def("xbase", 0x100, 64), Def("c", 0x110, 4), Def("T", 0x100, 8));
  }

  lemma NormExample()
    ensures Norm("a_b") == Norm("ab")
  {
    assert "a_b"[1..] == "_b" && "_b"[1..] == "b" && "ab"[1..] == "b";
    assert Norm("a_b") == "a" + Norm("_b") && Norm("_b") == "" + Norm("b") && Norm("ab") == "a" + Norm("b");
  }

  lemma BaseExample(b: Def, t: Def)
    requires b.name == "xbase" && t.addr == b.addr
    ensures Absorbed(Plain(b), [t])
  {
    assert "xbase"[1..] == "base" && "base"[1..] == "ase" && "ase"[1..] == "se" && "se"[1..] == "e" && "e"[1..] == "";
    assert Lower("e") == "e" && Lower("se") == "se" && Lower("ase") == "ase" && Lower("base") == "base";
    assert Lower("xbase") == "xbase";
    assert [t][0].addr == b.addr;
  }
}
