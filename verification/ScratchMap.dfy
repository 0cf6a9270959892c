/** q9_scratch_map.py: merge the kernel's fixed memory cells from assembler, C and table files, and
    check that none overlaps another without a shared-use entry. */
module ScratchMap {

  datatype Def = Def(name: string, addr: int, size: int)

  datatype Cell = Cell(name: string, addr: int, size: int, asm: bool, table: bool)

  datatype Problem = Double(addr: int) | Overlap(first: nat, second: nat)

  // ----- names -----

  function LowerChar(c: char): char { if 'A' <= c <= 'Z' then c - 'A' + 'a' else c }

  function UpperChar(c: char): char { if 'a' <= c <= 'z' then c - 'a' + 'A' else c }

  function Lower(s: string): string {
    if s == "" then "" else [LowerChar(s[0])] + Lower(s[1..])
  }

  function Upper(s: string): string {
    if s == "" then "" else [UpperChar(s[0])] + Upper(s[1..])
  }

  /** Assembler and C spellings of a name agree once underscores and case are dropped. */
  function Norm(s: string): string {
    if s == "" then ""
    else (if s[0] == '_' then "" else [LowerChar(s[0])]) + Norm(s[1..])
  }

  predicate Contains(s: string, t: string) {
    t <= s || (s != "" && Contains(s[1..], t))
  }

  predicate EndsWith(s: string, t: string) {
    |t| <= |s| && s[|s| - |t|..] == t
  }

  /** Python's order on strings. */
  predicate NameLess(s: string, t: string) {
    t != "" && (s == "" || s[0] < t[0] || (s[0] == t[0] && NameLess(s[1..], t[1..])))
  }

  // ----- merge -----

  predicate SameKey(c: Cell, d: Def) { c.addr == d.addr && Norm(c.name) == Norm(d.name) }

  predicate HasKey(cells: seq<Cell>, d: Def) {
    exists k :: 0 <= k < |cells| && SameKey(cells[k], d)
  }

  /** Index of the first cell at this address with this assembler flag, or the length. */
  function FirstAt(cells: seq<Cell>, addr: int, asm: bool): (i: nat)
    ensures i <= |cells| && (i < |cells| ==> cells[i].addr == addr && cells[i].asm == asm)
    ensures forall k :: 0 <= k < i ==> !(cells[k].addr == addr && cells[k].asm == asm)
  {
    if cells == [] then 0
    else if cells[0].addr == addr && cells[0].asm == asm then 0
    else 1 + FirstAt(cells[1..], addr, asm)
  }

  /** An assembler definition is a cell of its own unless address and name were seen before. */
  function AddAsm(cells: seq<Cell>, d: Def): seq<Cell> {
    if HasKey(cells, d) then cells else cells + [Cell(d.name, d.addr, d.size, true, false)]
  }

  /** A C definition is an alias of the assembler cell at its address (which grows to hold it), an
      alias of the C cell at its address, or a cell of its own. */
  function AddC(cells: seq<Cell>, d: Def): seq<Cell> {
    var hit := FirstAt(cells, d.addr, true);
    if hit < |cells| then
      if cells[hit].size < d.size then cells[hit := cells[hit].(size := d.size)] else cells
    else if HasKey(cells, d) || FirstAt(cells, d.addr, false) < |cells| then cells
    else cells + [Cell(d.name, d.addr, d.size, false, false)]
  }

  function AllAsm(asm: seq<Def>): seq<Cell> {
    if asm == [] then [] else AddAsm(AllAsm(asm[..|asm| - 1]), asm[|asm| - 1])
  }

  function AllC(cells: seq<Cell>, c: seq<Def>): seq<Cell> {
    if c == [] then cells else AddC(AllC(cells, c[..|c| - 1]), c[|c| - 1])
  }

  function TableCells(tables: seq<Def>): (r: seq<Cell>)
    ensures |r| == |tables|
    ensures forall k :: 0 <= k < |tables| ==> r[k].table && r[k].addr == tables[k].addr && r[k].size == tables[k].size
  {
    if tables == [] then []
    else TableCells(tables[..|tables| - 1])
         + [Cell(tables[|tables| - 1].name, tables[|tables| - 1].addr, tables[|tables| - 1].size, false, true)]
  }

  predicate TableAt(tables: seq<Def>, addr: int) {
    exists k :: 0 <= k < |tables| && tables[k].addr == addr
  }

  /** A cell at the base of a table that is named as such is the table itself. */
  predicate Absorbed(c: Cell, tables: seq<Def>) {
    TableAt(tables, c.addr)
    && ((c.size <= 260 && Contains(Upper(c.name), "BASE")) || EndsWith(Lower(c.name), "base"))
  }

  function Kept(cells: seq<Cell>, tables: seq<Def>): seq<Cell> {
    if cells == [] then []
    else
      var rest := Kept(cells[..|cells| - 1], tables);
      if Absorbed(cells[|cells| - 1], tables) then rest else rest + [cells[|cells| - 1]]
  }

  predicate Before(a: Cell, b: Cell) {
    a.addr < b.addr || (a.addr == b.addr && NameLess(a.name, b.name))
  }

  /** Stable insertion from the right. */
  function Insert(sorted: seq<Cell>, c: Cell): seq<Cell> {
    if sorted == [] || !Before(c, sorted[|sorted| - 1]) then sorted + [c]
    else Insert(sorted[..|sorted| - 1], c) + [sorted[|sorted| - 1]]
  }

  function Sorted(cells: seq<Cell>): seq<Cell> {
    if cells == [] then [] else Insert(Sorted(cells[..|cells| - 1]), cells[|cells| - 1])
  }

  function Merged(asm: seq<Def>, c: seq<Def>, tables: seq<Def>): seq<Cell> {
    Sorted(Kept(AllC(AllAsm(asm), c), tables) + TableCells(tables))
  }

  method MergeAsm(asm: seq<Def>) returns (cells: seq<Cell>)
    ensures cells == AllAsm(asm)
  {
    cells := [];
    for n := 0 to |asm|
      invariant cells == AllAsm(asm[..n])
    {
      assert asm[..n + 1][..n] == asm[..n];
      if !HasKey(cells, asm[n]) {
        cells := cells + [Cell(asm[n].name, asm[n].addr, asm[n].size, true, false)];
      }
    }
    assert asm[..|asm|] == asm;
  }

  method MergeC(asmCells: seq<Cell>, c: seq<Def>) returns (cells: seq<Cell>)
    ensures cells == AllC(asmCells, c)
  {
    cells := asmCells;
    for n := 0 to |c|
      invariant cells == AllC(asmCells, c[..n])
    {
      assert c[..n + 1][..n] == c[..n];
      var d := c[n];
      var hit := FirstAt(cells, d.addr, true);
      if hit < |cells| {
        if cells[hit].size < d.size {
          cells := cells[hit := cells[hit].(size := d.size)];
        }
      } else if !HasKey(cells, d) && FirstAt(cells, d.addr, false) == |cells| {
        cells := cells + [Cell(d.name, d.addr, d.size, false, false)];
      }
    }
    assert c[..|c|] == c;
  }

  method Merge(asm: seq<Def>, c: seq<Def>, tables: seq<Def>) returns (out: seq<Cell>)
    ensures out == Merged(asm, c, tables)
  {
    var asmCells := MergeAsm(asm);
    var cells := MergeC(asmCells, c);
    var kept := [];
    for n := 0 to |cells|
      invariant kept == Kept(cells[..n], tables)
    {
      assert cells[..n + 1][..n] == cells[..n];
      if !Absorbed(cells[n], tables) {
        kept := kept + [cells[n]];
      }
    }
    assert cells[..|cells|] == cells;
    out := Sorted(kept + TableCells(tables));
  }

  // ----- what merge guarantees -----

  predicate NoTables(cells: seq<Cell>) {
    forall k :: 0 <= k < |cells| ==> !cells[k].table
  }

  /** Two ordinary cells at one address are both assembler cells. */
  predicate AsmPair(a: Cell, b: Cell) {
    a.addr == b.addr && !a.table && !b.table ==> a.asm && b.asm
  }

  predicate OnlyAsmShare(cells: seq<Cell>) {
    forall i, j :: 0 <= i < j < |cells| ==> AsmPair(cells[i], cells[j])
  }

  predicate SortedByAddr(cells: seq<Cell>) {
    forall i, j :: 0 <= i < j < |cells| ==> cells[i].addr <= cells[j].addr
  }

  lemma {:induction false} AllAsmShare(asm: seq<Def>)
    ensures NoTables(AllAsm(asm)) && forall k :: 0 <= k < |AllAsm(asm)| ==> AllAsm(asm)[k].asm
  {
    if asm != [] { AllAsmShare(asm[..|asm| - 1]); }
  }

  lemma {:induction false} AllCShare(cells: seq<Cell>, c: seq<Def>)
    requires NoTables(cells) && OnlyAsmShare(cells)
    ensures NoTables(AllC(cells, c)) && OnlyAsmShare(AllC(cells, c))
  {
    if c != [] {
      AllCShare(cells, c[..|c| - 1]);
      AddCShare(AllC(cells, c[..|c| - 1]), c[|c| - 1]);
    }
  }

  lemma AddCShare(cells: seq<Cell>, d: Def)
    requires NoTables(cells) && OnlyAsmShare(cells)
    ensures NoTables(AddC(cells, d)) && OnlyAsmShare(AddC(cells, d))
  {
    var cells' := AddC(cells, d);
    forall i, j | 0 <= i < j < |cells'|
      ensures AsmPair(cells'[i], cells'[j])
    {
      if j < |cells| { assert AsmPair(cells[i], cells[j]); }
    }
  }

  /** Dropping cells keeps it: the kept cells are a subsequence. */
  lemma {:induction false} KeptShare(cells: seq<Cell>, tables: seq<Def>)
    requires NoTables(cells) && OnlyAsmShare(cells)
    ensures NoTables(Kept(cells, tables)) && OnlyAsmShare(Kept(cells, tables))
    ensures forall x :: x in Kept(cells, tables) <==> x in cells && !Absorbed(x, tables)
  {
    if cells != [] {
      var last, init := cells[|cells| - 1], cells[..|cells| - 1];
      assert cells == init + [last];
      KeptShare(init, tables);
      var rest := Kept(init, tables);
      forall i | 0 <= i < |rest|
        ensures AsmPair(rest[i], last)
      {
        assert rest[i] in rest;
        var m :| 0 <= m < |init| && init[m] == rest[i];
        assert AsmPair(cells[m], cells[|cells| - 1]);
      }
    }
  }

  lemma {:induction false} InsertKeeps(s: seq<Cell>, c: Cell)
    ensures multiset(Insert(s, c)) == multiset(s) + multiset{c}
  {
    if s != [] {
      assert s == s[..|s| - 1] + [s[|s| - 1]];
      if Before(c, s[|s| - 1]) { InsertKeeps(s[..|s| - 1], c); }
    }
  }

  lemma {:induction false} InsertSorts(s: seq<Cell>, c: Cell)
    requires SortedByAddr(s)
    ensures SortedByAddr(Insert(s, c))
  {
    if s != [] && Before(c, s[|s| - 1]) {
      var init, last := s[..|s| - 1], s[|s| - 1];
      InsertSorts(init, c);
      InsertKeeps(init, c);
      var r := Insert(init, c);
      forall k | 0 <= k < |r|
        ensures r[k].addr <= last.addr
      {
        assert r[k] in multiset(r);
        assert r[k] == c || r[k] in init;
      }
    }
  }

  lemma {:induction false} InsertShare(s: seq<Cell>, c: Cell)
    requires OnlyAsmShare(s) && forall k :: 0 <= k < |s| ==> AsmPair(s[k], c)
    ensures OnlyAsmShare(Insert(s, c))
    ensures forall x :: x in Insert(s, c) ==> x == c || x in s
  {
    if s != [] {
      var init, last := s[..|s| - 1], s[|s| - 1];
      assert s == init + [last];
      if Before(c, last) {
        InsertShare(init, c);
        var r := Insert(init, c);
        forall k | 0 <= k < |r|
          ensures AsmPair(r[k], last)
        {
          assert r[k] in r;
          if r[k] != c {
            var m :| 0 <= m < |init| && init[m] == r[k];
            assert AsmPair(s[m], s[|s| - 1]);
          }
        }
      }
    }
  }

  /** Sorting keeps the cells, orders them by address, and keeps what merge guarantees. */
  lemma {:induction false} SortedFacts(cells: seq<Cell>)
    requires OnlyAsmShare(cells)
    ensures SortedByAddr(Sorted(cells)) && OnlyAsmShare(Sorted(cells))
    ensures multiset(Sorted(cells)) == multiset(cells)
  {
    if cells != [] {
      var init, last := cells[..|cells| - 1], cells[|cells| - 1];
      assert cells == init + [last];
      SortedFacts(init);
      var r := Sorted(init);
      forall k | 0 <= k < |r|
        ensures AsmPair(r[k], last)
      {
        assert r[k] in multiset(r);
        var m :| 0 <= m < |init| && init[m] == r[k];
        assert AsmPair(cells[m], cells[|cells| - 1]);
      }
      InsertKeeps(r, last);
      InsertSorts(r, last);
      InsertShare(r, last);
    }
  }

  lemma {:induction false} MergedFacts(asm: seq<Def>, c: seq<Def>, tables: seq<Def>)
    ensures var cells := Merged(asm, c, tables);
            SortedByAddr(cells) && OnlyAsmShare(cells)
    ensures multiset(Merged(asm, c, tables))
            == multiset(Kept(AllC(AllAsm(asm), c), tables)) + multiset(TableCells(tables))
  {
    AllAsmShare(asm);
    AllCShare(AllAsm(asm), c);
    var kept, t := Kept(AllC(AllAsm(asm), c), tables), TableCells(tables);
    KeptShare(AllC(AllAsm(asm), c), tables);
    forall i, j | 0 <= i < j < |kept + t|
      ensures AsmPair((kept + t)[i], (kept + t)[j])
    {
      if j < |kept| { assert AsmPair(kept[i], kept[j]); }
    }
    SortedFacts(kept + t);
  }

  // ----- merge loses no address -----

  lemma {:induction false} AsmHasCell(asm: seq<Def>, n: nat)
    requires n < |asm|
    ensures HasKey(AllAsm(asm), asm[n])
  {
    var init, last := asm[..|asm| - 1], asm[|asm| - 1];
    var cells := AllAsm(init);
    if n < |asm| - 1 {
      AsmHasCell(init, n);
      var k :| 0 <= k < |cells| && SameKey(cells[k], asm[n]);
      assert AllAsm(asm)[k] == cells[k];
    } else if !HasKey(cells, last) {
      assert SameKey(AllAsm(asm)[|cells|], last);
    }
  }

  /** Adding C definitions moves, renames and shrinks no cell. */
  lemma {:induction false} AllCKeeps(cells: seq<Cell>, c: seq<Def>, k: nat)
    requires k < |cells|
    ensures k < |AllC(cells, c)|
    ensures var x := AllC(cells, c)[k];
            x.name == cells[k].name && x.addr == cells[k].addr && x.asm == cells[k].asm && x.size >= cells[k].size
  {
    if c != [] { AllCKeeps(cells, c[..|c| - 1], k); }
  }

  /** Every C definition has a cell at its address, and one that meets an assembler cell finds
      room in it. */
  lemma {:induction false} CHasCell(cells: seq<Cell>, c: seq<Def>, n: nat) returns (k: nat)
    requires n < |c|
    ensures k < |AllC(cells, c)| && AllC(cells, c)[k].addr == c[n].addr
    ensures AllC(cells, c)[k].asm ==> AllC(cells, c)[k].size >= c[n].size
  {
    var init, last := c[..|c| - 1], c[|c| - 1];
    var before := AllC(cells, init);
    if n < |c| - 1 {
      k := CHasCell(cells, init, n);
      assert AllC(cells, c) == AddC(before, last);
    } else {
      var hit := FirstAt(before, last.addr, true);
      if hit < |before| {
        k := hit;
      } else if HasKey(before, last) {
        k :| 0 <= k < |before| && SameKey(before[k], last);
      } else {
        k := FirstAt(before, last.addr, false);
      }
    }
  }

  lemma DefHasCell(asm: seq<Def>, c: seq<Def>, d: Def) returns (k: nat)
    requires d in asm || d in c
    ensures k < |AllC(AllAsm(asm), c)| && AllC(AllAsm(asm), c)[k].addr == d.addr
  {
    if d in asm {
      var n :| 0 <= n < |asm| && asm[n] == d;
      AsmHasCell(asm, n);
      k :| 0 <= k < |AllAsm(asm)| && SameKey(AllAsm(asm)[k], d);
      AllCKeeps(AllAsm(asm), c, k);
    } else {
      var n :| 0 <= n < |c| && c[n] == d;
      k := CHasCell(AllAsm(asm), c, n);
    }
  }

  lemma InMerged(asm: seq<Def>, c: seq<Def>, tables: seq<Def>, x: Cell)
    requires x in TableCells(tables) || (x in AllC(AllAsm(asm), c) && !Absorbed(x, tables))
    ensures x in Merged(asm, c, tables)
  {
    MergedFacts(asm, c, tables);
    AllAsmShare(asm);
    AllCShare(AllAsm(asm), c);
    KeptShare(AllC(AllAsm(asm), c), tables);
    assert x in multiset(Merged(asm, c, tables));
  }

  /** Every definition, from whichever source, is the start of some merged cell: its own, one it
      is an alias of, or the table it is the base of. */
  lemma StartKept(asm: seq<Def>, c: seq<Def>, tables: seq<Def>, d: Def) returns (x: Cell)
    requires d in asm || d in c || d in tables
    ensures x in Merged(asm, c, tables) && x.addr == d.addr
  {
    if d in tables {
      var t :| 0 <= t < |tables| && tables[t] == d;
      x := TableCells(tables)[t];
    } else {
      var k := DefHasCell(asm, c, d);
      x := AllC(AllAsm(asm), c)[k];
      if Absorbed(x, tables) {
        var t :| 0 <= t < |tables| && tables[t].addr == x.addr;
        x := TableCells(tables)[t];
      }
    }
    InMerged(asm, c, tables, x);
  }

  /** No C definition brings a cell to an address that none of them names. */
  lemma {:induction false} AllCNoneAt(cells: seq<Cell>, c: seq<Def>, addr: int)
    requires forall k :: 0 <= k < |cells| ==> cells[k].addr != addr
    requires forall m :: 0 <= m < |c| ==> c[m].addr != addr
    ensures forall k :: 0 <= k < |AllC(cells, c)| ==> AllC(cells, c)[k].addr != addr
  {
    if c != [] { AllCNoneAt(cells, c[..|c| - 1], addr); }
  }

  /** Some cell stands at the address, and every one there is the C cell with this name and size. */
  predicate OnlyC(cells: seq<Cell>, d: Def) {
    && (exists k :: 0 <= k < |cells| && cells[k].addr == d.addr)
    && forall k :: 0 <= k < |cells| && cells[k].addr == d.addr ==>
         cells[k] == Cell(d.name, d.addr, d.size, false, false)
  }

  lemma OnlyCAdd(cells: seq<Cell>, d: Def, e: Def)
    requires OnlyC(cells, d)
    ensures OnlyC(AddC(cells, e), d)
  {
    var k :| 0 <= k < |cells| && cells[k].addr == d.addr;
    assert AddC(cells, e)[k].addr == d.addr;
    if e.addr == d.addr { assert AddC(cells, e) == cells; }
  }

  /** Where no assembler cell stands, the first C definition decides: a later one at its address
      is an alias, and its size is dropped even if it is larger. */
  lemma {:induction false} FirstCWins(cells: seq<Cell>, c: seq<Def>, n: nat)
    requires n < |c| && forall k :: 0 <= k < |cells| ==> cells[k].addr != c[n].addr
    requires forall m :: 0 <= m < n ==> c[m].addr != c[n].addr
    ensures OnlyC(AllC(cells, c), c[n])
  {
    var init, last := c[..|c| - 1], c[|c| - 1];
    var before := AllC(cells, init);
    if n < |init| {
      FirstCWins(cells, init, n);
      OnlyCAdd(before, c[n], last);
    } else {
      AllCNoneAt(cells, init, last.addr);
      assert AddC(before, last)[|before|].addr == last.addr;
    }
  }

  // ----- check -----

  /** A byte both cells claim. */
  ghost predicate Intersect(a: Cell, b: Cell) {
    exists x :: Claims(a, x) && Claims(b, x)
  }

  predicate Claims(c: Cell, x: int) { c.addr <= x < c.addr + c.size }

  /** The shared-use entry consulted for a pair names both cells. */
  predicate Allowed(shared: map<int, set<string>>, a: Cell, b: Cell) {
    if a.addr in shared then Norm(a.name) in shared[a.addr] && Norm(b.name) in shared[a.addr]
    else b.addr in shared && Norm(a.name) in shared[b.addr] && Norm(b.name) in shared[b.addr]
  }

  /** An assembler cell at this address. */
  predicate AsmAt(c: Cell, addr: int) { !c.table && c.asm && c.addr == addr }

  /** The address has two assembler cells and no shared-use entry that names all of them. */
  ghost predicate DoublyUsed(cells: seq<Cell>, shared: map<int, set<string>>, addr: int) {
    && (exists i, j :: 0 <= i < j < |cells| && AsmAt(cells[i], addr) && AsmAt(cells[j], addr))
    && !(addr in shared
         && forall k :: 0 <= k < |cells| && AsmAt(cells[k], addr) ==> Norm(cells[k].name) in shared[addr])
  }

  /** The second cell starts inside the first, and the pair is not one that part one judges. */
  predicate Runs(cells: seq<Cell>, shared: map<int, set<string>>, i: nat, j: nat)
    requires i < |cells| && j < |cells|
  {
    var a, b := cells[i], cells[j];
    && b.addr < a.addr + a.size
    && (b.addr != a.addr || a.table || b.table)
    && !Allowed(shared, a, b)
  }

  /** Part one: for each address of an ordinary cell, once, the assembler cells there. */
  method CheckDoubles(cells: seq<Cell>, shared: map<int, set<string>>) returns (problems: seq<Problem>)
    ensures forall p :: p in problems ==> p.Double? && DoublyUsed(cells, shared, p.addr)
    ensures forall addr :: DoublyUsed(cells, shared, addr) ==> Double(addr) in problems
  {
    problems := [];
    var done: set<int> := {};
    for n := 0 to |cells|
      invariant forall k :: 0 <= k < n && !cells[k].table ==> cells[k].addr in done
      invariant forall p :: p in problems ==> p.Double? && DoublyUsed(cells, shared, p.addr)
      invariant forall addr :: addr in done && DoublyUsed(cells, shared, addr) ==> Double(addr) in problems
    {
      var addr := cells[n].addr;
      if !cells[n].table && addr !in done {
        done := done + {addr};
        var bad := JudgeAddress(cells, shared, addr);
        if bad {
          problems := problems + [Double(addr)];
        }
      }
    }
  }

  method JudgeAddress(cells: seq<Cell>, shared: map<int, set<string>>, addr: int) returns (bad: bool)
    ensures bad <==> DoublyUsed(cells, shared, addr)
  {
    var group: seq<nat> := [];
    for n := 0 to |cells|
      invariant forall g :: 0 <= g < |group| ==> group[g] < n && AsmAt(cells[group[g]], addr)
      invariant forall g, h :: 0 <= g < h < |group| ==> group[g] < group[h]
      invariant forall k :: 0 <= k < n && AsmAt(cells[k], addr) ==> k in group
    {
      if AsmAt(cells[n], addr) { group := group + [n]; }
    }
    if |group| <= 1 {
      return false;
    }
    assert AsmAt(cells[group[0]], addr) && AsmAt(cells[group[1]], addr) && group[0] < group[1];
    if addr !in shared {
      return true;
    }
    for g := 0 to |group|
      invariant forall h :: 0 <= h < g ==> Norm(cells[group[h]].name) in shared[addr]
    {
      if Norm(cells[group[g]].name) !in shared[addr] {
        return true;
      }
    }
    return false;
  }

  predicate Reported(cells: seq<Cell>, shared: map<int, set<string>>, p: Problem) {
    p.Overlap? && p.first < p.second < |cells| && Runs(cells, shared, p.first, p.second)
  }

  /** Part two: each cell against the ones after it, up to the first that starts behind its end. */
  method CheckOverlaps(cells: seq<Cell>, shared: map<int, set<string>>) returns (problems: seq<Problem>)
    requires SortedByAddr(cells)
    ensures forall p :: p in problems ==> Reported(cells, shared, p)
    ensures forall i: nat, j: nat :: i < j < |cells| && Runs(cells, shared, i, j) ==> Overlap(i, j) in problems
  {
    problems := [];
    for i := 0 to |cells|
      invariant forall p :: p in problems ==> Reported(cells, shared, p)
      invariant forall m: nat, j: nat ::
                  m < i && m < j < |cells| && Runs(cells, shared, m, j) ==> Overlap(m, j) in problems
    {
      var end := cells[i].addr + cells[i].size;
      var j := i + 1;
      while j < |cells|
        invariant i < j <= |cells|
        invariant forall p :: p in problems ==> Reported(cells, shared, p)
        invariant forall m: nat, k: nat ::
                    m < i && m < k < |cells| && Runs(cells, shared, m, k) ==> Overlap(m, k) in problems
        invariant forall k: nat :: i < k < j && Runs(cells, shared, i, k) ==> Overlap(i, k) in problems
      {
        if cells[j].addr >= end {
          break;
        }
        if (cells[j].addr != cells[i].addr || cells[i].table || cells[j].table)
           && !Allowed(shared, cells[i], cells[j]) {
          problems := problems + [Overlap(i, j)];
        }
        j := j + 1;
      }
    }
  }

  /** There is nothing to report. */
  ghost predicate Silent(cells: seq<Cell>, shared: map<int, set<string>>) {
    && (forall addr :: !DoublyUsed(cells, shared, addr))
    && (forall i: nat, j: nat :: i < j < |cells| ==> !Runs(cells, shared, i, j))
  }

  method Check(cells: seq<Cell>, shared: map<int, set<string>>) returns (problems: seq<Problem>)
    requires SortedByAddr(cells)
    ensures problems == [] <==> Silent(cells, shared)
  {
    var doubles := CheckDoubles(cells, shared);
    var overlaps := CheckOverlaps(cells, shared);
    problems := doubles + overlaps;
    if problems != [] {
      var p := problems[0];
      assert p in doubles || p in overlaps;
    }
  }

  /** If check reports nothing on merged cells, every two cells that claim a common byte are
      covered by a shared-use entry that names both. */
  lemma SilentMeansCovered(asm: seq<Def>, c: seq<Def>, tables: seq<Def>, shared: map<int, set<string>>, i: nat, j: nat)
    requires i < j < |Merged(asm, c, tables)|
    requires Silent(Merged(asm, c, tables), shared)
    requires Intersect(Merged(asm, c, tables)[i], Merged(asm, c, tables)[j])
    ensures Allowed(shared, Merged(asm, c, tables)[i], Merged(asm, c, tables)[j])
  {
    MergedFacts(asm, c, tables);
    var cells := Merged(asm, c, tables);
    var a, b := cells[i], cells[j];
    assert a.addr <= b.addr && !Runs(cells, shared, i, j);
    if b.addr == a.addr && !a.table && !b.table {
      assert AsmPair(cells[i], cells[j]);
      assert AsmAt(cells[i], a.addr) && AsmAt(cells[j], a.addr);
      assert !DoublyUsed(cells, shared, a.addr);
    }
  }

  /** The other way round: with cells of at least one byte, whatever check reports is two cells that
      claim a common byte without a shared-use entry for both. */
  lemma DoublesAreReal(cells: seq<Cell>, shared: map<int, set<string>>, addr: int) returns (i: nat, j: nat)
    requires forall k :: 0 <= k < |cells| ==> cells[k].size > 0
    requires DoublyUsed(cells, shared, addr)
    ensures i < j < |cells| && Intersect(cells[i], cells[j]) && !Allowed(shared, cells[i], cells[j])
  {
    i, j :| 0 <= i < j < |cells| && AsmAt(cells[i], addr) && AsmAt(cells[j], addr);
    if addr in shared {
      var k :| 0 <= k < |cells| && AsmAt(cells[k], addr) && Norm(cells[k].name) !in shared[addr];
      if k < j { i := k; } else if k > j { i, j := j, k; }
    }
    assert Claims(cells[i], addr) && Claims(cells[j], addr);
  }

  lemma RunsAreReal(cells: seq<Cell>, shared: map<int, set<string>>, i: nat, j: nat)
    requires SortedByAddr(cells) && forall k :: 0 <= k < |cells| ==> cells[k].size > 0
    requires i < j < |cells| && Runs(cells, shared, i, j)
    ensures Intersect(cells[i], cells[j]) && !Allowed(shared, cells[i], cells[j])
  {
    assert cells[i].addr <= cells[j].addr;
    assert Claims(cells[i], cells[j].addr) && Claims(cells[j], cells[j].addr);
  }

  /** Every two cells that claim a common byte are covered. */
  ghost predicate Covered(cells: seq<Cell>, shared: map<int, set<string>>) {
    forall i, j :: 0 <= i < j < |cells| && Intersect(cells[i], cells[j]) ==> Allowed(shared, cells[i], cells[j])
  }

  lemma CoveredMeansSilent(cells: seq<Cell>, shared: map<int, set<string>>)
    requires SortedByAddr(cells) && Covered(cells, shared) && forall k :: 0 <= k < |cells| ==> cells[k].size > 0
    ensures Silent(cells, shared)
  {
    forall addr
      ensures !DoublyUsed(cells, shared, addr)
    {
      if DoublyUsed(cells, shared, addr) { var i, j := DoublesAreReal(cells, shared, addr); }
    }
    forall i: nat, j: nat | i < j < |cells|
      ensures !Runs(cells, shared, i, j)
    {
      if Runs(cells, shared, i, j) { RunsAreReal(cells, shared, i, j); }
    }
  }

  /** The whole tool: a silent check leaves no two cells overlapping without a shared-use entry, and
      where every cell has a byte it is silent only then. */
  method MergeAndCheck(asm: seq<Def>, c: seq<Def>, tables: seq<Def>, shared: map<int, set<string>>)
    returns (cells: seq<Cell>, problems: seq<Problem>)
    ensures cells == Merged(asm, c, tables)
    ensures problems == [] ==> Covered(cells, shared)
    ensures (forall k :: 0 <= k < |cells| ==> cells[k].size > 0) ==> (problems == [] <==> Covered(cells, shared))
  {
    cells := Merge(asm, c, tables);
    MergedFacts(asm, c, tables);
    problems := Check(cells, shared);
    if problems == [] {
      forall i, j | 0 <= i < j < |cells| && Intersect(cells[i], cells[j])
        ensures Allowed(shared, cells[i], cells[j])
      {
        SilentMeansCovered(asm, c, tables, shared, i, j);
      }
    } else if Covered(cells, shared) && forall k :: 0 <= k < |cells| ==> cells[k].size > 0 {
      CoveredMeansSilent(cells, shared);
      assert false;
    }
  }
}
