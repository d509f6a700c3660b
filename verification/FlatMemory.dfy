/**
  map_page_for_pagetable with the MMU off, for a block anywhere in memory.

  All three levels of map_page_for_table_h are then live: whichever of the block's tables are
  missing, the procedure builds them out of the block itself.
*/
module FlatMemory {
  import opened Wrappers
  import opened Words
  import opened PageTable
  import opened Machine
  import opened Handover

  // The four pages of the block follow each other in one 2 MB window.
  predicate Together(b: Block) {
    && b.table.i3 <= 508
    && b.l1 == b.table.(i3 := b.table.i3 + 1)
    && b.l2 == b.table.(i3 := b.table.i3 + 2)
    && b.l3 == b.table.(i3 := b.table.i3 + 3)
  }

  predicate IsTemp(p: Page) { p == TMP1 || p == TMP2 || p == TMP3 }

  predicate IsNew(b: Block, p: Page) { p == b.l1 || p == b.l2 || p == b.l3 }

  ghost predicate Apart(ram: Ram, b: Block) {
    && Unreachable(ram, TMP1) && Unreachable(ram, TMP2) && Unreachable(ram, TMP3)
    && Unreachable(ram, b.l1) && Unreachable(ram, b.l2) && Unreachable(ram, b.l3)
  }

  // The temporary tables and the new tables are not in the tree; the first two temporaries are zero.
  // The third one may hold entries left over from earlier calls.
  ghost predicate FlatReady(m: Machine, b: Block) {
    && !m.on && !m.stuck && Together(b) && Tree(m.ram)
    && Apart(m.ram, b) && !IsTemp(b.l1) && !IsTemp(b.l2) && !IsTemp(b.l3)
    && PageAt(m.ram, TMP1) == ZEROS && PageAt(m.ram, TMP2) == ZEROS
    && Translate(m.ram, b.table) == None
  }

  ghost predicate Gap1(ram: Ram, b: Block) { TableAt(ram, L1(b.table.i0)) == None }
  ghost predicate Gap2(ram: Ram, b: Block) { TableAt(ram, L2(b.table.i0, b.table.i1)) == None }
  ghost predicate Gap3(ram: Ram, b: Block) { TableAt(ram, Window(b.table)) == None }

  // Every missing table of the block's window is now a page of the block, each of these is mapped to
  // itself and so is the new page; no other table and no other translation changed.
  ghost predicate FlatAllocated(before: Ram, after: Ram, b: Block) {
    && (forall q :: TableAt(after, q) ==
                    if q == L1(b.table.i0) && Gap1(before, b) then Some(b.l1)
                    else if q == L2(b.table.i0, b.table.i1) && Gap2(before, b) then Some(b.l2)
                    else if q == Window(b.table) && Gap3(before, b) then Some(b.l3)
                    else TableAt(before, q))
    && (forall va :: Translate(after, va) ==
                     if va == b.table || (va == b.l1 && Gap1(before, b)) || (va == b.l2 && Gap2(before, b))
                        || (va == b.l3 && Gap3(before, b))
                     then Some(Mapping(va, NORMAL))
                     else Translate(before, va))
  }

  ghost predicate FlatDone(before: Ram, r: Machine, b: Block) {
    && !r.stuck && FlatAllocated(before, r.ram, b) && Tree(r.ram)
    && Unreachable(r.ram, TMP1) && Unreachable(r.ram, TMP2) && Unreachable(r.ram, TMP3)
    && PageAt(r.ram, TMP1) == ZEROS && PageAt(r.ram, TMP2) == ZEROS
  }

  // ---- what the procedure writes ----

  // Pages other than these keep their contents.
  ghost predicate OnlyThese(before: Ram, after: Ram, b: Block, t: Page) {
    forall p :: p != t && !IsTemp(p) && !IsNew(b, p) ==> PageAt(after, p) == PageAt(before, p)
  }

  lemma FlatZero(m: Machine, t: Page)
    requires !m.on && !m.stuck
    ensures var r := ZeroPage(m, t); !r.stuck && PageAt(r.ram, t) == ZEROS && OnlyPage(m.ram, r.ram, t)
  {
    ZeroPageEffect(m, t);
  }

  lemma FlatStore(m: Machine, t: Page, i: Index, w: Word)
    requires !m.on && !m.stuck
    ensures var r := Store(m, t, i, w);
            !r.stuck && PageAt(r.ram, t) == PageAt(m.ram, t)[i := w] && OnlyPage(m.ram, r.ram, t)
  {
  }

  function NewL2(b: Block): Table { ZEROS[b.l3.i2 := Word(true, b.l3, TABLE)] }
  function NewL1(b: Block): Table { ZEROS[b.l3.i1 := Word(true, b.l2, TABLE)] }
  function Filled2(b: Block): Table { Filled(b)[b.l2.i3 := Word(true, b.l2, NORMAL)] }
  function Filled1(b: Block): Table { Filled2(b)[b.l1.i3 := Word(true, b.l1, NORMAL)] }

  predicate Blocks(b: Block, t: Page) {
    Together(b) && !IsTemp(b.l1) && !IsTemp(b.l2) && !IsTemp(b.l3) && !IsNew(b, t)
  }

  lemma Level3(m: Machine, t: Page, b: Block)
    requires !m.on && !m.stuck && Blocks(b, t) && t != TMP3 && !Get(m.ram, t, b.l3.i2).valid
    ensures var r := MapForTable(m, t, b, 3);
            && !r.stuck && PageAt(r.ram, b.l3) == Filled(b)
            && PageAt(r.ram, t) == PageAt(m.ram, t)[b.l3.i2 := Word(true, TMP3, TABLE)]
            && (forall p :: p != t && p != TMP3 && p != b.l3 ==> PageAt(r.ram, p) == PageAt(m.ram, p))
  {
    hide Store, ZeroPage;
    var m1 := Store(m, t, b.l3.i2, Word(true, TMP3, TABLE));
    FlatStore(m, t, b.l3.i2, Word(true, TMP3, TABLE));
    var m2 := Store(m1, TMP3, b.l3.i3, Word(true, b.l3, NORMAL));
    FlatStore(m1, TMP3, b.l3.i3, Word(true, b.l3, NORMAL));
    var m3 := ZeroPage(m2, b.l3);
    FlatZero(m2, b.l3);
    var m4 := Store(m3, b.l3, b.l3.i3, Word(true, b.l3, NORMAL));
    FlatStore(m3, b.l3, b.l3.i3, Word(true, b.l3, NORMAL));
    FlatStore(m4, b.l3, b.table.i3, Word(true, b.table, NORMAL));
  }

  lemma Level2(m: Machine, t: Page, b: Block)
    requires !m.on && !m.stuck && Blocks(b, t) && t != TMP3 && t != TMP2 && !Get(m.ram, t, b.l3.i1).valid
    requires PageAt(m.ram, TMP2) == ZEROS
    ensures var r := MapForTable(m, t, b, 2);
            && !r.stuck && PageAt(r.ram, b.l3) == Filled2(b) && PageAt(r.ram, b.l2) == NewL2(b)
            && PageAt(r.ram, t) == PageAt(m.ram, t)[b.l3.i1 := Word(true, TMP2, TABLE)]
            && (forall p :: p != t && p != TMP2 && p != TMP3 && p != b.l3 && p != b.l2 ==>
                PageAt(r.ram, p) == PageAt(m.ram, p))
  {
    hide Store, ZeroPage, Filled;
    var m1 := Store(m, t, b.l3.i1, Word(true, TMP2, TABLE));
    FlatStore(m, t, b.l3.i1, Word(true, TMP2, TABLE));
    var m2 := MapForTable(m1, TMP2, b, 3);
    Level3(m1, TMP2, b);
    var m3 := Store(m2, b.l3, b.l2.i3, Word(true, b.l2, NORMAL));
    FlatStore(m2, b.l3, b.l2.i3, Word(true, b.l2, NORMAL));
    var m4 := ZeroPage(m3, b.l2);
    FlatZero(m3, b.l2);
    FlatStore(m4, b.l2, b.l3.i2, Word(true, b.l3, TABLE));
  }

  lemma Level1(m: Machine, b: Block)
    requires !m.on && !m.stuck && Blocks(b, ROOT) && !Get(m.ram, ROOT, b.l3.i0).valid
    requires PageAt(m.ram, TMP1) == ZEROS && PageAt(m.ram, TMP2) == ZEROS
    ensures var r := MapForTable(m, ROOT, b, 1);
            && !r.stuck && PageAt(r.ram, b.l3) == Filled1(b) && PageAt(r.ram, b.l2) == NewL2(b)
                && PageAt(r.ram, b.l1) == NewL1(b)
            && PageAt(r.ram, ROOT) == PageAt(m.ram, ROOT)[b.l3.i0 := Word(true, TMP1, TABLE)]
            && OnlyThese(m.ram, r.ram, b, ROOT)
  {
    hide Store, ZeroPage, Filled2, NewL2;
    var m1 := Store(m, ROOT, b.l3.i0, Word(true, TMP1, TABLE));
    FlatStore(m, ROOT, b.l3.i0, Word(true, TMP1, TABLE));
    var m2 := MapForTable(m1, TMP1, b, 2);
    Level2(m1, TMP1, b);
    var m3 := Store(m2, b.l3, b.l1.i3, Word(true, b.l1, NORMAL));
    FlatStore(m2, b.l3, b.l1.i3, Word(true, b.l1, NORMAL));
    var m4 := ZeroPage(m3, b.l1);
    FlatZero(m3, b.l1);
    FlatStore(m4, b.l1, b.l3.i1, Word(true, b.l2, TABLE));
  }

  // ---- what the tree makes of it ----

  // The final contents of the pages, with t the lowest table that existed before.
  ghost predicate Rebuilt(before: Ram, after: Ram, b: Block, t: Page, i: Index, n: Page) {
    && PageAt(after, t) == PageAt(before, t)[i := Word(true, n, TABLE)]
    && OnlyThese(before, after, b, t)
    && PageAt(after, TMP1) == ZEROS && PageAt(after, TMP2) == ZEROS
  }

  // Linking a page under a slot that was empty.
  lemma Link(x: Ram, y: Ram, t: Page, p: Path, i: Index, n: Page)
    requires !p.L3? && OnlyAt(x, t, p) && OnlyPage(x, y, t) && TableAt(x, Child(p, i)) == None
    requires PageAt(y, t) == PageAt(x, t)[i := Word(true, n, TABLE)]
    requires p.L2? || PageAt(y, n) == ZEROS
    requires Unreachable(x, n)
    ensures forall q :: TableAt(y, q) == if q == Child(p, i) then Some(n) else TableAt(x, q)
    ensures forall va :: Translate(y, va) ==
                         if p.L2? && Window(va) == Child(p, i) then Leaf(Get(y, n, va.i3)) else Translate(x, va)
    ensures OnlyAt(y, n, Child(p, i))
  {
    assert TableAt(x, Child(p, i)) == Follow(x, Some(t), i);
    OneSlot(x, y, t, p, i, Word(true, n, TABLE));
    LinkEffect(x, y, p, i, n);
  }

  // The state after, but with the lowest old table as it was before: the same tree as before.
  lemma Unlinked(before: Ram, after: Ram, b: Block, t: Page, x: Ram)
    requires Apart(before, b)
    requires OnlyThese(before, after, b, t)
    requires PageAt(x, t) == PageAt(before, t)
    requires forall p :: p != t && !IsNew(b, p) ==> PageAt(x, p) == PageAt(after, p)
    ensures forall q :: TableAt(x, q) == TableAt(before, q)
    ensures forall v :: Translate(x, v) == Translate(before, v)
  {
    forall q, j: Index | TableAt(before, q).Some?
      ensures Get(x, TableAt(before, q).value, j) == Get(before, TableAt(before, q).value, j)
    {
      var p := TableAt(before, q).value;
      assert !IsTemp(p) && !IsNew(b, p);
    }
    FrameEffect(before, x);
  }

  lemma Links3(before: Ram, after: Ram, b: Block, t: Page)
    requires Apart(before, b)
    requires OnlyAt(before, t, L2(b.table.i0, b.table.i1)) && Gap3(before, b) && Together(b)
    requires Rebuilt(before, after, b, t, b.table.i2, b.l3)
    ensures forall q :: TableAt(after, q) == if q == Window(b.table) then Some(b.l3) else TableAt(before, q)
    ensures forall va :: Translate(after, va) ==
                         if Window(va) == Window(b.table) then Leaf(Get(after, b.l3, va.i3)) else Translate(before, va)
  {
    hide TableAt, Translate;
    var x := after[t := PageAt(before, t)];
    assert !IsNew(b, t);
    Unlinked(before, after, b, t, x);
    Link(x, after, t, L2(b.table.i0, b.table.i1), b.table.i2, b.l3);
  }

  lemma Links2(before: Ram, after: Ram, b: Block, t: Page)
    requires Apart(before, b)
    requires OnlyAt(before, t, L1(b.table.i0)) && Gap2(before, b) && Gap3(before, b) && Together(b)
    requires Rebuilt(before, after, b, t, b.table.i1, b.l2) && PageAt(after, b.l2) == NewL2(b)
    ensures forall q :: TableAt(after, q) ==
                        if q == L2(b.table.i0, b.table.i1) then Some(b.l2)
                        else if q == Window(b.table) then Some(b.l3) else TableAt(before, q)
    ensures forall va :: Translate(after, va) ==
                         if Window(va) == Window(b.table) then Leaf(Get(after, b.l3, va.i3)) else Translate(before, va)
  {
    hide TableAt, Translate;
    assert !IsNew(b, t);
    var y := after[b.l2 := ZEROS];
    var x := y[t := PageAt(before, t)];
    Unlinked(before, after, b, t, x);
    Link(x, y, t, L1(b.table.i0), b.table.i1, b.l2);
    Link(y, after, b.l2, L2(b.table.i0, b.table.i1), b.table.i2, b.l3);
  }

  lemma Links1(before: Ram, after: Ram, b: Block)
    requires Apart(before, b)
    requires OnlyAt(before, ROOT, Root) && Gap1(before, b) && Gap2(before, b) && Gap3(before, b) && Together(b)
    requires Rebuilt(before, after, b, ROOT, b.table.i0, b.l1)
    requires PageAt(after, b.l1) == NewL1(b) && PageAt(after, b.l2) == NewL2(b)
    ensures forall q :: TableAt(after, q) ==
                        if q == L1(b.table.i0) then Some(b.l1)
                        else if q == L2(b.table.i0, b.table.i1) then Some(b.l2)
                        else if q == Window(b.table) then Some(b.l3) else TableAt(before, q)
    ensures forall va :: Translate(after, va) ==
                         if Window(va) == Window(b.table) then Leaf(Get(after, b.l3, va.i3)) else Translate(before, va)
  {
    hide TableAt, Translate;
    assert !IsNew(b, ROOT);
    var z := after[b.l2 := ZEROS];
    var y := z[b.l1 := ZEROS];
    var x := y[ROOT := PageAt(before, ROOT)];
    Unlinked(before, after, b, ROOT, x);
    Link(x, y, ROOT, Root, b.table.i0, b.l1);
    Link(y, z, b.l1, L1(b.table.i0), b.table.i1, b.l2);
    Link(z, after, b.l2, L2(b.table.i0, b.table.i1), b.table.i2, b.l3);
  }
  lemma Gaps(ram: Ram, b: Block)
    ensures Gap1(ram, b) ==> Gap2(ram, b)
    ensures Gap2(ram, b) ==> Gap3(ram, b)
    ensures Gap3(ram, b) ==> forall va :: Window(va) == Window(b.table) ==> Translate(ram, va) == None
  {
  }

  // The swap at the end: the slot that held a temporary table now holds the new one.
  lemma Swap(m: Machine, n: Machine, b: Block, t: Page, i: Index, temp: Page, fin: Page)
    requires !n.on && !n.stuck && OnlyThese(m.ram, n.ram, b, t)
    requires PageAt(n.ram, t) == PageAt(m.ram, t)[i := Word(true, temp, TABLE)]
    ensures var r := Store(n, t, i, Word(true, fin, TABLE));
            && !r.stuck && OnlyThese(m.ram, r.ram, b, t) && OnlyPage(n.ram, r.ram, t)
            && PageAt(r.ram, t) == PageAt(m.ram, t)[i := Word(true, fin, TABLE)]
  {
  }

  // A table of the tree is none of the pages that the procedure writes elsewhere.
  lemma NotNew(m: Machine, b: Block, p: Path, t: Page, i: Index)
    requires FlatReady(m, b) && !p.L3? && TableAt(m.ram, p) == Some(t) && TableAt(m.ram, Child(p, i)) == None
    ensures !IsNew(b, t) && !IsTemp(t) && !Get(m.ram, t, i).valid
  {
    assert TableAt(m.ram, Child(p, i)) == Follow(m.ram, Some(t), i);
  }

  lemma Case3(m: Machine, b: Block, t: Page)
    requires FlatReady(m, b) && TableAt(m.ram, L2(b.table.i0, b.table.i1)) == Some(t) && Gap3(m.ram, b)
    ensures var r := ZeroPage(Store(MapForTable(m, t, b, 3), t, b.table.i2, Word(true, b.l3, TABLE)), TMP1);
            !r.stuck && Rebuilt(m.ram, r.ram, b, t, b.table.i2, b.l3) && PageAt(r.ram, b.l3) == Filled(b)
  {
    hide Store, ZeroPage, MapForTable, Filled, Translate, TableAt;
    NotNew(m, b, L2(b.table.i0, b.table.i1), t, b.table.i2);
    Level3(m, t, b);
    var n := MapForTable(m, t, b, 3);
    Swap(m, n, b, t, b.table.i2, TMP3, b.l3);
    FlatZero(Store(n, t, b.table.i2, Word(true, b.l3, TABLE)), TMP1);
  }

  lemma Case2(m: Machine, b: Block, t: Page)
    requires FlatReady(m, b) && TableAt(m.ram, L1(b.table.i0)) == Some(t) && Gap2(m.ram, b)
    ensures var n := Store(MapForTable(m, t, b, 2), t, b.table.i1, Word(true, b.l2, TABLE));
            var r := ZeroPage(ZeroPage(n, TMP1), TMP2);
            && !r.stuck && Rebuilt(m.ram, r.ram, b, t, b.table.i1, b.l2)
            && PageAt(r.ram, b.l2) == NewL2(b) && PageAt(r.ram, b.l3) == Filled2(b)
  {
    hide Store, ZeroPage, MapForTable, Filled2, NewL2, Translate, TableAt;
    NotNew(m, b, L1(b.table.i0), t, b.table.i1);
    Level2(m, t, b);
    var n := MapForTable(m, t, b, 2);
    Swap(m, n, b, t, b.table.i1, TMP2, b.l2);
    var n1 := Store(n, t, b.table.i1, Word(true, b.l2, TABLE));
    FlatZero(n1, TMP1);
    FlatZero(ZeroPage(n1, TMP1), TMP2);
  }

  lemma Case1(m: Machine, b: Block)
    requires FlatReady(m, b) && Gap1(m.ram, b)
    ensures var n := Store(MapForTable(m, ROOT, b, 1), ROOT, b.table.i0, Word(true, b.l1, TABLE));
            var r := ZeroPage(ZeroPage(ZeroPage(n, TMP1), TMP2), TMP3);
            && !r.stuck && Rebuilt(m.ram, r.ram, b, ROOT, b.table.i0, b.l1)
            && PageAt(r.ram, b.l1) == NewL1(b) && PageAt(r.ram, b.l2) == NewL2(b) && PageAt(r.ram, b.l3) == Filled1(b)
  {
    hide Store, ZeroPage, MapForTable, Filled1, NewL1, NewL2, Translate;
    NotNew(m, b, Root, ROOT, b.table.i0);
    Level1(m, b);
    var n := MapForTable(m, ROOT, b, 1);
    Swap(m, n, b, ROOT, b.table.i0, TMP1, b.l1);
    var n1 := Store(n, ROOT, b.table.i0, Word(true, b.l1, TABLE));
    FlatZero(n1, TMP1);
    FlatZero(ZeroPage(n1, TMP1), TMP2);
    FlatZero(ZeroPage(ZeroPage(n1, TMP1), TMP2), TMP3);
  }

  lemma FlatTree(before: Ram, after: Ram, b: Block)
    requires Tree(before) && Apart(before, b) && Together(b) && FlatAllocated(before, after, b)
    ensures Tree(after)
  {
    hide TableAt, Translate;
    forall p, q | TableAt(after, p).Some? && TableAt(after, p) == TableAt(after, q)
      ensures p == q
    {
      assert forall r ::
          TableAt(before, r) != Some(b.l1) && TableAt(before, r) != Some(b.l2) && TableAt(before, r) != Some(b.l3);
    }
  }

  lemma TempsZero(before: Ram, after: Ram, b: Block, t: Page, i: Index, n: Page)
    requires Rebuilt(before, after, b, t, i, n)
    ensures PageAt(after, TMP1) == ZEROS && PageAt(after, TMP2) == ZEROS
  {
  }

  lemma Done3(before: Ram, r: Machine, b: Block, t: Page)
    requires Tree(before) && Apart(before, b) && Together(b) && OnlyAt(before, t, L2(b.table.i0, b.table.i1))
        && Gap3(before, b)
    requires !Gap2(before, b) && !Gap1(before, b) && !IsTemp(b.l3)
    requires !r.stuck && Rebuilt(before, r.ram, b, t, b.table.i2, b.l3) && PageAt(r.ram, b.l3) == Filled(b)
    ensures FlatDone(before, r, b)
  {
    hide TableAt, Translate, Rebuilt, OnlyThese;
    Links3(before, r.ram, b, t);
    Gaps(before, b);
    FlatTree(before, r.ram, b);
    TempsZero(before, r.ram, b, t, b.table.i2, b.l3);
  }

  lemma Done2(before: Ram, r: Machine, b: Block, t: Page)
    requires Tree(before) && Apart(before, b) && Together(b) && OnlyAt(before, t, L1(b.table.i0)) && Gap2(before, b)
    requires !Gap1(before, b) && !IsTemp(b.l3) && !IsTemp(b.l2)
    requires !r.stuck && Rebuilt(before, r.ram, b, t, b.table.i1, b.l2)
    requires PageAt(r.ram, b.l2) == NewL2(b) && PageAt(r.ram, b.l3) == Filled2(b)
    ensures FlatDone(before, r, b)
  {
    hide TableAt, Translate, Rebuilt, OnlyThese, NewL2;
    Gaps(before, b);
    Links2(before, r.ram, b, t);
    FlatTree(before, r.ram, b);
    TempsZero(before, r.ram, b, t, b.table.i1, b.l2);
  }

  lemma Done1(before: Ram, r: Machine, b: Block)
    requires Tree(before) && Apart(before, b) && Together(b) && OnlyAt(before, ROOT, Root) && Gap1(before, b)
    requires !IsTemp(b.l3) && !IsTemp(b.l2) && !IsTemp(b.l1)
    requires !r.stuck && Rebuilt(before, r.ram, b, ROOT, b.table.i0, b.l1)
    requires PageAt(r.ram, b.l1) == NewL1(b) && PageAt(r.ram, b.l2) == NewL2(b) && PageAt(r.ram, b.l3) == Filled1(b)
    ensures FlatDone(before, r, b)
  {
    hide TableAt, Translate, Rebuilt, OnlyThese, NewL2, NewL1;
    Gaps(before, b);
    Links1(before, r.ram, b);
    FlatTree(before, r.ram, b);
    TempsZero(before, r.ram, b, ROOT, b.table.i0, b.l1);
  }

  lemma Unmapped(ram: Ram, va: Page, t: Page)
    requires TableAt(ram, Window(va)) == Some(t) && Translate(ram, va) == None
    ensures !Get(ram, t, va.i3).valid
  {
  }

  lemma Done4(m: Machine, b: Block, t: Page)
    requires FlatReady(m, b) && TableAt(m.ram, Window(b.table)) == Some(t)
    ensures !Get(m.ram, t, b.table.i3).valid
    ensures FlatDone(m.ram, Store(m, t, b.table.i3, Word(true, b.table, NORMAL)), b)
  {
    hide Translate;
    var r := Store(m, t, b.table.i3, Word(true, b.table, NORMAL));
    Unmapped(m.ram, b.table, t);
    Gaps(m.ram, b);
    assert OnlyAt(m.ram, t, Window(b.table));
    OneSlot(m.ram, r.ram, t, Window(b.table), b.table.i3, Word(true, b.table, NORMAL));
    LeafEffect(m.ram, r.ram, b.table);
    FlatTree(m.ram, r.ram, b);
  }

  // ---- the whole procedure on flat memory ----

  // Reading the slot of a table tells whether the next one exists.
  lemma Slot(m: Machine, b: Block, p: Path, t: Page, i: Index)
    requires FlatReady(m, b) && !p.L3? && TableAt(m.ram, p) == Some(t)
    ensures Load(m, t, i) == (m, Get(m.ram, t, i)) && !m.stuck && !m.on
    ensures TableAt(m.ram, Child(p, i)) == if Get(m.ram, t, i).valid then Some(Get(m.ram, t, i).frame) else None
    ensures Tree(m.ram) && OnlyAt(m.ram, t, p) && Together(b) && Apart(m.ram, b) && !IsTemp(b.l1)
        && !IsTemp(b.l2) && !IsTemp(b.l3)
  {
    hide Translate;
    assert TableAt(m.ram, Child(p, i)) == Follow(m.ram, Some(t), i);
  }

  lemma FlatTail(m: Machine, b: Block, t1: Page)
    requires FlatReady(m, b) && TableAt(m.ram, L1(b.table.i0)) == Some(t1)
    ensures FlatDone(m.ram, AllocUnderL1(m, t1, b), b)
  {
    hide FlatDone, Store, ZeroPage, MapForTable, Rebuilt, Filled, Filled2, NewL2, FlatReady, Translate, TableAt;
    Slot(m, b, L1(b.table.i0), t1, b.table.i1);
    if Gap2(m.ram, b) {
      Case2(m, b, t1);
      Done2(m.ram, AllocUnderL1(m, t1, b), b, t1);
    } else {
      var t2 := TableAt(m.ram, L2(b.table.i0, b.table.i1)).value;
      Slot(m, b, L2(b.table.i0, b.table.i1), t2, b.table.i2);
      if Gap3(m.ram, b) {
        Case3(m, b, t2);
        Done3(m.ram, AllocUnderL2(m, t2, b), b, t2);
      } else {
        Done4(m, b, TableAt(m.ram, Window(b.table)).value);
      }
    }
  }

  lemma ReadyMoved(m: Machine, b: Block, cur: nat)
    requires FlatReady(m, b)
    ensures FlatReady(m.(cur := cur), b)
  {
  }

  lemma FlatAlloc(m: Machine)
    requires m.cur + 4 <= PAGES && FlatReady(m, BlockAt(m.cur))
    ensures FlatDone(m.ram, AllocTable(m), BlockAt(m.cur))
  {
    hide FlatDone, Store, ZeroPage, MapForTable, Rebuilt, Filled1, NewL1, NewL2, FlatReady, Translate;
    hide BlockAt, AllocUnderL1;
    var b := BlockAt(m.cur);
    var n := m.(cur := m.cur + 4);
    assert FlatReady(n, b) by { ReadyMoved(m, b, m.cur + 4); }
    Slot(n, b, Root, ROOT, b.table.i0);
    if Gap1(n.ram, b) {
      Case1(n, b);
      Done1(n.ram, AllocTable(m), b);
    } else {
      FlatTail(n, b, TableAt(n.ram, L1(b.table.i0)).value);
    }
  }
}
