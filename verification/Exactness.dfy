/**
  When map_page_for_pagetable and mmu_map_4kb fail.

  A four-page block may run over the end of a 2 MB window, because palloc_continuous_block never
  skips to the next one; and a slot may be filled while its own table is being allocated.  Both
  break the tree.  Here the conditions under which they do not are shown to be exact.
*/
module Exactness {
  import opened Wrappers
  import opened Words
  import opened PageTable
  import opened Machine
  import opened Handover
  import opened Alloc
  import opened Mapping4K
  import opened MapPages

  lemma HeapShape(n: nat)
    requires HEAP_BASE <= n < HEAP_END
    ensures PageOf(n) == Pg(0, 1, (n - HEAP_BASE) / 512, n % 512)
  {
  }

  // The block b starts in a window without a table and ends in the next one.
  ghost predicate Straddles(m: Machine, l2: Page, b: Block) {
    && !m.stuck && Inv(m.ram, m.cur) && m.cur + 4 <= HEAP_END && b == BlockAt(m.cur)
    && TableAt(m.ram, L2(0, 1)) == Some(l2) && TableAt(m.ram, Window(b.table)) == None && !Fits(m.cur)
  }

  lemma StraddleShape(cur: nat)
    requires HEAP_BASE <= cur && cur + 4 <= HEAP_END && !Fits(cur)
    ensures var b := BlockAt(cur);
            && Window(b.table) == Child(L2(0, 1), b.table.i2) && Window(b.l3) == Child(L2(0, 1), b.l3.i2)
            && b.l3.i2 == b.table.i2 + 1 && b.table.i3 >= 509 && b.l3.i3 <= 2
            && Num(b.table) == cur && Num(b.l3) == cur + 3
  {
    HeapShape(cur);
    HeapShape(cur + 3);
  }

  lemma StraddleAhead(cur: nat)
    requires HEAP_BASE <= cur && cur + 4 <= HEAP_END && !Fits(cur)
    ensures !Behind(cur, Window(BlockAt(cur).l3))
  {
    StraddleShape(cur);
    HeapShape(cur + 3);
  }

  // The next window lies beyond the allocation pointer, so it has no table.
  lemma NextWindowBare(m: Machine, l2: Page, b: Block)
    requires Straddles(m, l2, b)
    ensures TableAt(m.ram, Window(b.l3)) == None
  {
    hide TableAt, Translate, Num, AllTyped, Housed, HeapClean, TempsApart, Tree;
    StraddleAhead(m.cur);
  }

  lemma StraddleFacts(m: Machine, l2: Page, b: Block)
    requires Straddles(m, l2, b)
    ensures OnlyAt(m.ram, l2, L2(0, 1)) && Mapped(m.ram, l2) && l2 != b.l3 && l2 != b.table
    ensures Window(b.table) == Child(L2(0, 1), b.table.i2) && Window(b.l3) == Child(L2(0, 1), b.l3.i2)
    ensures b.l3.i2 == b.table.i2 + 1 && b.l3.i3 != b.table.i3
    ensures Translate(m.ram, b.l3) == None && PageAt(m.ram, b.l3) == ZEROS && Unreachable(m.ram, b.l3)
    ensures Translate(m.ram, b.table) == None && PageAt(m.ram, b.table) == ZEROS && Unreachable(m.ram, b.table)
    ensures TempsApart(m.ram) && b.l3 != TMP1 && b.l3 != TMP3 && b.table != TMP1 && b.table != TMP3
    ensures l2 != TMP1 && l2 != TMP3 && TableAt(m.ram, Window(b.l3)) == None
    ensures AllocTable(m) ==
            ZeroPage(Store(MapForTable(m.(cur := m.cur + 4), l2, b, 3), l2, b.table.i2, Word(true, b.l3, TABLE)), TMP1)
  {
    hide AllocTable, MapForTable, ZeroPage, PageOf, Store, Translate;
    StraddleShape(m.cur);
    NextWindowBare(m, l2, b);
    TreeOnly(m.ram, l2, L2(0, 1));
    FreshUnreachable(m.ram, m.cur, b.l3);
    FreshUnreachable(m.ram, m.cur, b.table);
    AllocTail(m, l2);
    assert TableAt(m.ram, Window(b.table)) == Follow(m.ram, Some(l2), b.table.i2);
    TakeGap(m.(cur := m.cur + 4), l2, b);
  }

  // The next window has no table yet: the temporary table is linked there and stays linked.
  ghost predicate TwoMore(m: Ram, r: Ram, b: Block) {
    && (forall q :: TableAt(r, q) ==
                    if q == Window(b.table) then Some(b.l3) else if q == Window(b.l3) then Some(TMP3)
                        else TableAt(m, q))
    && (forall va :: Window(va) == Window(b.table) ==> Translate(r, va) == Leaf(Filled(b)[va.i3]))
    && (forall va :: Window(va) != Window(b.table) && Window(va) != Window(b.l3) ==>
        Translate(r, va) == Translate(m, va))
  }

  lemma SameResolve(m: Machine, r: Machine, p: Page)
    requires r.on == m.on && Translate(r.ram, p) == Translate(m.ram, p)
    ensures Resolve(r, p) == Resolve(m, p)
  {
    hide Translate;
  }

  lemma DuringSpares(m: Machine, n: Machine, l2: Page, b: Block, p: Page)
    requires During(m, n, l2, b) && p != l2 && p != TMP3 && p != b.l3
    ensures PageAt(n.ram, p) == PageAt(m.ram, p)
  {
  }

  lemma TwoMoreFrame(m: Ram, r1: Ram, r: Ram, b: Block)
    requires TwoMore(m, r1, b)
    requires forall q :: TableAt(r, q) == TableAt(r1, q)
    requires forall va :: Translate(r, va) == Translate(r1, va)
    ensures TwoMore(m, r, b)
  {
    hide Filled;
  }

  lemma TmpAfterSwap(m: Machine, r: Machine, b: Block)
    requires TwoMore(m.ram, r.ram, b) && TempsApart(m.ram) && TableAt(m.ram, Window(b.table)) == None
    requires Window(TMP1) != Window(b.l3) && b.l3 != TMP1
    ensures Resolve(r, TMP1) == Some(TMP1) && Unreachable(r.ram, TMP1)
  {
    hide Filled;
    assert Translate(m.ram, TMP1).Some?;
  }

  lemma StraddleLink(m: Machine, n: Machine, r: Ram, l2: Page, b: Block)
    requires Ready(m, l2, b) && During(m, n, l2, b) && PageAt(n.ram, b.l3) == Filled(b)
    requires Window(b.table) == Child(L2(0, 1), b.table.i2) != Window(b.l3)
    requires OnlyPage(n.ram, r, l2) && PageAt(r, l2) == PageAt(n.ram, l2)[b.table.i2 := Word(true, b.l3, TABLE)]
    ensures TwoMore(m.ram, r, b) && Translate(r, b.l3) == Translate(n.ram, b.l3)
  {
    hide Filled, Translate, Resolve;
    OneSlot(n.ram, r, l2, L2(0, 1), b.table.i2, Word(true, b.l3, TABLE));
    LinkEffect(n.ram, r, L2(0, 1), b.table.i2, b.l3);
  }

  lemma StraddleStore(m: Machine, n: Machine, l2: Page, b: Block)
    requires Ready(m, l2, b) && During(m, n, l2, b) && TempsApart(m.ram)
    requires Window(b.table) == Child(L2(0, 1), b.table.i2) != Window(b.l3)
    requires TableAt(m.ram, Window(b.table)) == None && PageAt(n.ram, b.l3) == Filled(b)
    ensures var r := Store(n, l2, b.table.i2, Word(true, b.l3, TABLE));
            && !r.stuck && OnlyPage(n.ram, r.ram, l2)
            && PageAt(r.ram, l2) == PageAt(n.ram, l2)[b.table.i2 := Word(true, b.l3, TABLE)]
            && Resolve(r, TMP1) == Some(TMP1) && Unreachable(r.ram, TMP1) && Resolve(r, b.l3) == Resolve(n, b.l3)
  {
    hide Filled, TwoMore, TableAt, Translate;
    assert Resolve(n, l2) == Some(l2);
    var r := Store(n, l2, b.table.i2, Word(true, b.l3, TABLE));
    StraddleLink(m, n, r.ram, l2, b);
    TmpAfterSwap(m, r, b);
  }

  lemma StraddleSwap(m: Machine, n: Machine, l2: Page, b: Block)
    requires Ready(m, l2, b) && During(m, n, l2, b) && PageAt(n.ram, b.l3) == Filled(b)
    requires Window(b.table) == Child(L2(0, 1), b.table.i2) != Window(b.l3) && TempsApart(m.ram)
    requires TableAt(m.ram, Window(b.table)) == None && OnlyAt(m.ram, l2, L2(0, 1)) && Resolve(n, b.l3) == Some(b.l3)
    ensures var r := ZeroPage(Store(n, l2, b.table.i2, Word(true, b.l3, TABLE)), TMP1);
            !r.stuck && TwoMore(m.ram, r.ram, b) && Spared(m.ram, r.ram, b) && Resolve(r, b.l3) == Some(b.l3)
  {
    hide ZeroPage, Filled, TwoMore, Ready, During, TempsApart, Store, TableAt, Translate, Resolve;
    var r1 := Store(n, l2, b.table.i2, Word(true, b.l3, TABLE));
    StraddleStore(m, n, l2, b);
    StraddleLink(m, n, r1.ram, l2, b);
    ZeroPageEffect(r1, TMP1);
    var r := ZeroPage(r1, TMP1);
    FrameOnly(r1.ram, r.ram, TMP1);
    TwoMoreFrame(m.ram, r1.ram, r.ram, b);
    SameResolve(r1, r, b.l3);
    forall p | Unreachable(m.ram, p) && p != TMP1 && p != TMP3 && p != b.l3
      ensures PageAt(r.ram, p) == PageAt(m.ram, p)
    {
      DuringSpares(m, n, l2, b, p);
    }
  }

  lemma StraddleIntoGap(m: Machine, l2: Page, b: Block)
    requires Straddles(m, l2, b)
    ensures var r := AllocTable(m);
            !r.stuck && TwoMore(m.ram, r.ram, b) && Spared(m.ram, r.ram, b) && Resolve(r, b.l3) == Some(b.l3)
  {
    hide AllocTable, ZeroPage, PageOf, Num, Inv, Fits, MapForTable, Filled;
    var n := m.(cur := m.cur + 4);
    StraddleFacts(m, l2, b);
    assert TableAt(m.ram, Window(b.l3)) == Follow(m.ram, Some(l2), b.l3.i2);
    assert Translate(m.ram, l2).Some? && Translate(m.ram, TMP1).Some? && Translate(m.ram, TMP3).Some?;
    assert Ready(n, l2, b);
    HandoverEffect(n, l2, b);
    var n1 := MapForTable(n, l2, b, 3);
    StraddleSwap(n, n1, l2, b);
  }

  // ---- map_page_for_pagetable, exactly ----

  lemma AllocSucceeds(m: Machine)
    requires !m.stuck && Inv(m.ram, m.cur) && m.cur + 4 <= HEAP_END && Placeable(m.ram, m.cur)
    ensures AllocGood(m)
  {
    hide Inv, Placeable, AllocTable, Allocated, Spared, Grows, Mapped, PageOf, Num, BlockAt;
    AllocKeeps(m);
  }

  lemma HeapL2(m: Machine) returns (l2: Page)
    requires Inv(m.ram, m.cur)
    ensures TableAt(m.ram, L2(0, 1)) == Some(l2)
  {
    l2 := TableAt(m.ram, L2(0, 1)).value;
  }

  lemma TempNotInv(m: Ram, r: Ram, cur: nat, b: Block)
    requires TwoMore(m, r, b) && Window(b.table) != Window(b.l3)
    ensures !Inv(r, cur)
  {
    assert TableAt(r, Window(b.l3)) == Some(TMP3);
  }

  lemma AllocFails(m: Machine)
    requires !m.stuck && Inv(m.ram, m.cur) && m.cur + 4 <= HEAP_END && !Placeable(m.ram, m.cur)
    ensures !AllocGood(m)
  {
    hide AllocTable, Inv, Allocated, Spared, AllTyped, Grows, PageOf, Num, Fits, TwoMore, OneMore, Translate, TableAt;
    var l2 := HeapL2(m);
    var b := BlockAt(m.cur);
    var r := AllocTable(m);
    StraddleFacts(m, l2, b);
    StraddleIntoGap(m, l2, b);
    TempNotInv(m.ram, r.ram, m.cur + 4, b);
  }

  lemma AllocExact(m: Machine)
    requires !m.stuck && Inv(m.ram, m.cur) && m.cur + 4 <= HEAP_END
    ensures AllocGood(m) <==> Placeable(m.ram, m.cur)
  {
    hide Inv, AllocGood, Placeable;
    if Placeable(m.ram, m.cur) {
      AllocSucceeds(m);
    } else {
      AllocFails(m);
    }
  }

  // ---- mmu_map_4kb, exactly ----

  ghost predicate MapGood(m: Machine, va: Page, pa: Page, k: Kind)
    requires m.cur + 12 < PAGES
  {
    var r := MapPage(m, va, pa, k); Inv(r.ram, r.cur) && MapsTo(m, r, va, pa, k)
  }

  lemma RootHoused(ram: Ram, cur: nat)
    requires Inv(ram, cur)
    ensures TableAt(ram, Root) == Some(ROOT) && Mapped(ram, ROOT)
  {
    TableHoused(ram, cur, Root);
  }

  // With the upper two tables present, the call is the last level and the leaf.
  lemma LastLevel(m: Machine, va: Page, t: Page, pa: Page, k: Kind)
    requires !m.stuck && m.cur <= HEAP_END && Inv(m.ram, m.cur) && TableAt(m.ram, L2(va.i0, va.i1)) == Some(t)
    ensures var (n, l3) := Descend(m, t, va.i2); MapPage(m, va, pa, k) == SetLeaf(n, l3, va.i3, pa, k)
    ensures Mapped(m.ram, t)
  {
    hide Inv, Descend, SetLeaf, Num, TableAt;
    Ancestors(m.ram, va);
    TableHoused(m.ram, m.cur, L2(va.i0, va.i1));
    TableHoused(m.ram, m.cur, L1(va.i0));
    RootHoused(m.ram, m.cur);
    PresentSlot(m, ROOT, Root, va.i0);
    PresentSlot(m, TableAt(m.ram, L1(va.i0)).value, L1(va.i0), va.i1);
  }

  // The missing level 3 table is allocated (a) and linked (s).
  lemma FillStep(m: Machine, t: Page, p: Path, i: Index)
    requires !m.stuck && !p.L3? && TableAt(m.ram, p) == Some(t) && Mapped(m.ram, t) && m.cur + 4 <= PAGES
    requires TableAt(m.ram, Child(p, i)) == None
    requires var a := AllocTable(m); !a.stuck && Mapped(a.ram, t)
    ensures var a := AllocTable(m);
            var s := Store(a, t, i, Word(true, PageOf(m.cur), TABLE));
            && EnsureSlot(m, t, i) == s && !s.stuck && OnlyPage(a.ram, s.ram, t)
            && PageAt(s.ram, t) == PageAt(a.ram, t)[i := Word(true, PageOf(m.cur), TABLE)]
            && (Mapped(s.ram, t) ==> Descend(m, t, i) == (s, PageOf(m.cur)))
  {
    hide AllocTable, PageOf;
    LoadTable(m, p, i);
    assert TableAt(m.ram, Child(p, i)) == Follow(m.ram, Some(t), i);
  }

  // An empty page linked as a level 3 table hides whatever its window translated to.
  lemma EmptyWindow(a: Ram, s: Ram, t: Page, p: Path, i: Index, n: Page)
    requires OnlyAt(a, t, p) && p.L2? && PageAt(a, n) == ZEROS && n != t
    requires OnlyPage(a, s, t) && PageAt(s, t) == PageAt(a, t)[i := Word(true, n, TABLE)]
    ensures forall q :: TableAt(s, q) == if q == Child(p, i) then Some(n) else TableAt(a, q)
    ensures forall va :: Translate(s, va) == if Window(va) == Child(p, i) then None else Translate(a, va)
    ensures PageAt(s, n) == ZEROS
  {
    hide TableAt, Translate;
    OneSlot(a, s, t, p, i, Word(true, n, TABLE));
    LinkEffect(a, s, p, i, n);
  }

  // A table that is not mapped to itself: with the MMU on the next access to it faults, with the MMU
  // off the leaf is written, but the tree is no longer one that could be used.
  lemma DeadLeaf(s: Machine, va: Page, n: Page, pa: Page, k: Kind)
    requires !s.stuck && OnlyAt(s.ram, n, Window(va)) && Translate(s.ram, n) == None && n != va
    ensures var r := SetLeaf(s, n, va.i3, pa, k); (r.stuck || !Inv(r.ram, r.cur)) && (s.on ==> r.stuck)
  {
    if !s.on {
      var r := SetLeaf(s, n, va.i3, pa, k);
      if !Get(s.ram, n, va.i3).valid {
        LeafStep(s, va, Word(true, pa, Attr(k)), n);
      }
      assert TableAt(r.ram, Window(va)) == Some(n) && !Mapped(r.ram, n);
    }
  }

  // What the failing situations have in common after AllocTable: the new page is empty, the
  // table to be extended is where it was, and earlier translations stay.
  ghost predicate Allocation(m: Machine, a: Machine, t: Page, p: Path)
    requires m.cur < PAGES
  {
    && !a.stuck && a.on == m.on && OnlyAt(a.ram, t, p) && PageAt(a.ram, PageOf(m.cur)) == ZEROS && PageOf(m.cur) != t
    && (forall v :: Translate(m.ram, v).Some? ==> Translate(a.ram, v) == Translate(m.ram, v))
    && Unreachable(a.ram, PageOf(m.cur))
  }

  lemma TranslatedElsewhere(ram: Ram, v: Page, va: Page)
    requires Translate(ram, v).Some? && TableAt(ram, Window(va)) == None
    ensures Window(v) != Window(va)
  {
  }

  lemma Extended(m: Machine, va: Page, t: Page, p: Path, pa: Page, k: Kind)
    requires !m.stuck && Inv(m.ram, m.cur) && m.cur + 4 <= HEAP_END
    requires p == L2(va.i0, va.i1) && TableAt(m.ram, p) == Some(t) && TableAt(m.ram, Window(va)) == None
    requires Allocation(m, AllocTable(m), t, p)
    ensures var a := AllocTable(m);
            var s := Store(a, t, va.i2, Word(true, PageOf(m.cur), TABLE));
            && MapPage(m, va, pa, k) == SetLeaf(s, PageOf(m.cur), va.i3, pa, k)
            && !s.stuck && s.on == m.on && PageAt(s.ram, PageOf(m.cur)) == ZEROS && OnlyPage(a.ram, s.ram, t)
            && (forall q :: TableAt(s.ram, q) == if q == Window(va) then Some(PageOf(m.cur)) else TableAt(a.ram, q))
            && (forall v :: Translate(s.ram, v) == if Window(v) == Window(va) then None else Translate(a.ram, v))
  {
    hide AllocTable, PageOf, Num, Inv, SetLeaf, TableAt, Translate;
    var a := AllocTable(m);
    LastLevel(m, va, t, pa, k);
    assert Mapped(a.ram, t);
    FillStep(m, t, p, va.i2);
    EmptyWindow(a.ram, EnsureSlot(m, t, va.i2).ram, t, p, va.i2, PageOf(m.cur));
    TranslatedElsewhere(m.ram, t, va);
  }

  ghost predicate Setting(m: Machine, va: Page, t: Page) {
    && !m.stuck && Inv(m.ram, m.cur) && m.cur + 4 <= HEAP_END && Allowed(m.cur, va)
    && TableAt(m.ram, L2(va.i0, va.i1)) == Some(t) && TableAt(m.ram, Window(va)) == None
  }

  // The new page replaces the table that mapped it.
  lemma LostPage(m: Machine, a: Machine, va: Page, t: Page, pa: Page, k: Kind)
    requires m.cur < PAGES && Allowed(m.cur, va) && m.cur + 4 <= HEAP_END && Allocation(m, a, t, L2(va.i0, va.i1))
    requires var s := Store(a, t, va.i2, Word(true, PageOf(m.cur), TABLE));
             && !s.stuck && s.on == m.on
             && (forall q :: TableAt(s.ram, q) == if q == Window(va) then Some(PageOf(m.cur)) else TableAt(a.ram, q))
             && Translate(s.ram, PageOf(m.cur)) == None
    ensures var s := Store(a, t, va.i2, Word(true, PageOf(m.cur), TABLE));
            var r := SetLeaf(s, PageOf(m.cur), va.i3, pa, k);
            (r.stuck || !Inv(r.ram, r.cur)) && (m.on ==> r.stuck)
  {
    hide SetLeaf, Inv, TableAt, Translate, Store;
    var s := Store(a, t, va.i2, Word(true, PageOf(m.cur), TABLE));
    assert Num(PageOf(m.cur)) == m.cur;
    DeadLeaf(s, va, PageOf(m.cur), pa, k);
  }

  lemma NewPageOut(before: Ram, cur: nat, after: Ram)
    requires Inv(before, cur) && cur + 4 <= PAGES && Allocated(before, after, BlockAt(cur))
    ensures Unreachable(after, PageOf(cur))
  {
    hide Translate, TableAt;
    FreshUnreachable(before, cur, PageOf(cur));
    assert Num(PageOf(cur)) == cur && Num(BlockAt(cur).l3) == cur + 3;
  }

  lemma SharedAllocation(m: Machine, a: Machine, va: Page, t: Page)
    requires Setting(m, va, t) && AllocEndsWell(m.ram, m.cur, a) && a.on == m.on
    ensures Allocation(m, a, t, L2(va.i0, va.i1))
  {
    hide PageOf, Spared, Num, Allocated, AllTyped;
    NewPageZero(m.ram, m.cur, a.ram);
    NewPageOut(m.ram, m.cur, a.ram);
    TreeOnly(a.ram, t, L2(va.i0, va.i1));
  }

  // The block's window is the window of va: linking the new page undoes its own mapping.
  lemma SharedFails(m: Machine, va: Page, t: Page, pa: Page, k: Kind)
    requires Setting(m, va, t) && Placeable(m.ram, m.cur) && Window(va) == Window(PageOf(m.cur))
    ensures var r := MapPage(m, va, pa, k); (r.stuck || !Inv(r.ram, r.cur)) && (m.on ==> r.stuck)
  {
    hide AllocTable, PageOf, Num, MapPage, SetLeaf, Inv, Grows, Placeable, Fits, TableAt, Translate;
    AllocKeeps(m);
    SharedAllocation(m, AllocTable(m), va, t);
    Extended(m, va, t, L2(va.i0, va.i1), pa, k);
    LostPage(m, AllocTable(m), va, t, pa, k);
  }

  lemma TwoMoreAllocation(m: Machine, a: Machine, t: Page, p: Path, b: Block)
    requires m.cur < PAGES && b.table == PageOf(m.cur) && Inv(m.ram, m.cur) && TableAt(m.ram, p) == Some(t) && !p.L3?
    requires !a.stuck && a.on == m.on && TwoMore(m.ram, a.ram, b)
    requires TableAt(m.ram, Window(b.table)) == None && TableAt(m.ram, Window(b.l3)) == None
    requires Spared(m.ram, a.ram, b) && PageAt(m.ram, b.table) == ZEROS && b.table != TMP1
    requires Unreachable(m.ram, b.l3) && Unreachable(m.ram, b.table)
    requires b.table != b.l3 && b.table != TMP3
    ensures Allocation(m, a, t, p)
  {
    hide PageOf, Num, Filled, Translate;
    TreeOnly(m.ram, t, p);
    forall v | Translate(m.ram, v).Some?
      ensures Translate(a.ram, v) == Translate(m.ram, v)
    {
      TranslatedElsewhere(m.ram, v, b.table);
      TranslatedElsewhere(m.ram, v, b.l3);
    }
  }

  lemma NewPageReached(m: Ram, a: Ram, s: Machine, va: Page, b: Block)
    requires TwoMore(m, a, b) && Window(va) != Window(b.table)
    requires forall v :: Translate(s.ram, v) == if Window(v) == Window(va) then None else Translate(a, v)
    ensures Resolve(s, b.table) == Some(b.table)
  {
    assert Filled(b)[b.table.i3] == Word(true, b.table, NORMAL);
  }

  lemma BrokenLeaf(m: Machine, a: Machine, s: Machine, va: Page, b: Block, pa: Page, k: Kind)
    requires m.cur < PAGES && b.table == PageOf(m.cur) && !s.stuck && TwoMore(m.ram, a.ram, b)
    requires Unreachable(m.ram, b.table) && b.table != TMP3 && b.table != b.l3 && va != b.l3
    requires Window(va) != Window(b.table) && Window(b.table) != Window(b.l3)
    requires PageAt(s.ram, b.table) == ZEROS
    requires forall q :: TableAt(s.ram, q) == if q == Window(va) then Some(b.table) else TableAt(a.ram, q)
    requires forall v :: Translate(s.ram, v) == if Window(v) == Window(va) then None else Translate(a.ram, v)
    ensures var r := SetLeaf(s, b.table, va.i3, pa, k); r.stuck || !Inv(r.ram, r.cur)
  {
    hide PageOf, Num, Filled;
    var r := SetLeaf(s, b.table, va.i3, pa, k);
    if !r.stuck {
      assert OnlyAt(s.ram, b.table, Window(va));
      NewPageReached(m.ram, a.ram, s, va, b);
      LeafStep(s, va, Word(true, pa, Attr(k)), b.table);
      assert r == Store(s, b.table, va.i3, Word(true, pa, Attr(k)));
      if Window(va) == Window(b.l3) {
        assert TableAt(r.ram, Window(b.table)) == Some(b.l3) && !Mapped(r.ram, b.l3);
      } else {
        assert TableAt(r.ram, Window(b.l3)) == Some(TMP3);
      }
    }
  }

  // The block straddles into a window without a table.
  lemma StraddleBreaks(m: Machine, va: Page, t: Page, l2: Page, b: Block, pa: Page, k: Kind)
    requires Setting(m, va, t) && Straddles(m, l2, b)
    ensures var r := MapPage(m, va, pa, k);
            (r.stuck || !Inv(r.ram, r.cur)) && (m.on && Window(va) == Window(b.table) ==> r.stuck)
  {
    hide AllocTable, PageOf, Num, MapPage, SetLeaf, Inv, Fits, Translate, TableAt, TwoMore, Filled;
    var a := AllocTable(m);
    StraddleIntoGap(m, l2, b);
    StraddleFacts(m, l2, b);
    TwoMoreAllocation(m, a, t, L2(va.i0, va.i1), b);
    Extended(m, va, t, L2(va.i0, va.i1), pa, k);
    var s := Store(a, t, va.i2, Word(true, PageOf(m.cur), TABLE));
    if Window(va) == Window(b.table) {
      LostPage(m, a, va, t, pa, k);
    } else {
      assert Num(b.l3) == m.cur + 3;
      BrokenLeaf(m, a, s, va, b, pa, k);
    }
  }

  lemma MapExactBelow(m: Machine, va: Page, pa: Page, k: Kind)
    requires !m.stuck && Inv(m.ram, m.cur) && m.cur + 4 <= HEAP_END && Allowed(m.cur, va)
    requires TableAt(m.ram, L2(va.i0, va.i1)).Some?
    ensures MapGood(m, va, pa, k) <==> Mappable(m.ram, m.cur, va)
  {
    hide AllocTable, PageOf, Num, MapPage, SetLeaf, Inv, Fits, Translate, TableAt, Advanced, Grows;
    hide OnlyOwnPagesBut, OthersSpared;
    Ancestors(m.ram, va);
    if Mappable(m.ram, m.cur, va) {
      MapKeeps(m, va, pa, k);
    } else {
      var t := TableAt(m.ram, L2(va.i0, va.i1)).value;
      if Placeable(m.ram, m.cur) {
        SharedFails(m, va, t, pa, k);
      } else {
        var l2 := HeapL2(m);
        var b := BlockAt(m.cur);
        StraddleBreaks(m, va, t, l2, b, pa, k);
      }
    }
  }
}
