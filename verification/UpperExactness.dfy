/**
  mmu_map_4kb on an address whose upper tables are missing: a block that straddles two windows breaks
  the tree for good, whatever the remaining levels do.
*/
module UpperExactness {
  import opened Wrappers
  import opened Words
  import opened PageTable
  import opened Machine
  import opened Handover
  import opened Alloc
  import opened Mapping4K
  import opened MapPages
  import opened Exactness

  // The table x at q is a temporary one, or is not mapped to itself.
  ghost predicate Rotten(m: Machine, q: Path, x: Page) {
    TableAt(m.ram, q) == Some(x) && (x == TMP3 || (Translate(m.ram, x) == None && HEAP_BASE <= Num(x) < m.cur))
  }

  lemma RottenNotInv(m: Machine, q: Path, x: Page)
    requires Rotten(m, q, x)
    ensures !Inv(m.ram, m.cur)
  {
    if x != TMP3 {
      assert !Mapped(m.ram, x);
    }
  }

  // The tables on the way to the next page of the heap.
  datatype HeapTables = HeapTables(l1: Page, l2: Page, l3: Page)

  // A rotten table, and a next block that only needs a leaf in a table that is there.
  ghost predicate Crippled(m: Machine, q: Path, x: Page, h: HeapTables) {
    && !m.stuck && HEAP_BASE <= m.cur <= HEAP_END && Rotten(m, q, x)
    && TableAt(m.ram, L1(0)) == Some(h.l1) && TableAt(m.ram, L2(0, 1)) == Some(h.l2)
    && OnlyAt(m.ram, h.l3, Window(PageOf(m.cur)))
    && Resolve(m, ROOT) == Some(ROOT) && Resolve(m, h.l1) == Some(h.l1)
    && Resolve(m, h.l2) == Some(h.l2) && Resolve(m, h.l3) == Some(h.l3)
    && (forall p :: m.cur <= Num(p) < HEAP_END ==> PageAt(m.ram, p) == ZEROS && Unreachable(m.ram, p))
  }

  lemma LoadAt(m: Machine, t: Page, p: Path, i: Index)
    requires !m.stuck && !p.L3? && TableAt(m.ram, p) == Some(t) && Resolve(m, t) == Some(t)
    ensures Load(m, t, i) == (m, Get(m.ram, t, i))
    ensures TableAt(m.ram, Child(p, i)) == if Get(m.ram, t, i).valid then Some(Get(m.ram, t, i).frame) else None
  {
    assert TableAt(m.ram, Child(p, i)) == Follow(m.ram, Some(t), i);
  }

  lemma RootTable(ram: Ram)
    ensures TableAt(ram, Root) == Some(ROOT)
  {
  }

  // What map_page_for_pagetable does then: it faults, or the new page is mapped to itself.
  lemma LeafAlloc(m: Machine, q: Path, x: Page, h: HeapTables)
    requires Crippled(m, q, x, h) && m.cur + 4 <= HEAP_END
    ensures var n := PageOf(m.cur);
            AllocTable(m) == if Get(m.ram, h.l3, n.i3).valid then m.(cur := m.cur + 4, stuck := true)
                             else Store(m.(cur := m.cur + 4), h.l3, n.i3, Word(true, n, NORMAL))
  {
    hide Rotten, Translate, TableAt;
    BlockShape(m.cur);
    var n := m.(cur := m.cur + 4);
    var b := BlockAt(m.cur);
    RootTable(m.ram);
    LoadAt(n, ROOT, Root, 0);
    LoadAt(n, h.l1, L1(0), 1);
    LoadAt(n, h.l2, L2(0, 1), b.table.i2);
    assert Load(n, h.l3, b.table.i3) == (n, Get(n.ram, h.l3, b.table.i3));
  }

  // The tables are as before, except for n at p; the translations are as before, except for n itself.
  ghost predicate Adds(m: Machine, r: Machine, n: Page, p: Path) {
    && !r.stuck && r.on == m.on && r.cur == m.cur + 4
    && (forall q :: TableAt(r.ram, q) == if q == p then Some(n) else TableAt(m.ram, q))
    && (forall v :: Translate(r.ram, v) == if v == n then Some(Mapping(n, NORMAL)) else Translate(m.ram, v))
    && (forall v :: Unreachable(m.ram, v) ==> PageAt(r.ram, v) == PageAt(m.ram, v))
  }

  lemma BlockAdds(m: Machine, q: Path, x: Page, h: HeapTables, t: Page, p: Path, i: Index)
    requires Crippled(m, q, x, h) && m.cur + 4 <= HEAP_END && !Get(m.ram, h.l3, PageOf(m.cur).i3).valid
    requires !p.L3? && OnlyAt(m.ram, t, p) && Resolve(m, t) == Some(t) && TableAt(m.ram, Child(p, i)) == None
    ensures Descend(m, t, i).1 == PageOf(m.cur) && Adds(m, Descend(m, t, i).0, PageOf(m.cur), Child(p, i))
  {
    hide AllocTable, Num, PageOf, TableAt, Translate;
    var n := PageOf(m.cur);
    LeafAlloc(m, q, x, h);
    LoadAt(m, t, p, i);
    var a := AllocTable(m);
    LeafStep(m.(cur := m.cur + 4), n, Word(true, n, NORMAL), h.l3);
    assert PageAt(m.ram, n) == ZEROS && Unreachable(m.ram, n);
    var s := Store(a, t, i, Word(true, n, TABLE));
    LinkEmpty(a.ram, s.ram, t, p, i, n);
    LoadAt(s, t, p, i);
  }

  lemma CrippledLater(m: Machine, r: Machine, n: Page, p: Path, q: Path, x: Page, h: HeapTables)
    requires Crippled(m, q, x, h) && m.cur + 4 <= HEAP_END && m.cur % 512 <= 504
    requires n == PageOf(m.cur) && TableAt(m.ram, p) == None && Adds(m, r, n, p)
    ensures Crippled(r, q, x, h)
  {
    hide Translate, TableAt;
    SameWindow(PageOf(m.cur), PageOf(r.cur), 4);
    assert Num(n) == m.cur;
  }

  // One more level of the descent: it faults, or the table stays rotten and the next level is empty.
  lemma NextBlock(m: Machine, q: Path, x: Page, h: HeapTables, t: Page, p: Path, i: Index)
    requires Crippled(m, q, x, h) && m.cur + 4 <= HEAP_END && m.cur % 512 <= 504
    requires !p.L3? && OnlyAt(m.ram, t, p) && Resolve(m, t) == Some(t) && TableAt(m.ram, Child(p, i)) == None
    requires !Child(p, i).L3? ==> forall j: Index :: TableAt(m.ram, Child(Child(p, i), j)) == None
    ensures var (r, n) := Descend(m, t, i);
            || r.stuck
            || (&& r.cur == m.cur + 4 && r.on == m.on && Crippled(r, q, x, h) && n == PageOf(m.cur)
                && OnlyAt(r.ram, n, Child(p, i)) && Resolve(r, n) == Some(n) && PageAt(r.ram, n) == ZEROS
                && (!Child(p, i).L3? ==> forall j: Index :: TableAt(r.ram, Child(Child(p, i), j)) == None))
  {
    hide AllocTable, Num, PageOf, TableAt, Translate, Rotten;
    if Get(m.ram, h.l3, PageOf(m.cur).i3).valid {
      LeafAlloc(m, q, x, h);
      LoadAt(m, t, p, i);
    } else {
      BlockAdds(m, q, x, h, t, p, i);
      var r := Descend(m, t, i).0;
      CrippledLater(m, r, PageOf(m.cur), Child(p, i), q, x, h);
      assert Unreachable(m.ram, PageOf(m.cur));
    }
  }

  // The leaf at the end does not help.
  lemma EndRotten(m: Machine, q: Path, x: Page, l3: Page, va: Page, pa: Page, k: Kind)
    requires !m.stuck && Rotten(m, q, x) && x != va && OnlyAt(m.ram, l3, Window(va)) && Resolve(m, l3) == Some(l3)
    ensures var r := SetLeaf(m, l3, va.i3, pa, k); r.stuck || !Inv(r.ram, r.cur)
  {
    hide Inv;
    var r := SetLeaf(m, l3, va.i3, pa, k);
    if !Get(m.ram, l3, va.i3).valid {
      LeafStep(m, va, Word(true, pa, Attr(k)), l3);
    }
    RottenNotInv(r, q, x);
  }

  // ---- the first block of the call straddles two windows ----

  // The next level starts with an empty table n, at p, in a tree that is broken already.
  ghost predicate Doomed(r: Machine, n: Page, p: Path, q: Path, x: Page, h: HeapTables) {
    || r.stuck
    || (r.on && Translate(r.ram, n) == None)
    || (&& Crippled(r, q, x, h) && OnlyAt(r.ram, n, p) && Resolve(r, n) == Some(n) && PageAt(r.ram, n) == ZEROS
        && (!p.L3? ==> forall j: Index :: TableAt(r.ram, Child(p, j)) == None))
  }

  ghost predicate UpperGap(m: Machine, t: Page, p: Path, i: Index) {
    && !m.stuck && Inv(m.ram, m.cur) && m.cur + 4 <= HEAP_END && !p.L3? && !p.L2?
    && TableAt(m.ram, p) == Some(t) && TableAt(m.ram, Child(p, i)) == None
  }

  // The new page is linked after the block was allocated (a).
  lemma LinkFirst(m: Machine, t: Page, p: Path, i: Index)
    requires UpperGap(m, t, p, i) && Allocation(m, AllocTable(m), t, p)
    requires TableAt(AllocTable(m).ram, Child(p, i)) == None
    ensures var a := AllocTable(m);
            var (s, n) := Descend(m, t, i);
            && n == PageOf(m.cur) && !s.stuck && s.on == m.on && s.cur == m.cur + 4
            && OneMore(a.ram, s.ram, Child(p, i), n) && OnlyPage(a.ram, s.ram, t) && PageAt(s.ram, n) == ZEROS
  {
    hide AllocTable, PageOf, Num, Inv, TableAt, Translate;
    var a := AllocTable(m);
    TableHoused(m.ram, m.cur, p);
    FillStep(m, t, p, i);
    LinkEmpty(a.ram, EnsureSlot(m, t, i).ram, t, p, i, PageOf(m.cur));
  }

  // The rest of the heap after a block and one link in a table that was there, at u.
  lemma HeapAfter(m: Machine, a: Ram, s: Ram, t: Page, u: Path, p: Path, b: Block)
    requires Inv(m.ram, m.cur) && m.cur + 4 <= HEAP_END && b == BlockAt(m.cur) && Spared(m.ram, a, b)
    requires forall q :: TableAt(s, q) == if q == p then Some(PageOf(m.cur)) else TableAt(a, q)
    requires OnlyPage(a, s, t) && TableAt(m.ram, u) == Some(t)
    requires forall q ::
               TableAt(a, q) == TableAt(m.ram, q) || TableAt(a, q) == Some(b.l3) || TableAt(a, q) == Some(TMP3)
    ensures forall v :: m.cur + 4 <= Num(v) < HEAP_END ==> PageAt(s, v) == ZEROS && Unreachable(s, v)
  {
    hide TableAt, Translate, PageOf;
    assert Num(b.l3) == m.cur + 3 && Num(PageOf(m.cur)) == m.cur;
    forall v | m.cur + 4 <= Num(v) < HEAP_END
      ensures PageAt(s, v) == ZEROS && Unreachable(s, v)
    {
      FreshUnreachable(m.ram, m.cur, v);
      assert v != t;
    }
  }

  lemma BlockEnds(cur: nat)
    requires HEAP_BASE <= cur && cur + 5 <= HEAP_END && !Fits(cur)
    ensures Window(PageOf(cur + 4)) == Window(PageOf(cur + 3)) && (cur + 4) % 512 <= 3
  {
    HeapShape(cur + 3);
    HeapShape(cur + 4);
  }

  lemma HeapBounds(m: Machine, b: Block)
    requires Inv(m.ram, m.cur) && m.cur + 5 <= HEAP_END && b == BlockAt(m.cur) && !Fits(m.cur)
    ensures HEAP_BASE <= m.cur && Tree(m.ram) && Housed(m.ram, m.cur)
    ensures Num(b.l3) == m.cur + 3 && Num(b.table) == m.cur && b.table == PageOf(m.cur)
    ensures Window(PageOf(m.cur + 4)) == Window(b.l3) && (m.cur + 4) % 512 <= 3
  {
    BlockEnds(m.cur);
  }

  lemma UpperPath(p: Path)
    requires !p.L3? && !p.L2?
    ensures p == Root || p.L1?
  {
  }

  lemma TwoMoreElsewhere(m: Ram, a: Ram, b: Block, q: Path)
    requires TwoMore(m, a, b)
    ensures !q.L3? ==> TableAt(a, q) == TableAt(m, q)
    ensures forall q :: TableAt(a, q) == TableAt(m, q) || TableAt(a, q) == Some(b.l3) || TableAt(a, q) == Some(TMP3)
  {
    hide Filled, Translate, TableAt;
  }

  lemma HousedChain(m: Machine, h: HeapTables)
    requires Inv(m.ram, m.cur) && TableAt(m.ram, L1(0)) == Some(h.l1) && TableAt(m.ram, L2(0, 1)) == Some(h.l2)
    ensures Mapped(m.ram, ROOT) && Mapped(m.ram, h.l1) && Mapped(m.ram, h.l2)
  {
    RootHoused(m.ram, m.cur);
  }

  lemma CrippledByGap(m: Machine, a: Ram, s: Machine, p: Path, b: Block, h: HeapTables)
    requires s.on == m.on && !s.stuck && s.cur == m.cur + 4 && HEAP_BASE <= m.cur && m.cur + 5 <= HEAP_END
    requires TwoMore(m.ram, a, b) && OneMore(a, s.ram, p, b.table) && !p.L3? && TempsApart(m.ram)
    requires forall v :: Translate(m.ram, v).Some? ==> Translate(a, v) == Translate(m.ram, v)
    requires Mapped(m.ram, ROOT) && Mapped(m.ram, h.l1) && Mapped(m.ram, h.l2) && h.l3 == TMP3
    requires TableAt(m.ram, p) == None && TableAt(m.ram, L1(0)) == Some(h.l1) && TableAt(m.ram, L2(0, 1)) == Some(h.l2)
    requires b.table != TMP3 && b.l3 != TMP3 && Window(b.table) != Window(b.l3) && Window(PageOf(s.cur)) == Window(b.l3)
    requires forall v :: s.cur <= Num(v) < HEAP_END ==> PageAt(s.ram, v) == ZEROS && Unreachable(s.ram, v)
    ensures Crippled(s, Window(b.l3), TMP3, h)
  {
    hide TableAt, Translate, PageOf, Num, Filled;
  }

  lemma EmptyBelowGap(m: Machine, a: Ram, s: Machine, p: Path, b: Block)
    requires TwoMore(m.ram, a, b) && OneMore(a, s.ram, p, b.table) && TableAt(m.ram, p) == None
    requires !p.L3? && !p.Root? && Unreachable(m.ram, b.table) && b.table != b.l3 && b.table != TMP3
    requires PageAt(s.ram, b.table) == ZEROS && b.table.i3 != b.l3.i3
    ensures OnlyAt(s.ram, b.table, p) && forall j: Index :: TableAt(s.ram, Child(p, j)) == None
    ensures Resolve(s, b.table) == Some(b.table)
  {
    forall j: Index
      ensures TableAt(s.ram, Child(p, j)) == None
    {
      assert TableAt(s.ram, Child(p, j)) == Follow(s.ram, Some(b.table), j);
    }
    assert Filled(b)[b.table.i3] == Word(true, b.table, NORMAL);
  }

  lemma TemporaryStays(m: Machine, a: Ram, s: Machine, t: Page, p: Path, i: Index, l2: Page, b: Block, h: HeapTables)
    requires UpperGap(m, t, p, i) && Straddles(m, l2, b) && m.cur + 5 <= HEAP_END && Spared(m.ram, a, b)
    requires TwoMore(m.ram, a, b) && OneMore(a, s.ram, Child(p, i), b.table)
    requires OnlyPage(a, s.ram, t) && PageAt(s.ram, b.table) == ZEROS
    requires !s.stuck && s.on == m.on && s.cur == m.cur + 4
    requires TempsApart(m.ram) && Unreachable(m.ram, b.l3) && b.table != b.l3 && b.table != TMP3 && b.l3 != TMP3
    requires b.table.i3 != b.l3.i3 && Window(b.table) != Window(b.l3)
    requires forall v :: Translate(m.ram, v).Some? ==> Translate(a, v) == Translate(m.ram, v)
    requires TableAt(m.ram, L1(0)) == Some(h.l1) && TableAt(m.ram, L2(0, 1)) == Some(h.l2) && h.l3 == TMP3
    ensures Doomed(s, b.table, Child(p, i), Window(b.l3), TMP3, h)
  {
    hide PageOf, Num, Inv, TableAt, Translate, Spared, TwoMore, Crippled, OnlyPage;
    UpperPath(p);
    TwoMoreElsewhere(m.ram, a, b, Child(p, i));
    HeapBounds(m, b);
    HeapAfter(m, a, s.ram, t, p, Child(p, i), b);
    FreshUnreachable(m.ram, m.cur, b.table);
    HousedChain(m, h);
    CrippledByGap(m, a, s, Child(p, i), b, h);
    EmptyBelowGap(m, a, s, Child(p, i), b);
  }

  lemma UpperChain(m: Machine) returns (h: HeapTables)
    requires Inv(m.ram, m.cur)
    ensures TableAt(m.ram, L1(0)) == Some(h.l1) && TableAt(m.ram, L2(0, 1)) == Some(h.l2) && h.l3 == TMP3
  {
    HeapPath(m);
    h := HeapTables(TableAt(m.ram, L1(0)).value, TableAt(m.ram, L2(0, 1)).value, TMP3);
  }

  // The temporary table stays linked in the next window.
  lemma FirstIntoGap(m: Machine, t: Page, p: Path, i: Index, l2: Page, b: Block) returns (h: HeapTables)
    requires UpperGap(m, t, p, i) && Straddles(m, l2, b) && m.cur + 5 <= HEAP_END
    ensures var (s, n) := Descend(m, t, i);
            && s.cur == m.cur + 4 && s.on == m.on && n == PageOf(m.cur)
            && Doomed(s, n, Child(p, i), Window(b.l3), TMP3, h)
  {
    hide AllocTable, PageOf, Num, Inv, TableAt, Translate, Descend, Spared, TwoMore, Crippled;
    var a := AllocTable(m);
    StraddleIntoGap(m, l2, b);
    StraddleFacts(m, l2, b);
    TwoMoreAllocation(m, a, t, p, b);
    UpperPath(p);
    TwoMoreElsewhere(m.ram, a.ram, b, Child(p, i));
    LinkFirst(m, t, p, i);
    h := UpperChain(m);
    TemporaryStays(m, a.ram, Descend(m, t, i).0, t, p, i, l2, b, h);
  }

  // ---- the rest of the call ----

  lemma DeeperEmpty(ram: Ram, p: Path)
    requires !p.L3? && TableAt(ram, p) == None
    ensures forall j: Index :: TableAt(ram, Child(p, j)) == None
  {
  }

  lemma DoomedDescend(m: Machine, t: Page, p: Path, i: Index, q: Path, x: Page, h: HeapTables)
    requires Doomed(m, t, p, q, x, h) && !p.L3? && m.cur + 4 <= HEAP_END && m.cur % 512 <= 504
    ensures var (r, n) := Descend(m, t, i);
            r.stuck || (r.cur == m.cur + 4 && Doomed(r, n, Child(p, i), q, x, h))
  {
    hide AllocTable, PageOf, Num, TableAt, Crippled;
    if !m.stuck && !(m.on && Translate(m.ram, t) == None) {
      if !p.L2? {
        DeeperEmpty(m.ram, Child(p, i));
      }
      NextBlock(m, q, x, h, t, p, i);
    }
  }

  lemma DoomedEnd(m: Machine, l3: Page, va: Page, q: Path, x: Page, h: HeapTables, pa: Page, k: Kind)
    requires Doomed(m, l3, Window(va), q, x, h) && x != va
    ensures var r := SetLeaf(m, l3, va.i3, pa, k); r.stuck || !Inv(r.ram, r.cur)
  {
    hide Inv, TableAt;
    if !m.stuck && !(m.on && Translate(m.ram, l3) == None) {
      EndRotten(m, q, x, l3, va, pa, k);
    }
  }

  lemma FirstBlock(m: Machine, t: Page, p: Path, i: Index) returns (q: Path, x: Page, h: HeapTables)
    requires UpperGap(m, t, p, i) && !Placeable(m.ram, m.cur) && m.cur + 5 <= HEAP_END
    ensures var (s, n) := Descend(m, t, i);
            s.cur == m.cur + 4 && (m.cur + 4) % 512 <= 3 && Doomed(s, n, Child(p, i), q, x, h) && x.i0 == 0 && x.i1 == 1
  {
    hide Inv, PageOf, Num, TableAt, Translate, Descend, Doomed;
    var l2 := HeapL2(m);
    var b := BlockAt(m.cur);
    HeapBounds(m, b);
    h := FirstIntoGap(m, t, p, i, l2, b);
    q, x := Window(b.l3), TMP3;
  }

  lemma StuckDescend(m: Machine, t: Page, i: Index)
    requires m.stuck && m.cur + 4 <= PAGES
    ensures Descend(m, t, i).0.stuck
  {
  }

  lemma LastStep(m: Machine, l3: Page, va: Page, q: Path, x: Page, h: HeapTables, pa: Page, k: Kind)
    requires m.stuck || Doomed(m, l3, Window(va), q, x, h)
    requires x.i0 == 0 && x.i1 == 1 && (va.i0 != 0 || va.i1 != 1)
    ensures var r := SetLeaf(m, l3, va.i3, pa, k); r.stuck || !Inv(r.ram, r.cur)
  {
    hide Inv, Doomed;
    if !m.stuck {
      DoomedEnd(m, l3, va, q, x, h, pa, k);
    }
  }

  lemma UpperFails(m: Machine, va: Page, pa: Page, k: Kind)
    requires !m.stuck && Inv(m.ram, m.cur) && Room(m.ram, m.cur, va) && !Placeable(m.ram, m.cur)
    requires TableAt(m.ram, L2(va.i0, va.i1)) == None
    ensures var r := MapPage(m, va, pa, k); r.stuck || !Inv(r.ram, r.cur)
  {
    hide Inv, PageOf, Num, TableAt, Translate, Descend, Doomed, SetLeaf, Placeable;
    HeapHasTables(m.ram, m.cur, va);
    RootHoused(m.ram, m.cur);
    Ancestors(m.ram, va);
    if TableAt(m.ram, L1(va.i0)).Some? {
      var t := TableAt(m.ram, L1(va.i0)).value;
      PresentSlot(m, ROOT, Root, va.i0);
      var q, x, h := FirstBlock(m, t, L1(va.i0), va.i1);
      var (m2, l2) := Descend(m, t, va.i1);
      DoomedDescend(m2, l2, L2(va.i0, va.i1), va.i2, q, x, h);
      LastStep(Descend(m2, l2, va.i2).0, Descend(m2, l2, va.i2).1, va, q, x, h, pa, k);
    } else {
      var q, x, h := FirstBlock(m, ROOT, Root, va.i0);
      var (m1, l1) := Descend(m, ROOT, va.i0);
      DoomedDescend(m1, l1, L1(va.i0), va.i1, q, x, h);
      var (m2, l2) := Descend(m1, l1, va.i1);
      if m2.stuck {
        StuckDescend(m2, l2, va.i2);
      } else {
        DoomedDescend(m2, l2, L2(va.i0, va.i1), va.i2, q, x, h);
      }
      LastStep(Descend(m2, l2, va.i2).0, Descend(m2, l2, va.i2).1, va, q, x, h, pa, k);
    }
  }

  // ---- mmu_map_4kb, exactly, on every state between calls ----

  lemma NotPlaceable(m: Machine, va: Page)
    requires Inv(m.ram, m.cur) && m.cur + 4 <= HEAP_END && TableAt(m.ram, L2(va.i0, va.i1)) == None
    requires !Mappable(m.ram, m.cur, va)
    ensures !Placeable(m.ram, m.cur)
  {
    HeapHasTables(m.ram, m.cur, va);
    ElsewhereUnshared(m.cur, va);
  }

  lemma MapExact(m: Machine, va: Page, pa: Page, k: Kind)
    requires MapReady(m, va)
    ensures MapGood(m, va, pa, k) <==> Mappable(m.ram, m.cur, va)
  {
    hide Inv, PageOf, Num, TableAt, Translate, MapPage, Placeable, Grows, OnlyOwnPagesBut, OthersSpared, Advanced;
    if Mappable(m.ram, m.cur, va) {
      MapKeeps(m, va, pa, k);
    } else if TableAt(m.ram, L2(va.i0, va.i1)).Some? {
      MapExactBelow(m, va, pa, k);
    } else {
      NotPlaceable(m, va);
      UpperFails(m, va, pa, k);
    }
  }
}
