/** map_page_for_pagetable on a live tree: when it keeps the invariant, and exactly when it does not. */
module Alloc {
  import opened Wrappers
  import opened Words
  import opened PageTable
  import opened Machine
  import opened Handover

  // Pages that are not part of the tree keep their contents, apart from the temporary tables and
  // the new level 3 table.
  ghost predicate Spared(before: Ram, after: Ram, b: Block) {
    forall p :: Unreachable(before, p) && p != TMP1 && p != TMP3 && p != b.l3 ==> PageAt(after, p) == PageAt(before, p)
  }

  // Any table of the tree is its own translation, so code that reads it gets the word it means to read.
  lemma LoadTable(m: Machine, q: Path, i: Index)
    requires !m.stuck && TableAt(m.ram, q).Some? && Mapped(m.ram, TableAt(m.ram, q).value)
    ensures var t := TableAt(m.ram, q).value; Load(m, t, i) == (m, Get(m.ram, t, i))
  {
  }

  lemma HeapPath(m: Machine)
    requires TableAt(m.ram, L2(0, 1)).Some?
    ensures Get(m.ram, ROOT, 0).valid && TableAt(m.ram, L1(0)) == Some(Get(m.ram, ROOT, 0).frame)
    ensures var l1 := Get(m.ram, ROOT, 0).frame;
            Get(m.ram, l1, 1).valid && TableAt(m.ram, L2(0, 1)) == Some(Get(m.ram, l1, 1).frame)
  {
  }

  lemma SkipRoot(m: Machine, l1: Page, attr: nat)
    requires m.cur + 4 <= PAGES && !m.stuck
    requires var n := m.(cur := m.cur + 4);
             Load(n, ROOT, BlockAt(m.cur).table.i0) == (n, Word(true, l1, attr))
    ensures AllocTable(m) == AllocUnderL1(m.(cur := m.cur + 4), l1, BlockAt(m.cur))
  {
  }

  lemma SkipL1(n: Machine, l1: Page, l2: Page, attr: nat, b: Block)
    requires !n.stuck && Load(n, l1, b.table.i1) == (n, Word(true, l2, attr))
    ensures AllocUnderL1(n, l1, b) == AllocUnderL2(n, l2, b)
  {
  }

  // With the first two heap levels present, only the tail of map_page_for_pagetable runs.
  lemma AllocTail(m: Machine, l2: Page)
    requires !m.stuck && Inv(m.ram, m.cur) && m.cur + 4 <= HEAP_END && TableAt(m.ram, L2(0, 1)) == Some(l2)
    ensures AllocTable(m) == AllocUnderL2(m.(cur := m.cur + 4), l2, BlockAt(m.cur))
  {
    BlockShape(m.cur);
    var n := m.(cur := m.cur + 4);
    var l1 := Get(m.ram, ROOT, 0).frame;
    assert Load(n, ROOT, 0) == (n, Word(true, l1, Get(m.ram, ROOT, 0).attr))
           && Load(n, l1, 1) == (n, Word(true, l2, Get(m.ram, l1, 1).attr)) by {
      HeapPath(m);
      assert TableAt(m.ram, Root) == Some(ROOT);
      LoadTable(n, Root, 0);
      LoadTable(n, L1(0), 1);
    }
    SkipRoot(m, l1, Get(m.ram, ROOT, 0).attr);
    SkipL1(n, l1, l2, Get(m.ram, l1, 1).attr, BlockAt(m.cur));
  }

  lemma MissingReady(m: Machine, l2: Page)
    requires !m.stuck && Inv(m.ram, m.cur) && m.cur + 4 <= HEAP_END && Fits(m.cur)
    requires TableAt(m.ram, L2(0, 1)) == Some(l2) && !Get(m.ram, l2, BlockAt(m.cur).table.i2).valid
    ensures Ready(m.(cur := m.cur + 4), l2, BlockAt(m.cur))
    ensures Window(BlockAt(m.cur).table) == Window(BlockAt(m.cur).l3)
  {
    var b := BlockAt(m.cur);
    BlockShape(m.cur);
    assert TableAt(m.ram, L2(0, 1)) == Some(l2);
    assert Mapped(m.ram, l2);
    assert Num(b.l3) == m.cur + 3;
  }

  lemma PresentFacts(ram: Ram, cur: nat, l2: Page, l3: Page, b: Block)
    requires Inv(ram, cur) && cur + 4 <= HEAP_END && b == BlockAt(cur)
    requires TableAt(ram, L2(0, 1)) == Some(l2) && TableAt(ram, Window(b.table)) == Some(l3)
    ensures Window(b.table) == Child(L2(0, 1), b.table.i2) && OnlyAt(ram, l3, Window(b.table))
    ensures Mapped(ram, l2) && Mapped(ram, l3) && Translate(ram, b.table) == None
  {
    hide TableAt, Translate, AllTyped, TempsApart, Bare;
    BlockShape(cur);
    assert Num(b.table) == cur;
  }

  lemma SelfMapped(m: Machine, t: Page)
    requires Mapped(m.ram, t)
    ensures Resolve(m, t) == Some(t)
  {
  }

  // Storing a page word in a leaf slot.
  lemma LeafStep(n: Machine, va: Page, w: Word, l3: Page)
    requires !n.stuck && OnlyAt(n.ram, l3, Window(va)) && Resolve(n, l3) == Some(l3)
    ensures var r := Store(n, l3, va.i3, w);
            && !r.stuck && r.astray == n.astray
            && OnlyPage(n.ram, r.ram, l3) && PageAt(r.ram, l3) == PageAt(n.ram, l3)[va.i3 := w]
            && (forall q :: TableAt(r.ram, q) == TableAt(n.ram, q))
            && (forall v :: Translate(r.ram, v) == if v == va then Leaf(w) else Translate(n.ram, v))
  {
    var r := Store(n, l3, va.i3, w);
    OneSlot(n.ram, r.ram, l3, Window(va), va.i3, w);
    LeafEffect(n.ram, r.ram, va);
  }

  // The window's level 3 table exists: the new page only needs a leaf in it.
  lemma PresentEffect(m: Machine, l2: Page, l3: Page)
    requires !m.stuck && Inv(m.ram, m.cur) && m.cur + 4 <= HEAP_END
    requires TableAt(m.ram, L2(0, 1)) == Some(l2) && TableAt(m.ram, Window(BlockAt(m.cur).table)) == Some(l3)
    ensures var b := BlockAt(m.cur);
            var r := AllocTable(m);
            && !r.stuck && r.astray == m.astray && Allocated(m.ram, r.ram, b) && OnlyPage(m.ram, r.ram, l3)
            && PageAt(r.ram, l3) == PageAt(m.ram, l3)[b.table.i3 := Word(true, b.table, NORMAL)]
  {
    hide Inv, AllocTable, PageOf, Num, Mapped;
    var b := BlockAt(m.cur);
    var n := m.(cur := m.cur + 4);
    AllocTail(m, l2);
    PresentFacts(m.ram, m.cur, l2, l3, b);
    assert Follow(m.ram, Some(l2), b.table.i2) == Some(l3);
    LoadTable(n, L2(0, 1), b.table.i2);
    LoadTable(n, Window(b.table), b.table.i3);
    SelfMapped(n, l3);
    LeafStep(n, b.table, Word(true, b.table, NORMAL), l3);
  }

  // A page that is not below the allocation pointer is in no table's place.
  lemma FreshUnreachable(ram: Ram, cur: nat, p: Page)
    requires Housed(ram, cur) && cur <= Num(p)
    ensures Unreachable(ram, p)
  {
  }

  // A step of the memory manager only adds: tables and translations stay, new tables come from the
  // pages just allocated and are mapped to themselves.
  ghost predicate Grows(before: Ram, cur: nat, after: Ram, cur': nat) {
    && cur <= cur'
    && (forall q :: TableAt(before, q).Some? ==> TableAt(after, q) == TableAt(before, q))
    && (forall va :: Translate(before, va).Some? ==> Translate(after, va) == Translate(before, va))
    && (forall q :: TableAt(after, q).Some? && TableAt(before, q) == None ==>
          cur <= Num(TableAt(after, q).value) < cur' && Mapped(after, TableAt(after, q).value))
  }

  lemma HousedGrows(before: Ram, cur: nat, after: Ram, cur': nat)
    requires Housed(before, cur) && Grows(before, cur, after, cur') && HEAP_BASE <= cur
    ensures Housed(after, cur')
  {
    forall q | TableAt(after, q).Some?
      ensures Mapped(after, TableAt(after, q).value) && HEAP_BASE <= Num(TableAt(after, q).value) < cur'
    {
      if TableAt(before, q).Some? {
        assert Mapped(before, TableAt(before, q).value);
      }
    }
  }

  lemma TempsGrow(before: Ram, cur: nat, after: Ram, cur': nat)
    requires TempsApart(before) && Grows(before, cur, after, cur') && HEAP_BASE + 7 <= cur
    ensures TempsApart(after)
  {
  }

  lemma InvGrows(before: Ram, cur: nat, after: Ram, cur': nat)
    requires Inv(before, cur) && Grows(before, cur, after, cur') && cur' <= HEAP_END
    requires Tree(after) && AllTyped(after) && HeapClean(after, cur') && Bare(after, cur')
    ensures Inv(after, cur')
  {
    HousedGrows(before, cur, after, cur');
    TempsGrow(before, cur, after, cur');
    assert TableAt(after, L2(0, 1)) == TableAt(before, L2(0, 1));
  }

  lemma AllocGrows(before: Ram, after: Ram, cur: nat)
    requires Housed(before, cur) && HeapClean(before, cur) && HEAP_BASE <= cur && cur + 4 <= HEAP_END
    requires Allocated(before, after, BlockAt(cur))
    ensures Grows(before, cur, after, cur + 4)
  {
    var b := BlockAt(cur);
    assert Translate(before, b.table) == None && Translate(before, b.l3) == None;
    assert Num(b.l3) == cur + 3;
  }

  lemma AllocTree(before: Ram, after: Ram, cur: nat)
    requires Tree(before) && Housed(before, cur) && cur + 4 <= HEAP_END
    requires Allocated(before, after, BlockAt(cur))
    ensures Tree(after)
  {
    var b := BlockAt(cur);
    if TableAt(before, Window(b.table)) == None {
      FreshUnreachable(before, cur, b.l3);
      TreeGrows(before, after, Window(b.table), b.l3);
    }
  }

  lemma AllocClean(before: Ram, after: Ram, cur: nat)
    requires Housed(before, cur) && HeapClean(before, cur) && HEAP_BASE + 7 <= cur && cur + 4 <= HEAP_END
    requires Allocated(before, after, BlockAt(cur)) && Spared(before, after, BlockAt(cur))
    ensures HeapClean(after, cur + 4)
  {
    var b := BlockAt(cur);
    forall p | cur + 4 <= Num(p) < HEAP_END
      ensures Translate(after, p) == None && PageAt(after, p) == ZEROS
    {
      FreshUnreachable(before, cur, p);
      assert Num(b.l3) == cur + 3 && Num(b.table) == cur;
    }
  }

  lemma AllocBare(before: Ram, after: Ram, cur: nat)
    requires Bare(before, cur) && HEAP_BASE <= cur && cur + 4 <= HEAP_END && Allocated(before, after, BlockAt(cur))
    ensures Bare(after, cur + 4)
  {
    hide TableAt, Translate;
    BlockShape(cur);
    forall q | TableAt(after, q).Some?
      ensures Behind(cur + 4, q)
    {
      assert q == Window(BlockAt(cur).table) || TableAt(before, q).Some?;
    }
  }

  // ---- when the block can be placed ----

  // Either the window of the next page has its table already, or the whole block lies in it.
  ghost predicate Placeable(ram: Ram, cur: nat)
    requires cur < PAGES
  {
    TableAt(ram, Window(PageOf(cur))).Some? || Fits(cur)
  }

  // map_page_for_pagetable succeeds: no access faults, the new page is mapped to itself, and
  // the invariant holds again.
  ghost predicate AllocGood(m: Machine)
    requires m.cur + 4 <= PAGES
  {
    var r := AllocTable(m);
    !r.stuck && Mapped(r.ram, PageOf(m.cur)) && Inv(r.ram, m.cur + 4)
  }

  // What a successful call leaves behind, in full.
  ghost predicate AllocEndsWell(before: Ram, cur: nat, r: Machine)
    requires cur + 4 <= PAGES
  {
    && !r.stuck && Mapped(r.ram, PageOf(cur)) && Inv(r.ram, cur + 4) && Grows(before, cur, r.ram, cur + 4)
    && Allocated(before, r.ram, BlockAt(cur)) && Spared(before, r.ram, BlockAt(cur))
  }

  lemma NewPageMapped(before: Ram, after: Ram, b: Block)
    requires Allocated(before, after, b)
    ensures Mapped(after, b.table)
  {
  }

  lemma InvAlloc(before: Ram, after: Ram, cur: nat)
    requires Inv(before, cur) && cur + 4 <= HEAP_END
    requires Allocated(before, after, BlockAt(cur)) && Spared(before, after, BlockAt(cur)) && AllTyped(after)
    ensures Inv(after, cur + 4) && Grows(before, cur, after, cur + 4)
  {
    AllocGrows(before, after, cur);
    AllocTree(before, after, cur);
    AllocClean(before, after, cur);
    AllocBare(before, after, cur);
    InvGrows(before, cur, after, cur + 4);
  }

  lemma TakeGap(n: Machine, l2: Page, b: Block)
    requires !n.stuck && Resolve(n, l2) == Some(l2) && !Get(n.ram, l2, b.table.i2).valid
    ensures AllocUnderL2(n, l2, b) ==
            ZeroPage(Store(MapForTable(n, l2, b, 3), l2, b.table.i2, Word(true, b.l3, TABLE)), TMP1)
  {
  }

  lemma GapEffect(m: Machine, l2: Page)
    requires !m.stuck && Inv(m.ram, m.cur) && m.cur + 4 <= HEAP_END && Fits(m.cur)
    requires TableAt(m.ram, L2(0, 1)) == Some(l2) && !Get(m.ram, l2, BlockAt(m.cur).table.i2).valid
    ensures var r := AllocTable(m);
            var b := BlockAt(m.cur);
            && !r.stuck && r.astray == m.astray && Vacant(m.ram, l2, b) && Window(b.table) == Window(b.l3)
            && Allocated(m.ram, r.ram, b) && Replaced(m.ram, r.ram, l2, b) && PageAt(r.ram, TMP1) == ZEROS
  {
    var n := m.(cur := m.cur + 4);
    var b := BlockAt(m.cur);
    MissingReady(m, l2);
    AllocTail(m, l2);
    MissingEffect(n, l2, b);
    TakeGap(n, l2, b);
  }

  lemma PresentRest(before: Ram, after: Ram, b: Block, l3: Page)
    requires AllTyped(before) && Allocated(before, after, b) && OnlyAt(before, l3, Window(b.table))
    requires OnlyPage(before, after, l3)
    requires PageAt(after, l3) == PageAt(before, l3)[b.table.i3 := Word(true, b.table, NORMAL)]
    ensures Spared(before, after, b) && AllTyped(after)
  {
    forall q, i: Index | TableAt(after, q).Some? && Get(after, TableAt(after, q).value, i).valid
      ensures Typed(q, Get(after, TableAt(after, q).value, i))
    {
      var t := TableAt(before, q).value;
      assert Get(after, t, i) == if t == l3 && i == b.table.i3 then Word(true, b.table, NORMAL) else Get(before, t, i);
    }
  }

  lemma MissingRest(before: Ram, after: Ram, l2: Page, b: Block)
    requires AllTyped(before) && Vacant(before, l2, b) && Window(b.table) == Window(b.l3)
    requires Allocated(before, after, b) && Replaced(before, after, l2, b)
    ensures Spared(before, after, b) && AllTyped(after)
  {
    forall q, i: Index | TableAt(after, q).Some? && Get(after, TableAt(after, q).value, i).valid
      ensures Typed(q, Get(after, TableAt(after, q).value, i))
    {
      var t := TableAt(after, q).value;
      if t == b.l3 {
        assert q == Window(b.table);
      } else if t == l2 {
        assert Get(after, t, i) == if i == b.table.i2 then Word(true, b.l3, TABLE) else Get(before, t, i);
      } else {
        assert TableAt(before, q) == Some(t) && Get(after, t, i) == Get(before, t, i);
      }
    }
  }

  lemma AllocEffect(m: Machine)
    requires !m.stuck && Inv(m.ram, m.cur) && m.cur + 4 <= HEAP_END && Placeable(m.ram, m.cur)
    ensures var r := AllocTable(m);
            && !r.stuck && r.astray == m.astray && AllTyped(r.ram)
            && Allocated(m.ram, r.ram, BlockAt(m.cur)) && Spared(m.ram, r.ram, BlockAt(m.cur))
  {
    hide AllocTable, Allocated, Replaced, Spared, Vacant, PageOf, Num;
    var b := BlockAt(m.cur);
    var l2 := TableAt(m.ram, L2(0, 1)).value;
    BlockShape(m.cur);
    assert TableAt(m.ram, Window(b.table)) == Follow(m.ram, Some(l2), b.table.i2);
    if TableAt(m.ram, Window(b.table)).Some? {
      var l3 := TableAt(m.ram, Window(b.table)).value;
      PresentEffect(m, l2, l3);
      PresentRest(m.ram, AllocTable(m).ram, b, l3);
    } else {
      GapEffect(m, l2);
      MissingRest(m.ram, AllocTable(m).ram, l2, b);
    }
  }

  lemma AllocKeeps(m: Machine)
    requires !m.stuck && Inv(m.ram, m.cur) && m.cur + 4 <= HEAP_END && Placeable(m.ram, m.cur)
    ensures AllocEndsWell(m.ram, m.cur, AllocTable(m)) && AllocTable(m).astray == m.astray
  {
    hide AllocTable, Inv, Allocated, Spared, AllTyped, Grows, Mapped;
    AllocEffect(m);
    var r := AllocTable(m);
    InvAlloc(m.ram, r.ram, m.cur);
    NewPageMapped(m.ram, r.ram, BlockAt(m.cur));
  }
}
