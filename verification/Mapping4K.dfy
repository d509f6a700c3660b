/** mmu_map_4kb on a live tree. */
module Mapping4K {
  import opened Wrappers
  import opened Words
  import opened PageTable
  import opened Machine
  import opened Handover
  import opened Alloc

  // Linking an empty table in an empty slot: one more table, no translation changes.
  lemma LinkEmpty(a: Ram, s: Ram, t: Page, p: Path, i: Index, n: Page)
    requires OnlyAt(a, t, p) && !p.L3? && TableAt(a, Child(p, i)) == None
    requires OnlyPage(a, s, t) && PageAt(s, t) == PageAt(a, t)[i := Word(true, n, TABLE)]
    requires PageAt(a, n) == ZEROS && n != t
    ensures forall q :: TableAt(s, q) == if q == Child(p, i) then Some(n) else TableAt(a, q)
    ensures forall va :: Translate(s, va) == Translate(a, va)
  {
    assert TableAt(a, Child(p, i)) == Follow(a, Some(t), i);
    OneSlot(a, s, t, p, i, Word(true, n, TABLE));
    LinkEffect(a, s, p, i, n);
    forall va
      ensures Translate(s, va) == Translate(a, va)
    {
      if p.L2? && Window(va) == Child(p, i) {
        assert Translate(s, va) == Leaf(Get(s, n, va.i3));
        assert T3(a, va.i0, va.i1, va.i2) == TableAt(a, Window(va));
      }
    }
  }

  // Pages outside the tree, other than the temporary and the newly allocated ones, keep their contents.
  ghost predicate OthersSpared(before: Ram, cur: nat, after: Ram, cur': nat) {
    forall p :: Unreachable(before, p) && p != TMP1 && p != TMP2 && p != TMP3 && !(cur <= Num(p) < cur') ==>
           PageAt(after, p) == PageAt(before, p)
  }

  // The only new translations are those of the newly allocated pages to themselves.
  ghost predicate OnlyOwnPages(before: Ram, cur: nat, after: Ram, cur': nat) {
    forall va :: Translate(after, va) != Translate(before, va) ==> cur <= Num(va) < cur' && Mapped(after, va)
  }

  // A step that only adds.
  ghost predicate Extends(before: Ram, cur: nat, after: Ram, cur': nat) {
    Grows(before, cur, after, cur') && OnlyOwnPages(before, cur, after, cur') && OthersSpared(before, cur, after, cur')
  }

  // From `before` over the allocation of a block (a) to its first page linked in slot i of table t (s).
  ghost predicate Linked(before: Ram, cur: nat, a: Ram, s: Ram, t: Page, p: Path, i: Index)
    requires cur < PAGES
  {
    && !p.L3? && TableAt(before, p) == Some(t) && TableAt(before, Child(p, i)) == None
    && Child(p, i) != Window(PageOf(cur))
    && OnlyPage(a, s, t) && PageAt(s, t) == PageAt(a, t)[i := Word(true, PageOf(cur), TABLE)]
  }

  ghost predicate OneMore(a: Ram, s: Ram, p: Path, n: Page) {
    && (forall q :: TableAt(s, q) == if q == p then Some(n) else TableAt(a, q))
    && (forall va :: Translate(s, va) == Translate(a, va))
  }

  // The new page is still zero, and in no table's place, when its block has been allocated.
  lemma NewPageZero(before: Ram, cur: nat, a: Ram)
    requires Housed(before, cur) && HeapClean(before, cur) && HEAP_BASE + 7 <= cur && cur + 4 <= HEAP_END
    requires Allocated(before, a, BlockAt(cur)) && Spared(before, a, BlockAt(cur))
    ensures PageAt(a, PageOf(cur)) == ZEROS && Unreachable(before, PageOf(cur)) && Unreachable(a, PageOf(cur))
  {
    var n := PageOf(cur);
    FreshUnreachable(before, cur, n);
    assert Num(BlockAt(cur).l3) == cur + 3;
    assert PageAt(before, n) == ZEROS;
  }

  lemma LinkFacts(before: Ram, cur: nat, a: Ram, s: Ram, t: Page, p: Path, i: Index)
    requires Inv(before, cur) && cur + 4 <= HEAP_END && Tree(a)
    requires Allocated(before, a, BlockAt(cur)) && Spared(before, a, BlockAt(cur))
    requires Linked(before, cur, a, s, t, p, i)
    ensures OneMore(a, s, Child(p, i), PageOf(cur)) && Unreachable(a, PageOf(cur))
    ensures PageAt(s, PageOf(cur)) == ZEROS && TableAt(a, Child(p, i)) == None && OnlyAt(a, t, p) && Num(t) < cur
  {
    hide PageOf, Num, AllTyped, TempsApart, HeapClean, Spared, Translate;
    NewPageZero(before, cur, a);
    assert TableAt(a, p) == Some(t);
    LinkEmpty(a, s, t, p, i, PageOf(cur));
  }

  lemma LinkTyped(a: Ram, s: Ram, t: Page, p: Path, i: Index, n: Page)
    requires AllTyped(a) && OnlyAt(a, t, p) && !p.L3? && OneMore(a, s, Child(p, i), n) && PageAt(s, n) == ZEROS
    requires OnlyPage(a, s, t) && PageAt(s, t) == PageAt(a, t)[i := Word(true, n, TABLE)]
    ensures AllTyped(s)
  {
    forall q, j: Index | TableAt(s, q).Some? && Get(s, TableAt(s, q).value, j).valid
      ensures Typed(q, Get(s, TableAt(s, q).value, j))
    {
      var u := TableAt(s, q).value;
      if u != n && !(u == t && j == i) {
        assert TableAt(a, q) == Some(u) && Get(s, u, j) == Get(a, u, j);
      } else if u != n {
        assert q == p;
      }
    }
  }

  lemma LinkGrows(before: Ram, cur: nat, a: Ram, s: Ram, p: Path)
    requires Grows(before, cur, a, cur + 4) && cur + 4 <= HEAP_END && Mapped(a, PageOf(cur))
    requires OneMore(a, s, p, PageOf(cur)) && TableAt(a, p) == None
    ensures Grows(before, cur, s, cur + 4)
  {
  }

  lemma LinkClean(a: Ram, s: Ram, c: nat, t: Page)
    requires HeapClean(a, c) && OnlyPage(a, s, t) && Num(t) < c && forall va :: Translate(s, va) == Translate(a, va)
    ensures HeapClean(s, c)
  {
  }

  lemma LinkBare(a: Ram, s: Ram, cur: nat, p: Path, n: Page)
    requires Bare(a, cur + 4) && OneMore(a, s, p, n) && Behind(cur, p)
    ensures Bare(s, cur + 4)
  {
    hide TableAt, Translate;
    forall q | TableAt(s, q).Some?
      ensures Behind(cur + 4, q)
    {
      assert q == p || TableAt(a, q).Some?;
    }
  }

  lemma LinkInv(before: Ram, cur: nat, a: Ram, s: Ram, t: Page, p: Path, i: Index)
    requires Inv(before, cur) && cur + 4 <= HEAP_END && Inv(a, cur + 4) && Grows(before, cur, a, cur + 4)
    requires Allocated(before, a, BlockAt(cur)) && Spared(before, a, BlockAt(cur))
    requires Mapped(a, PageOf(cur)) && Linked(before, cur, a, s, t, p, i) && Behind(cur, Child(p, i))
    ensures Inv(s, cur + 4) && Grows(before, cur, s, cur + 4) && OneMore(a, s, Child(p, i), PageOf(cur))
  {
    hide Grows, Allocated, Spared, AllTyped, Tree, Housed, TempsApart, HeapClean, Bare, Mapped, TableAt, PageOf, Num;
    LinkFacts(before, cur, a, s, t, p, i);
    TreeGrows(a, s, Child(p, i), PageOf(cur));
    LinkTyped(a, s, t, p, i, PageOf(cur));
    LinkClean(a, s, cur + 4, t);
    LinkBare(a, s, cur, Child(p, i), PageOf(cur));
    LinkGrows(before, cur, a, s, Child(p, i));
    InvGrows(before, cur, s, cur + 4);
  }

  lemma AllocExtends(before: Ram, cur: nat, after: Ram)
    requires Grows(before, cur, after, cur + 4) && cur + 4 <= HEAP_END
    requires Allocated(before, after, BlockAt(cur)) && Spared(before, after, BlockAt(cur))
    ensures Extends(before, cur, after, cur + 4)
  {
    assert Num(BlockAt(cur).l3) == cur + 3 && Num(BlockAt(cur).table) == cur;
  }

  lemma LinkExtends(before: Ram, cur: nat, a: Ram, s: Ram, t: Page, p: Path, i: Index)
    requires Grows(before, cur, a, cur + 4) && Grows(before, cur, s, cur + 4) && cur + 4 <= HEAP_END
    requires Allocated(before, a, BlockAt(cur)) && Spared(before, a, BlockAt(cur))
    requires Linked(before, cur, a, s, t, p, i) && OneMore(a, s, Child(p, i), PageOf(cur))
    ensures Extends(before, cur, s, cur + 4)
  {
    hide Grows, Allocated, Spared, TableAt, Translate, PageOf, Num;
    AllocExtends(before, cur, a);
    forall va | Translate(s, va) != Translate(before, va)
      ensures cur <= Num(va) < cur + 4 && Mapped(s, va)
    {
      assert Translate(a, va) != Translate(before, va);
    }
    forall q | Unreachable(before, q) && q != TMP1 && q != TMP2 && q != TMP3 && !(cur <= Num(q) < cur + 4)
      ensures PageAt(s, q) == PageAt(before, q)
    {
      assert PageAt(a, q) == PageAt(before, q);
    }
  }

  // Between calls, the next page is in a window that has its table, or at the very start of one:
  // a block that runs over the end of a window reaches at most three pages into the next.
  ghost predicate Settled(ram: Ram, cur: nat)
    requires cur < PAGES
  {
    cur % 512 <= 3 || TableAt(ram, Window(PageOf(cur))).Some?
  }

  // Blocks were allocated from page c0 on, up to cur.
  ghost predicate Advanced(c0: nat, ram: Ram, cur: nat)
    requires c0 < PAGES && cur < PAGES
  {
    Settled(ram, cur) && TableAt(ram, Window(PageOf(c0))).Some?
  }

  lemma AdvancedGrows(c0: nat, before: Ram, cur: nat, after: Ram, cur': nat)
    requires c0 < PAGES && cur < PAGES && cur' < PAGES && Advanced(c0, before, cur) && Grows(before, cur, after, cur')
    requires cur' == cur || Settled(after, cur')
    ensures Advanced(c0, after, cur')
  {
  }

  lemma LinkSettled(cur: nat, a: Ram, s: Ram, p: Path)
    requires cur + 4 <= HEAP_END && OneMore(a, s, p, PageOf(cur)) && TableAt(a, Window(PageOf(cur))).Some?
    requires p != Window(PageOf(cur))
    ensures Advanced(cur, s, cur + 4)
  {
    if cur % 512 < 508 {
      SameWindow(PageOf(cur), PageOf(cur + 4), 4);
    }
  }

  // The machine took a step that only adds, and all its accesses translated.
  ghost predicate StepsTo(m: Machine, r: Machine) {
    && !r.stuck && r.on == m.on && r.astray == m.astray && Inv(r.ram, r.cur) && Extends(m.ram, m.cur, r.ram, r.cur)
  }

  // The condition for filling slot i of the table at p: the block can be placed, the slot is not the
  // very slot that mapping the block fills, and it does not belong to the unallocated heap.
  ghost predicate Fillable(ram: Ram, cur: nat, p: Path, i: Index)
    requires !p.L3?
  {
    && cur + 4 <= HEAP_END && Placeable(ram, cur) && Child(p, i) != Window(PageOf(cur)) && Behind(cur, Child(p, i))
  }

  lemma TableStays(before: Ram, cur: nat, after: Ram, p: Path)
    requires Inv(before, cur) && Grows(before, cur, after, cur + 4) && TableAt(before, p).Some?
    ensures Mapped(before, TableAt(before, p).value) && Mapped(after, TableAt(before, p).value)
  {
  }

  lemma BlockWindow(before: Ram, after: Ram, cur: nat)
    requires cur + 4 <= PAGES && Allocated(before, after, BlockAt(cur))
    ensures TableAt(after, Window(PageOf(cur))).Some?
  {
  }

  lemma NewTable(a: Ram, s: Ram, p: Path, n: Page)
    requires OneMore(a, s, p, n)
    ensures TableAt(s, p) == Some(n)
  {
  }

  lemma EnsureIsLink(m: Machine, t: Page, p: Path, i: Index)
    requires !m.stuck && !p.L3? && TableAt(m.ram, p) == Some(t) && Mapped(m.ram, t) && m.cur + 4 <= PAGES
    requires TableAt(m.ram, Child(p, i)) == None && Child(p, i) != Window(PageOf(m.cur))
    requires !AllocTable(m).stuck && Mapped(AllocTable(m).ram, t)
    ensures var s := EnsureSlot(m, t, i);
            && !s.stuck && s.cur == m.cur + 4 && s.on == m.on && s.astray == AllocTable(m).astray
            && Linked(m.ram, m.cur, AllocTable(m).ram, s.ram, t, p, i)
  {
    hide AllocTable;
    LoadTable(m, p, i);
    assert TableAt(m.ram, Child(p, i)) == Follow(m.ram, Some(t), i);
  }

  lemma EnsureFills(m: Machine, t: Page, p: Path, i: Index)
    requires !m.stuck && Inv(m.ram, m.cur) && !p.L3? && TableAt(m.ram, p) == Some(t)
    requires TableAt(m.ram, Child(p, i)) == None && Fillable(m.ram, m.cur, p, i)
    ensures var r := EnsureSlot(m, t, i);
            && StepsTo(m, r) && r.cur == m.cur + 4 && Advanced(m.cur, r.ram, r.cur)
            && TableAt(r.ram, Child(p, i)) == Some(PageOf(m.cur))
  {
    hide AllocTable, EnsureSlot, Inv, Grows, Allocated, Spared, Mapped, OneMore, Extends, Advanced, Placeable;
    hide Linked, PageOf, Num, TableAt;
    var a := AllocTable(m).ram;
    var s := EnsureSlot(m, t, i).ram;
    AllocKeeps(m);
    TableStays(m.ram, m.cur, a, p);
    EnsureIsLink(m, t, p, i);
    LinkInv(m.ram, m.cur, a, s, t, p, i);
    LinkExtends(m.ram, m.cur, a, s, t, p, i);
    BlockWindow(m.ram, a, m.cur);
    LinkSettled(m.cur, a, s, Child(p, i));
    NewTable(a, s, Child(p, i), PageOf(m.cur));
  }

  lemma GrowsTrans(r0: Ram, c0: nat, r1: Ram, c1: nat, r2: Ram, c2: nat)
    requires Grows(r0, c0, r1, c1) && Grows(r1, c1, r2, c2)
    ensures Grows(r0, c0, r2, c2)
  {
    hide Num;
    forall q | TableAt(r2, q).Some? && TableAt(r0, q) == None
      ensures c0 <= Num(TableAt(r2, q).value) < c2 && Mapped(r2, TableAt(r2, q).value)
    {
      if TableAt(r1, q).Some? {
        assert TableAt(r2, q) == TableAt(r1, q);
      }
    }
  }

  lemma NewTranslations(r0: Ram, c0: nat, r1: Ram, c1: nat, r2: Ram, c2: nat)
    requires Extends(r0, c0, r1, c1) && Extends(r1, c1, r2, c2)
    ensures OnlyOwnPages(r0, c0, r2, c2)
  {
    hide Num;
    forall va | Translate(r2, va) != Translate(r0, va)
      ensures c0 <= Num(va) < c2 && Mapped(r2, va)
    {
      if Translate(r1, va) != Translate(r0, va) {
        assert Mapped(r1, va);
      }
    }
  }

  lemma SparedTrans(r0: Ram, c0: nat, r1: Ram, c1: nat, r2: Ram, c2: nat)
    requires Grows(r0, c0, r1, c1) && OthersSpared(r0, c0, r1, c1) && OthersSpared(r1, c1, r2, c2) && c1 <= c2
    ensures OthersSpared(r0, c0, r2, c2)
  {
    hide Num;
    forall p | Unreachable(r0, p) && p != TMP1 && p != TMP2 && p != TMP3 && !(c0 <= Num(p) < c2)
      ensures PageAt(r2, p) == PageAt(r0, p)
    {
      forall q
        ensures TableAt(r1, q) != Some(p)
      {
        assert TableAt(r0, q) != Some(p);
      }
    }
  }

  lemma ExtendsTrans(r0: Ram, c0: nat, r1: Ram, c1: nat, r2: Ram, c2: nat)
    requires Extends(r0, c0, r1, c1) && Extends(r1, c1, r2, c2)
    ensures Extends(r0, c0, r2, c2)
  {
    hide OnlyOwnPages, OthersSpared;
    GrowsTrans(r0, c0, r1, c1, r2, c2);
    NewTranslations(r0, c0, r1, c1, r2, c2);
    SparedTrans(r0, c0, r1, c1, r2, c2);
  }

  lemma ExtendsRefl(ram: Ram, cur: nat)
    ensures Extends(ram, cur, ram, cur)
  {
  }

  lemma TableHoused(ram: Ram, cur: nat, p: Path)
    requires Inv(ram, cur) && TableAt(ram, p).Some?
    ensures Mapped(ram, TableAt(ram, p).value)
  {
  }

  lemma StepTable(m: Machine, r: Machine, p: Path)
    requires StepsTo(m, r) && TableAt(m.ram, p).Some?
    ensures TableAt(r.ram, p) == TableAt(m.ram, p) && Mapped(r.ram, TableAt(m.ram, p).value)
  {
  }

  lemma LoadSlot(m: Machine, t: Page, p: Path, i: Index)
    requires !m.stuck && !p.L3? && TableAt(m.ram, p) == Some(t) && Mapped(m.ram, t) && TableAt(m.ram, Child(p, i)).Some?
    ensures Load(m, t, i).0 == m && Load(m, t, i).1.valid && Some(Load(m, t, i).1.frame) == TableAt(m.ram, Child(p, i))
  {
    assert TableAt(m.ram, Child(p, i)) == Follow(m.ram, Some(t), i);
  }

  lemma PresentSlot(m: Machine, t: Page, p: Path, i: Index)
    requires !m.stuck && !p.L3? && TableAt(m.ram, p) == Some(t) && Mapped(m.ram, t) && TableAt(m.ram, Child(p, i)).Some?
    requires m.cur + 4 <= PAGES
    ensures Descend(m, t, i) == (m, TableAt(m.ram, Child(p, i)).value)
  {
    hide AllocTable;
    LoadSlot(m, t, p, i);
  }

  // One level of the walk that mmu_map_4kb makes.
  lemma DescendKeeps(m: Machine, t: Page, p: Path, i: Index)
    requires !m.stuck && Inv(m.ram, m.cur) && m.cur + 4 <= PAGES && !p.L3? && TableAt(m.ram, p) == Some(t)
    requires TableAt(m.ram, Child(p, i)) == None ==> Fillable(m.ram, m.cur, p, i)
    ensures var (r, n) := Descend(m, t, i);
            && StepsTo(m, r) && TableAt(r.ram, Child(p, i)) == Some(n)
            && if TableAt(m.ram, Child(p, i)).Some? then r == m else r.cur == m.cur + 4 && Advanced(m.cur, r.ram, r.cur)
  {
    TableHoused(m.ram, m.cur, p);
    if TableAt(m.ram, Child(p, i)).Some? {
      PresentSlot(m, t, p, i);
      ExtendsRefl(m.ram, m.cur);
    } else {
      hide Inv, EnsureSlot, Extends, Advanced, Fillable, Num, Mapped;
      EnsureFills(m, t, p, i);
      StepTable(m, EnsureSlot(m, t, i), p);
      LoadSlot(EnsureSlot(m, t, i), t, p, i);
    }
  }

  // ---- not in the source: the same step with the slot read again after the allocation ----

  function EnsureSlotRepaired(m: Machine, t: Page, i: Index): (r: Machine)
    requires m.cur + 4 <= PAGES
    ensures m.cur <= r.cur <= m.cur + 4 && r.on == m.on
  {
    var (m0, w) := Load(m, t, i);
    if m0.stuck || w.valid then m0
    else
      var (a, again) := Load(AllocTable(m0), t, i);
      if a.stuck || again.valid then a else Store(a, t, i, Word(true, PageOf(m.cur), TABLE))
  }

  // A block adds no table but that of its own window.
  lemma OtherSlots(before: Ram, after: Ram, cur: nat, p: Path, i: Index)
    requires cur + 4 <= PAGES && Allocated(before, after, BlockAt(cur)) && !p.L3?
    ensures TableAt(after, p) == TableAt(before, p)
    ensures Child(p, i) != Window(PageOf(cur)) ==> TableAt(after, Child(p, i)) == TableAt(before, Child(p, i))
  {
    hide Translate, TableAt;
  }

  lemma RepairedLeaves(m: Machine, t: Page, p: Path, i: Index)
    requires !m.stuck && !p.L3? && TableAt(m.ram, p) == Some(t) && Mapped(m.ram, t) && m.cur + 4 <= PAGES
    requires TableAt(m.ram, Child(p, i)) == None
    requires var a := AllocTable(m);
             !a.stuck && TableAt(a.ram, p) == Some(t) && Mapped(a.ram, t) && TableAt(a.ram, Child(p, i)).Some?
    ensures EnsureSlotRepaired(m, t, i) == AllocTable(m)
  {
    hide AllocTable;
    LoadTable(m, p, i);
    assert TableAt(m.ram, Child(p, i)) == Follow(m.ram, Some(t), i);
    LoadSlot(AllocTable(m), t, p, i);
  }

  lemma RepairedStores(m: Machine, t: Page, p: Path, i: Index)
    requires !m.stuck && !p.L3? && TableAt(m.ram, p) == Some(t) && Mapped(m.ram, t) && m.cur + 4 <= PAGES
    requires TableAt(m.ram, Child(p, i)) == None
    requires var a := AllocTable(m);
             !a.stuck && TableAt(a.ram, p) == Some(t) && Mapped(a.ram, t) && TableAt(a.ram, Child(p, i)) == None
    ensures EnsureSlotRepaired(m, t, i) == EnsureSlot(m, t, i)
  {
    hide AllocTable;
    LoadTable(m, p, i);
    LoadTable(AllocTable(m), p, i);
    assert TableAt(m.ram, Child(p, i)) == Follow(m.ram, Some(t), i);
    assert TableAt(AllocTable(m).ram, Child(p, i)) == Follow(AllocTable(m).ram, Some(t), i);
  }

  // Nothing changes where the original worked, and the slot may now be the one that the block fills.
  lemma RepairedFills(m: Machine, t: Page, p: Path, i: Index)
    requires !m.stuck && Inv(m.ram, m.cur) && !p.L3? && TableAt(m.ram, p) == Some(t)
    requires TableAt(m.ram, Child(p, i)) == None && m.cur + 4 <= HEAP_END && Placeable(m.ram, m.cur)
    requires Behind(m.cur, Child(p, i))
    ensures var r := EnsureSlotRepaired(m, t, i);
            && StepsTo(m, r) && TableAt(r.ram, Child(p, i)).Some?
            && (Child(p, i) != Window(PageOf(m.cur)) ==> r == EnsureSlot(m, t, i))
  {
    hide AllocTable, EnsureSlot, EnsureSlotRepaired, Inv, Grows, Allocated, Spared, Mapped, Extends, Advanced;
    hide Placeable, PageOf, Num, TableAt;
    AllocKeeps(m);
    var a := AllocTable(m);
    TableStays(m.ram, m.cur, a.ram, p);
    AllocExtends(m.ram, m.cur, a.ram);
    BlockWindow(m.ram, a.ram, m.cur);
    OtherSlots(m.ram, a.ram, m.cur, p, i);
    if Child(p, i) == Window(PageOf(m.cur)) {
      RepairedLeaves(m, t, p, i);
    } else {
      EnsureFills(m, t, p, i);
      RepairedStores(m, t, p, i);
    }
  }
}
