/**
  Conditions on the state before a whole range is mapped: none for device memory outside the heap's
  gigabyte, an exact one for heap pages.
*/
module RangeConditions {
  import opened Wrappers
  import opened Words
  import opened PageTable
  import opened Machine
  import opened Handover
  import opened Alloc
  import opened Mapping4K
  import opened MapPages
  import opened Exactness
  import opened Ranges

  predicate OutsideHeapGigabyte(first: nat, count: nat) {
    first + count <= HEAP_BASE || HEAP_BASE + 0x4_0000 <= first
  }

  lemma OutsideShape(first: nat, count: nat)
    requires 0 < count && first + count <= PAGES && OutsideHeapGigabyte(first, count)
    ensures PageOf(first).i0 != 0 || PageOf(first).i1 != 1
  {
    assert Num(PageOf(first)) == first;
  }

  // A single mapping keeps the allocation pointer settled.
  lemma SettledAfter(m: Machine, r: Machine, va: Page, pa: Page, k: Kind)
    requires m.cur < PAGES && r.cur < PAGES && MapsTo(m, r, va, pa, k) && Settled(m.ram, m.cur)
    ensures Settled(r.ram, r.cur)
  {
  }

  lemma AllowedOutside(ram: Ram, cur: nat, first: nat, count: nat)
    requires 0 < count && first + count <= PAGES && Inv(ram, cur) && OutsideHeapGigabyte(first, count)
    ensures Allowed(cur, PageOf(first))
  {
  }

  lemma MappableOutside(ram: Ram, cur: nat, va: Page)
    requires Inv(ram, cur) && cur < PAGES && Settled(ram, cur) && (va.i0 != 0 || va.i1 != 1)
    requires Room(ram, cur, va)
    ensures Mappable(ram, cur, va)
  {
    hide Num, PageOf;
    SettledPlaceable(ram, cur);
    if TableAt(ram, Window(va)) == None {
      ElsewhereUnshared(cur, va);
    }
  }

  lemma {:induction false} DeviceMappable(m: Machine, first: nat, count: nat, k: Kind)
    requires first + count <= PAGES && m.cur + 12 * count < PAGES
    requires !m.stuck && Inv(m.ram, m.cur) && Settled(m.ram, m.cur) && OutsideHeapGigabyte(first, count)
    requires m.cur + 4 * |Gaps(m.ram, Touched(first, count))| <= HEAP_END
    ensures RangeMappable(m, first, count, k)
    decreases count
  {
    hide Inv, MapPage, MapsTo, Settled, Num, PageOf, Gaps, TableAt, Grows, Placeable, Touched;
    if count > 0 {
      var va := PageOf(first);
      var n := MapPage(m, va, va, k);
      StepRoom(m, first, count);
      OutsideShape(first, count);
      AllowedOutside(m.ram, m.cur, first, count);
      MappableOutside(m.ram, m.cur, va);
      OnePage(m, first, count, k);
      SettledAfter(m, n, va, va, k);
      DeviceMappable(n, first + 1, count - 1, k);
    }
  }

  // ---- ranges of heap pages, all below the allocation pointer ----

  // The first page of the range whose window has no table, if any, does not share its window with
  // the next page to be allocated, and the block allocated for it can be placed.
  ghost predicate FirstGapFree(ram: Ram, cur: nat, first: nat, count: nat)
    requires first + count <= PAGES && cur < PAGES
    decreases count
  {
    count == 0 ||
    if TableAt(ram, Window(PageOf(first))).Some? then FirstGapFree(ram, cur, first + 1, count - 1)
    else Placeable(ram, cur) && Window(PageOf(first)) != Window(PageOf(cur))
  }

  // Pages between two pages of one window lie in it.
  lemma WindowBetween(a: nat, b: nat, c: nat)
    requires a <= b <= c < PAGES && Window(PageOf(a)) == Window(PageOf(c))
    ensures Window(PageOf(b)) == Window(PageOf(a))
  {
    var p, q := PageOf(a), PageOf(c);
    assert Num(p) / 512 == Num(q) / 512;
    assert b / 512 == a / 512;
  }

  lemma AllowedBelow(cur: nat, n: nat)
    requires n < cur && n < PAGES
    ensures Allowed(cur, PageOf(n))
  {
  }

  lemma MappableBelow(c0: nat, ram: Ram, cur: nat, n: nat)
    requires n < c0 <= cur < PAGES && Advanced(c0, ram, cur)
    ensures Mappable(ram, cur, PageOf(n))
  {
    hide PageOf, TableAt;
    SettledPlaceable(ram, cur);
    if Window(PageOf(n)) == Window(PageOf(cur)) {
      WindowBetween(n, c0, cur);
    }
  }

  lemma AdvancedAfter(c0: nat, m: Machine, r: Machine, va: Page, pa: Page, k: Kind)
    requires c0 < PAGES && m.cur < PAGES && r.cur < PAGES && MapsTo(m, r, va, pa, k) && Advanced(c0, m.ram, m.cur)
    ensures Advanced(c0, r.ram, r.cur)
  {
    hide PageOf, Num;
    AdvancedGrows(c0, m.ram, m.cur, r.ram, r.cur);
  }

  lemma {:induction false} HeapMappableRest(c0: nat, m: Machine, first: nat, count: nat, k: Kind)
    requires first + count <= c0 <= m.cur && HEAP_BASE <= first && m.cur + 12 * count < PAGES
    requires !m.stuck && Inv(m.ram, m.cur) && Advanced(c0, m.ram, m.cur)
    requires m.cur + 4 * |Gaps(m.ram, Touched(first, count))| <= HEAP_END
    ensures RangeMappable(m, first, count, k)
    decreases count
  {
    hide Inv, MapPage, MapsTo, Advanced, Num, PageOf, Gaps, TableAt, Grows, Placeable, Touched;
    if count > 0 {
      var va := PageOf(first);
      var n := MapPage(m, va, va, k);
      AllowedBelow(m.cur, first);
      MappableBelow(c0, m.ram, m.cur, first);
      OnePage(m, first, count, k);
      AdvancedAfter(c0, m, n, va, va, k);
      HeapMappableRest(c0, n, first + 1, count - 1, k);
    }
  }

  lemma SamePresence(before: Ram, cur: nat, after: Ram, q: Path)
    requires Grows(before, cur, after, cur)
    ensures TableAt(after, q).Some? <==> TableAt(before, q).Some?
  {
    hide Num, Translate, TableAt;
  }

  // A page whose window has its table is mapped without any allocation, so the condition for the
  // rest of the range reads the same afterwards.
  lemma {:induction false} SameGaps(before: Ram, cur: nat, after: Ram, first: nat, count: nat)
    requires first + count <= PAGES && cur < PAGES && Grows(before, cur, after, cur)
    ensures FirstGapFree(after, cur, first, count) <==> FirstGapFree(before, cur, first, count)
    decreases count
  {
    hide PageOf, Num, Translate, TableAt, Grows, Fits;
    if count > 0 {
      SamePresence(before, cur, after, Window(PageOf(first)));
      SamePresence(before, cur, after, Window(PageOf(cur)));
      SameGaps(before, cur, after, first + 1, count - 1);
    }
  }

  // A page with a table costs nothing; a page without one makes the pointer move.
  lemma CostOfPage(m: Machine, r: Machine, va: Page, pa: Page, k: Kind)
    requires m.cur < PAGES && r.cur < PAGES && MapsTo(m, r, va, pa, k)
    ensures TableAt(m.ram, Window(va)).Some? ==> r.cur == m.cur
    ensures TableAt(m.ram, Window(va)) == None ==> r.cur > m.cur && Advanced(m.cur, r.ram, r.cur)
  {
    hide PageOf, Num;
    Ancestors(m.ram, va);
  }

  lemma {:induction false} HeapMappable(m: Machine, first: nat, count: nat, k: Kind)
    requires first + count <= m.cur && HEAP_BASE <= first && m.cur + 12 * count < PAGES
    requires !m.stuck && Inv(m.ram, m.cur) && FirstGapFree(m.ram, m.cur, first, count)
    requires m.cur + 4 * |Gaps(m.ram, Touched(first, count))| <= HEAP_END
    ensures RangeMappable(m, first, count, k)
    decreases count
  {
    hide Inv, MapPage, MapsTo, Advanced, Num, PageOf, Gaps, TableAt, Grows, Placeable, Touched;
    if count > 0 {
      var va := PageOf(first);
      var n := MapPage(m, va, va, k);
      AllowedBelow(m.cur, first);
      OnePage(m, first, count, k);
      CostOfPage(m, n, va, va, k);
      if TableAt(m.ram, Window(va)).Some? {
        SameGaps(m.ram, m.cur, n.ram, first + 1, count - 1);
        HeapMappable(n, first + 1, count - 1, k);
      } else {
        HeapMappableRest(m.cur, n, first + 1, count - 1, k);
      }
    }
  }

  lemma GapNeedsRoom(m: Machine, first: nat, count: nat)
    requires 0 < count && first + count <= PAGES && TableAt(m.ram, Window(PageOf(first))) == None
    requires Room(m.ram, m.cur, PageOf(first))
    ensures m.cur + 4 <= HEAP_END
  {
  }
}
