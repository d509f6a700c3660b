/** kalloc: what it promises, and exactly when it keeps it. */
module System {
  import opened Wrappers
  import opened Words
  import opened PageTable
  import opened Machine
  import opened Handover
  import opened Alloc
  import opened Mapping4K
  import opened MapPages
  import opened Exactness
  import opened Ranges
  import opened RangeConditions
  import opened UpperExactness
  import opened Spoiled

  // The clearing loop of kalloc, one 8-byte word at a time.
  function ClearRange(m: Machine, first: nat, count: nat): (r: Machine)
    requires first + count <= PAGES
    ensures r.cur == m.cur && r.on == m.on && (m.astray ==> r.astray)
    decreases count
  {
    if count == 0 then m else ClearRange(ZeroPage(m, PageOf(first)), first + 1, count - 1)
  }

  // kalloc of a size that rounds up to n pages; the result is the page PageOf(m.cur).
  function Kalloc(m: Machine, n: nat): (r: Machine)
    requires m.cur + 13 * n < PAGES
    ensures r.on == m.on && m.cur + n <= r.cur <= m.cur + 13 * n && (m.astray ==> r.astray)
  {
    ClearRange(MapRange(m.(cur := m.cur + n), m.cur, n, Normal), m.cur, n)
  }

  // Pages of the range are mapped to themselves and hold data, not tables.
  ghost predicate DataRange(ram: Ram, first: nat, count: nat) {
    forall p :: InRange(p, first, count) ==> Mapped(ram, p) && Unreachable(ram, p)
  }

  ghost predicate ZeroRange(ram: Ram, first: nat, count: nat) {
    forall p :: InRange(p, first, count) ==> PageAt(ram, p) == ZEROS
  }

  ghost predicate SameTree(before: Ram, after: Ram) {
    && (forall q :: TableAt(after, q) == TableAt(before, q))
    && (forall v :: Translate(after, v) == Translate(before, v))
  }

  lemma DataLater(m: Ram, n: Ram, first: nat, count: nat)
    requires 0 < count && DataRange(m, first, count) && SameTree(m, n)
    ensures DataRange(n, first + 1, count - 1)
  {
    hide Num, TableAt, Translate;
    forall p | InRange(p, first + 1, count - 1)
      ensures Mapped(n, p) && Unreachable(n, p)
    {
      assert InRange(p, first, count);
      assert Mapped(m, p) && Unreachable(m, p);
    }
  }

  lemma ClearJoin(n: Ram, r: Ram, first: nat, count: nat)
    requires 0 < count && first + count <= PAGES && PageAt(n, PageOf(first)) == ZEROS
    requires ZeroRange(r, first + 1, count - 1)
    requires forall p :: !InRange(p, first + 1, count - 1) ==> PageAt(r, p) == PageAt(n, p)
    ensures ZeroRange(r, first, count)
  {
    hide PageOf;
    forall p | InRange(p, first, count)
      ensures PageAt(r, p) == ZEROS
    {
      if p != PageOf(first) {
        NotFirst(p, first, count);
      }
    }
  }

  lemma {:induction false} ClearEffect(m: Machine, first: nat, count: nat)
    requires first + count <= PAGES && !m.stuck && DataRange(m.ram, first, count)
    ensures var r := ClearRange(m, first, count);
            && !r.stuck && r.astray == m.astray && SameTree(m.ram, r.ram) && ZeroRange(r.ram, first, count)
            && (forall p :: !InRange(p, first, count) ==> PageAt(r.ram, p) == PageAt(m.ram, p))
    decreases count
  {
    hide ZeroPage, Num, TableAt, Translate;
    if count > 0 {
      var p := PageOf(first);
      var n := ZeroPage(m, p);
      assert InRange(p, first, count);
      assert Mapped(m.ram, p) && Unreachable(m.ram, p);
      ZeroPageEffect(m, p);
      FrameOnly(m.ram, n.ram, p);
      DataLater(m.ram, n.ram, first, count);
      ClearEffect(n, first + 1, count - 1);
      ClearJoin(n.ram, ClearRange(m, first, count).ram, first, count);
    }
  }

  lemma TypedSameTree(before: Ram, after: Ram)
    requires AllTyped(before) && SameTree(before, after)
    requires forall p :: PageAt(after, p) == PageAt(before, p) || Unreachable(before, p)
    ensures AllTyped(after)
  {
    hide Translate;
    forall q, i: Index | TableAt(after, q).Some? && Get(after, TableAt(after, q).value, i).valid
      ensures Typed(q, Get(after, TableAt(after, q).value, i))
    {
      var t := TableAt(before, q).value;
      assert !Unreachable(before, t);
      assert Get(after, t, i) == Get(before, t, i);
    }
  }

  // Contents of pages outside the tree and below the pointer do not matter to the invariant.
  lemma InvSameTree(before: Ram, after: Ram, cur: nat)
    requires Inv(before, cur) && SameTree(before, after)
    requires forall p ::
               PageAt(after, p) == PageAt(before, p) || (Unreachable(before, p) && !(cur <= Num(p) < HEAP_END))
    ensures Inv(after, cur)
  {
    hide Num, Translate;
    TypedSameTree(before, after);
    assert Tree(after) && Housed(after, cur) && TempsApart(after);
  }

  // palloc alone: the allocated pages are still unmapped, the rest of the heap is as before.
  lemma InvPalloc(ram: Ram, cur: nat, n: nat)
    requires Inv(ram, cur) && cur + n <= HEAP_END
    ensures Inv(ram, cur + n)
    ensures forall p :: InRange(p, cur, n) ==> Translate(ram, p) == None && Unreachable(ram, p)
  {
  }

  // There is room for the pages and for the tables that they need.
  predicate RoomFor(m: Machine, n: nat) {
    m.cur + n <= PAGES && m.cur + n + 4 * |Gaps(m.ram, Touched(m.cur, n))| <= HEAP_END
  }

  ghost predicate KallocEndsWell(m: Machine, n: nat, r: Machine) {
    && !r.stuck && r.astray == m.astray && Inv(r.ram, r.cur) && Grows(m.ram, m.cur + n, r.ram, r.cur)
    && DataRange(r.ram, m.cur, n) && ZeroRange(r.ram, m.cur, n)
    && OthersSpared(m.ram, m.cur, r.ram, r.cur)
    && OnlyOwnPagesOutside(m.ram, m.cur + n, r.ram, r.cur, m.cur, n)
  }

  // A state between calls in which the heap is large enough.
  ghost predicate KallocReady(m: Machine, n: nat) {
    !m.stuck && Inv(m.ram, m.cur) && m.cur + 13 * n + 12 < PAGES && RoomFor(m, n)
  }

  lemma HeapPage(ram: Ram, cur: nat, n: nat, p: Page)
    requires Inv(ram, cur) && InRange(p, cur, n) && cur + n <= HEAP_END
    ensures Translate(ram, p) == None && Unreachable(ram, p)
  {
    FreshUnreachable(ram, cur, p);
  }

  // No later call puts a page that was allocated into the tree.
  lemma StaysOut(before: Ram, cur: nat, n: nat, after: Ram, cur': nat, p: Page)
    requires Grows(before, cur + n, after, cur') && InRange(p, cur, n) && Unreachable(before, p)
    ensures Unreachable(after, p)
  {
    hide Translate, TableAt;
    forall q
      ensures TableAt(after, q) != Some(p)
    {
      assert TableAt(before, q) != Some(p);
    }
  }

  lemma MappedData(m: Machine, b: Machine, n: nat)
    requires Inv(m.ram, m.cur) && m.cur + n <= HEAP_END
    requires Grows(m.ram, m.cur + n, b.ram, b.cur) && RangeTranslated(m.ram, b.ram, m.cur, n, Normal)
    ensures DataRange(b.ram, m.cur, n)
  {
    hide Inv, Grows, Num, Translate, TableAt;
    forall p | InRange(p, m.cur, n)
      ensures Mapped(b.ram, p) && Unreachable(b.ram, p)
    {
      HeapPage(m.ram, m.cur, n, p);
      StaysOut(m.ram, m.cur, n, b.ram, b.cur, p);
    }
  }

  lemma ClearInv(b: Machine, r: Machine, first: nat, n: nat)
    requires Inv(b.ram, b.cur) && first + n <= b.cur && SameTree(b.ram, r.ram) && DataRange(b.ram, first, n)
    requires forall p :: !InRange(p, first, n) ==> PageAt(r.ram, p) == PageAt(b.ram, p)
    ensures Inv(r.ram, b.cur)
  {
    hide Inv, Translate, TableAt, SameTree;
    forall p
      ensures PageAt(r.ram, p) == PageAt(b.ram, p) || (Unreachable(b.ram, p) && !(b.cur <= Num(p) < HEAP_END))
    {
    }
    InvSameTree(b.ram, r.ram, b.cur);
  }

  lemma AdvancedSameTree(c0: nat, before: Ram, cur: nat, after: Ram)
    requires c0 < PAGES && cur < PAGES && Advanced(c0, before, cur) && SameTree(before, after)
    ensures Advanced(c0, after, cur)
  {
  }

  lemma ClearFrame(m: Machine, b: Machine, r: Machine, n: nat)
    requires m.cur + n <= b.cur && r.cur == b.cur && SameTree(b.ram, r.ram)
    requires Grows(m.ram, m.cur + n, b.ram, b.cur) && OthersSpared(m.ram, m.cur + n, b.ram, b.cur)
    requires OnlyOwnPagesOutside(m.ram, m.cur + n, b.ram, b.cur, m.cur, n)
    requires DataRange(b.ram, m.cur, n)
    requires forall p :: !InRange(p, m.cur, n) ==> PageAt(r.ram, p) == PageAt(b.ram, p)
    ensures Grows(m.ram, m.cur + n, r.ram, r.cur) && OthersSpared(m.ram, m.cur, r.ram, r.cur)
    ensures OnlyOwnPagesOutside(m.ram, m.cur + n, r.ram, r.cur, m.cur, n) && DataRange(r.ram, m.cur, n)
  {
    hide Num, Translate, TableAt;
  }

  lemma KallocKeeps(m: Machine, n: nat)
    requires !m.stuck && Inv(m.ram, m.cur) && m.cur + 13 * n < PAGES && RoomFor(m, n)
    requires FirstGapFree(m.ram, m.cur + n, m.cur, n)
    ensures KallocEndsWell(m, n, Kalloc(m, n))
    ensures var r := Kalloc(m, n); r.cur == m.cur + n || Advanced(m.cur + n, r.ram, r.cur)
    ensures Kalloc(m, n).cur <= m.cur + n + 4 * |Gaps(m.ram, Touched(m.cur, n))|
  {
    hide Inv, FirstGapFree, Gaps, RangeMappable, MapRange, ClearRange, Num, PageOf, TableAt, Translate, Grows;
    hide OthersSpared;
    hide OnlyOwnPagesOutside, RangeTranslated, RangeTables, DataRange, ZeroRange, SameTree, Advanced;
    var a := m.(cur := m.cur + n);
    InvPalloc(m.ram, m.cur, n);
    CurBounds(m);
    HeapMappable(a, m.cur, n, Normal);
    RangeKeeps(a, m.cur, n, Normal);
    var b := MapRange(a, m.cur, n, Normal);
    MappedData(m, b, n);
    ClearEffect(b, m.cur, n);
    var r := ClearRange(b, m.cur, n);
    ClearInv(b, r, m.cur, n);
    ClearFrame(m, b, r, n);
    if b.cur != a.cur {
      AdvancedSameTree(a.cur, b.ram, b.cur, r.ram);
    }
  }

  // ---- kalloc on a range that could not be mapped ----

  lemma UpperSame(before: Ram, after: Ram, f: Page, c: Index)
    requires OnlyPage(before, after, f) && TableAt(before, L2(0, 1)).Some?
    requires f != ROOT && Some(f) != TableAt(before, L1(0)) && Some(f) != TableAt(before, L2(0, 1))
    ensures TableAt(after, L1(0)) == TableAt(before, L1(0)) && TableAt(after, L2(0, 1)) == TableAt(before, L2(0, 1))
    ensures TableAt(after, L3(0, 1, c)) == TableAt(before, L3(0, 1, c))
  {
  }

  // A rotten table, and a range whose pages cannot be used to reach the tables above it.
  ghost predicate Scarred(m: Machine, q: Path, x: Page, first: nat, count: nat) {
    && !m.stuck && Rotten(m, q, x) && q.L3? && q.a == 0 && q.b == 1 && TableAt(m.ram, L2(0, 1)).Some?
    && Harmless(m, first, count)
  }

  lemma ScarStore(m: Machine, q: Path, x: Page, first: nat, count: nat, p: Page, i: Index)
    requires Scarred(m, q, x, first, count) && InRange(p, first, count)
    ensures var r := Store(m, p, i, ZERO); r.stuck || Scarred(r, q, x, first, count)
  {
    hide TableAt, Translate, Num;
    var r := Store(m, p, i, ZERO);
    if !r.stuck {
      var f := Resolve(m, p).value;
      ZeroShrinks(m.ram, r.ram, f, i);
      UpperSame(m.ram, r.ram, f, q.c);
      forall v | InRange(v, first, count)
        ensures Unreachable(r.ram, v) && Resolve(r, v) != Some(ROOT)
        ensures Resolve(r, v) != TableAt(r.ram, L1(0)) && Resolve(r, v) != TableAt(r.ram, L2(0, 1))
      {
        assert Unreachable(m.ram, v);
        assert Resolve(r, v) == Resolve(m, v) || Resolve(r, v) == None;
        Ancestors(m.ram, Pg(0, 1, 0, 0));
      }
    }
  }

  lemma {:induction false} ScarZero(m: Machine, q: Path, x: Page, first: nat, count: nat, p: Page, i: nat)
    requires m.stuck || Scarred(m, q, x, first, count)
    requires InRange(p, first, count) && i <= 512
    ensures var r := ZeroFrom(m, p, i); r.stuck || Scarred(r, q, x, first, count)
    decreases 512 - i
  {
    hide Scarred;
    if i < 512 {
      if !m.stuck {
        ScarStore(m, q, x, first, count, p, i);
      }
      ScarZero(Store(m, p, i, ZERO), q, x, first, count, p, i + 1);
    }
  }

  // Clearing the range does not heal the tree.
  lemma {:induction false} ScarStays(m: Machine, q: Path, x: Page, first: nat, count: nat, from: nat, rest: nat)
    requires m.stuck || Scarred(m, q, x, first, count)
    requires first <= from && from + rest == first + count <= PAGES
    ensures var r := ClearRange(m, from, rest); r.stuck || Scarred(r, q, x, first, count)
    decreases rest
  {
    hide Scarred, ZeroFrom;
    if rest > 0 {
      ScarZero(m, q, x, first, count, PageOf(from), 0);
      ScarStays(ZeroPage(m, PageOf(from)), q, x, first, count, from + 1, rest - 1);
    }
  }

  lemma {:induction false} StuckClear(m: Machine, first: nat, count: nat)
    requires m.stuck && first + count <= PAGES
    ensures ClearRange(m, first, count).stuck
    decreases count
  {
    hide ZeroPage, PageOf;
    if count > 0 {
      StuckZeroPage(m, PageOf(first));
      StuckClear(ZeroPage(m, PageOf(first)), first + 1, count - 1);
    }
  }

  lemma NewPagesOwn(ram: Ram, cur: nat, n: nat)
    requires Inv(ram, cur) && cur + n <= HEAP_END
    ensures Own(ram, cur, n)
  {
    hide Inv;
    InvPalloc(ram, cur, n);
  }

  lemma LameScarred(m: Machine, q: Path, x: Page, first: nat, count: nat)
    requires Lame(m, q, x) && Harmless(m, first, count)
    ensures Scarred(m, q, x, first, count)
  {
    hide Rotten, Harmless, TableAt;
  }

  lemma ScarNotInv(m: Machine, q: Path, x: Page, first: nat, count: nat)
    requires Scarred(m, q, x, first, count)
    ensures !Inv(m.ram, m.cur)
  {
    hide Inv;
    RottenNotInv(m, q, x);
  }

  lemma KallocFails(m: Machine, n: nat)
    requires KallocReady(m, n)
    requires !FirstGapFree(m.ram, m.cur + n, m.cur, n)
    ensures var r := Kalloc(m, n); r.stuck || !Inv(r.ram, r.cur)
  {
    hide Inv, FirstGapFree, Gaps, MapRange, ClearRange, Lame, Harmless, Own, Rotten, Scarred, TableAt, Translate;
    var a := m.(cur := m.cur + n);
    InvPalloc(m.ram, m.cur, n);
    CurBounds(m);
    NewPagesOwn(m.ram, m.cur, n);
    var q, x := RangeFails(a, m.cur, n, Normal, m.cur, n);
    var b := MapRange(a, m.cur, n, Normal);
    if !b.stuck {
      LameScarred(b, q, x, m.cur, n);
    }
    ScarStays(b, q, x, m.cur, n, m.cur, n);
    if !Kalloc(m, n).stuck {
      ScarNotInv(Kalloc(m, n), q, x, m.cur, n);
    }
  }

  // kalloc keeps its promise exactly when the first gap of the new block is free.
  lemma KallocExact(m: Machine, n: nat)
    requires KallocReady(m, n)
    ensures KallocEndsWell(m, n, Kalloc(m, n)) <==> FirstGapFree(m.ram, m.cur + n, m.cur, n)
    ensures !FirstGapFree(m.ram, m.cur + n, m.cur, n) ==> var r := Kalloc(m, n); r.stuck || !Inv(r.ram, r.cur)
  {
    hide Inv, FirstGapFree, Gaps, Kalloc, Grows, DataRange, ZeroRange, OthersSpared, OnlyOwnPagesOutside;
    if FirstGapFree(m.ram, m.cur + n, m.cur, n) {
      KallocKeeps(m, n);
    } else {
      KallocFails(m, n);
    }
  }

  lemma FirstPageFaults(m: Machine, first: nat, count: nat)
    requires m.on && !m.stuck && Inv(m.ram, m.cur) && m.cur + 12 * count < PAGES
    requires 0 < count && HEAP_BASE <= first && first + count <= m.cur
    requires m.cur + 4 * |Gaps(m.ram, Touched(first, count))| <= HEAP_END
    requires Window(PageOf(first)) == Window(PageOf(m.cur)) && TableAt(m.ram, Window(PageOf(first))) == None
    ensures MapRange(m, first, count, Normal).stuck
  {
    hide Inv, Gaps, MapPage, PageOf, Num, TableAt, Placeable, Unmappable, Lame, Affordable, Harmless, Own;
    var va := PageOf(first);
    assert Num(va) == first;
    StepRoom(m, first, count);
    GapNeedsRoom(m, first, count);
    CurBounds(m);
    NotMappable(m, va);
    var q, x := FirstFails(m, first, count, Normal, HEAP_BASE + 7, 0);
    StuckRange(MapPage(m, va, va, Normal), first + 1, count - 1, Normal);
  }

  lemma FreshWindow(m: Machine, n: nat)
    requires Inv(m.ram, m.cur) && m.cur % 512 == 0 && 1 <= n < 512 && m.cur + n <= HEAP_END
    ensures HEAP_BASE + 7 <= m.cur && Num(PageOf(m.cur)) == m.cur
    ensures Window(PageOf(m.cur)) == Window(PageOf(m.cur + n)) && TableAt(m.ram, Window(PageOf(m.cur))) == None
  {
    HeapShape(m.cur);
    SameWindow(PageOf(m.cur), PageOf(m.cur + n), n);
  }

  // With the MMU on, an allocation of less than 2 MB that starts a window faults.
  lemma FreshWindowFails(m: Machine, n: nat)
    requires m.on && KallocReady(m, n)
    requires m.cur % 512 == 0 && 1 <= n < 512
    ensures Kalloc(m, n).stuck
  {
    hide Inv, Gaps, MapRange, ClearRange, PageOf, Num, TableAt, Placeable;
    var a := m.(cur := m.cur + n);
    InvPalloc(m.ram, m.cur, n);
    FreshWindow(m, n);
    FirstPageFaults(a, m.cur, n);
    StuckClear(MapRange(a, m.cur, n, Normal), m.cur, n);
  }
}
