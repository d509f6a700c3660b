/**
  After a page of a range could not be mapped: the remaining turns of the loop either fault or leave
  the tree broken, so a range of heap pages ends well exactly when its first gap is free.
*/
module Spoiled {
  import opened Wrappers
  import opened Words
  import opened PageTable
  import opened Machine
  import opened Handover
  import opened Alloc
  import opened Mapping4K
  import opened MapPages
  import opened Exactness
  import opened UpperExactness
  import opened Ranges
  import opened RangeConditions

  // The rest of the heap is zero and holds no tables.
  ghost predicate Fresh(m: Machine) {
    forall p :: m.cur <= Num(p) < HEAP_END ==> PageAt(m.ram, p) == ZEROS && Unreachable(m.ram, p)
  }

  // A rotten table in the heap's gigabyte, in a tree that the code can still walk.
  ghost predicate Lame(m: Machine, q: Path, x: Page) {
    && !m.stuck && Rotten(m, q, x) && x.i0 == 0 && x.i1 == 1 && HEAP_BASE + 7 <= m.cur <= HEAP_END
    && q.L3? && q.a == 0 && q.b == 1 && (x == TMP3 || q == Window(x))
    && Unreachable(m.ram, TMP1) && (x == TMP3 || Unreachable(m.ram, TMP3))
    && Tree(m.ram) && TableAt(m.ram, L2(0, 1)).Some? && Fresh(m)
    && (forall p :: TableAt(m.ram, p).Some? ==> Resolve(m, TableAt(m.ram, p).value) == TableAt(m.ram, p))
  }

  lemma LameNotInv(m: Machine, q: Path, x: Page)
    requires Lame(m, q, x)
    ensures !Inv(m.ram, m.cur)
  {
    hide Inv;
    RottenNotInv(m, q, x);
  }

  // The next block only needs a leaf.
  ghost predicate NextHoused(m: Machine) {
    m.cur < HEAP_END && TableAt(m.ram, Window(PageOf(m.cur))).Some?
  }

  lemma LameCrippled(m: Machine, q: Path, x: Page) returns (h: HeapTables)
    requires Lame(m, q, x) && NextHoused(m)
    ensures Crippled(m, q, x, h) && TableAt(m.ram, L2(0, 1)) == Some(h.l2) && Resolve(m, h.l2) == Some(h.l2)
    ensures TableAt(m.ram, L1(0)) == Some(h.l1) && Resolve(m, h.l1) == Some(h.l1)
  {
    hide Rotten, Translate, Resolve, Num, PageOf;
    HeapPath(m);
    RootTable(m.ram);
    var p := Window(PageOf(m.cur));
    h := HeapTables(TableAt(m.ram, L1(0)).value, TableAt(m.ram, L2(0, 1)).value, TableAt(m.ram, p).value);
    TreeOnly(m.ram, h.l3, p);
  }

  // ---- one page ----

  lemma FoundSlot(m: Machine, t: Page, p: Path, i: Index)
    requires !m.stuck && !p.L3? && TableAt(m.ram, p) == Some(t) && Resolve(m, t) == Some(t) && m.cur + 4 <= PAGES
    requires TableAt(m.ram, Child(p, i)).Some?
    ensures Descend(m, t, i) == (m, TableAt(m.ram, Child(p, i)).value)
  {
    hide AllocTable, TableAt, Resolve;
    LoadAt(m, t, p, i);
  }

  // The first two levels of the descent find the heap's tables.
  lemma LameUpper(m: Machine, q: Path, x: Page, va: Page, pa: Page, k: Kind)
    requires Lame(m, q, x) && va.i0 == 0 && va.i1 == 1
    ensures var l2 := TableAt(m.ram, L2(0, 1)).value;
            var (n, l3) := Descend(m, l2, va.i2);
            && MapPage(m, va, pa, k) == SetLeaf(n, l3, va.i3, pa, k)
            && OnlyAt(m.ram, l2, L2(0, 1)) && Resolve(m, l2) == Some(l2)
  {
    hide Rotten, Translate, Resolve, SetLeaf, TableAt;
    HeapPath(m);
    RootTable(m.ram);
    var l1, l2 := TableAt(m.ram, L1(0)).value, TableAt(m.ram, L2(0, 1)).value;
    FoundSlot(m, ROOT, Root, 0);
    FoundSlot(m, l1, L1(0), 1);
    TreeOnly(m.ram, l2, L2(0, 1));
  }

  // The page's table is there: at most the page's own translation changes.
  ghost predicate LeafOnly(m: Machine, r: Machine, va: Page) {
    && !r.stuck && r.on == m.on && r.cur == m.cur
    && (forall q :: TableAt(r.ram, q) == TableAt(m.ram, q))
    && (forall v :: v != va ==> Translate(r.ram, v) == Translate(m.ram, v))
    && (Translate(r.ram, va) == Translate(m.ram, va) ||
        (Translate(m.ram, va) == None && exists k :: Translate(r.ram, va) == Some(Mapping(va, Attr(k)))))
    && (forall v :: Unreachable(m.ram, v) ==> PageAt(r.ram, v) == PageAt(m.ram, v))
  }

  lemma LeafSets(m: Machine, l3: Page, va: Page, k: Kind)
    requires !m.stuck && OnlyAt(m.ram, l3, Window(va)) && Resolve(m, l3) == Some(l3)
    ensures LeafOnly(m, SetLeaf(m, l3, va.i3, va, k), va)
  {
    assert Translate(m.ram, va) == Leaf(Get(m.ram, l3, va.i3));
    if !Get(m.ram, l3, va.i3).valid {
      LeafStep(m, va, Word(true, va, Attr(k)), l3);
      assert Translate(SetLeaf(m, l3, va.i3, va, k).ram, va) == Some(Mapping(va, Attr(k)));
    }
  }

  lemma NextLeaf(m: Machine, r: Machine, va: Page)
    requires LeafOnly(m, r, va)
    ensures NextHoused(m) ==> NextHoused(r)
  {
    hide Translate, TableAt, PageOf, Num;
  }

  lemma LameLeaf(m: Machine, r: Machine, va: Page, q: Path, x: Page)
    requires Lame(m, q, x) && LeafOnly(m, r, va) && (x == TMP3 || x != va)
    ensures Lame(r, q, x) && (NextHoused(m) ==> NextHoused(r))
  {
    hide Translate, TableAt, PageOf, Num;
    forall p | TableAt(r.ram, p).Some?
      ensures Resolve(r, TableAt(r.ram, p).value) == TableAt(r.ram, p)
    {
      var t := TableAt(r.ram, p).value;
      assert Resolve(m, t) == Some(t);
    }
    assert NextHoused(m) ==> NextHoused(r) by { NextLeaf(m, r, va); }
  }

  lemma StuckBlock(m: Machine, q: Path, x: Page, h: HeapTables, i: Index)
    requires Crippled(m, q, x, h) && m.cur + 4 <= HEAP_END && Get(m.ram, h.l3, PageOf(m.cur).i3).valid
    requires TableAt(m.ram, Child(L2(0, 1), i)) == None
    ensures Descend(m, h.l2, i).0.stuck
  {
    hide AllocTable, Num, PageOf, TableAt, Translate, Rotten;
    LeafAlloc(m, q, x, h);
    LoadAt(m, h.l2, L2(0, 1), i);
  }

  lemma BlockStep(m: Machine, q: Path, x: Page, h: HeapTables, va: Page)
    requires Crippled(m, q, x, h) && m.cur + 4 <= HEAP_END && m.cur % 512 <= 504
    requires OnlyAt(m.ram, h.l2, L2(0, 1)) && Resolve(m, h.l2) == Some(h.l2)
    requires va.i0 == 0 && va.i1 == 1 && TableAt(m.ram, Window(va)) == None
    ensures var (r, n) := Descend(m, h.l2, va.i2);
            r.stuck || (n == PageOf(m.cur) && Adds(m, r, n, Window(va)) && Crippled(r, q, x, h))
  {
    hide AllocTable, Num, PageOf, TableAt, Translate, Rotten, Crippled;
    NextBlock(m, q, x, h, h.l2, L2(0, 1), va.i2);
    if Get(m.ram, h.l3, PageOf(m.cur).i3).valid {
      StuckBlock(m, q, x, h, va.i2);
    } else {
      BlockAdds(m, q, x, h, h.l2, L2(0, 1), va.i2);
    }
  }

  lemma PageNumbers(cur: nat)
    requires cur + 4 <= HEAP_END && cur % 512 <= 504
    ensures Num(PageOf(cur)) == cur && Window(PageOf(cur + 4)) == Window(PageOf(cur)) && cur + 4 < HEAP_END
    ensures Num(TMP1) == HEAP_BASE + 4 && Num(TMP3) == HEAP_BASE + 6
  {
    SameWindow(PageOf(cur), PageOf(cur + 4), 4);
  }

  lemma FreshLater(m: Machine, r: Machine, n: Page, p: Path)
    requires Fresh(m) && Adds(m, r, n, p) && Num(n) == m.cur
    ensures Fresh(r)
  {
    hide Translate, TableAt, Num;
    forall v | r.cur <= Num(v) < HEAP_END
      ensures PageAt(r.ram, v) == ZEROS && Unreachable(r.ram, v)
    {
      assert PageAt(m.ram, v) == ZEROS && Unreachable(m.ram, v);
    }
  }

  lemma LameAdds(m: Machine, r: Machine, n: Page, p: Path, q: Path, x: Page)
    requires Lame(m, q, x) && NextHoused(m) && m.cur + 4 <= HEAP_END && m.cur % 512 <= 504
    requires n == PageOf(m.cur) && TableAt(m.ram, p) == None && Adds(m, r, n, p) && !p.Root?
    ensures Lame(r, q, x) && NextHoused(r)
  {
    hide Translate, TableAt, Num, PageOf;
    PageNumbers(m.cur);
    assert Unreachable(m.ram, n);
    TreeGrows(m.ram, r.ram, p, n);
    FreshLater(m, r, n, p);
    forall u | TableAt(r.ram, u).Some?
      ensures Resolve(r, TableAt(r.ram, u).value) == TableAt(r.ram, u)
    {
      if u != p {
        assert Resolve(m, TableAt(m.ram, u).value) == TableAt(m.ram, u);
      }
    }
  }

  // The range's pages are no tables, and no store to one of them reaches the heap's upper tables.
  ghost predicate Harmless(m: Machine, first: nat, count: nat) {
    forall p :: InRange(p, first, count) ==>
      && Unreachable(m.ram, p) && Resolve(m, p) != Some(ROOT)
      && Resolve(m, p) != TableAt(m.ram, L1(0)) && Resolve(m, p) != TableAt(m.ram, L2(0, 1))
  }

  lemma HarmlessLeaf(m: Machine, r: Machine, va: Page, first: nat, count: nat, q: Path, x: Page)
    requires Lame(m, q, x) && Harmless(m, first, count) && LeafOnly(m, r, va)
    ensures Harmless(r, first, count)
  {
    hide Translate, TableAt, Num;
    HeapPath(m);
    RootTable(m.ram);
    forall p | InRange(p, first, count)
      ensures Unreachable(r.ram, p) && Resolve(r, p) != Some(ROOT)
      ensures Resolve(r, p) != TableAt(r.ram, L1(0)) && Resolve(r, p) != TableAt(r.ram, L2(0, 1))
    {
      assert Unreachable(m.ram, p);
      assert TableAt(m.ram, Root) != Some(p) && TableAt(m.ram, L1(0)) != Some(p) && TableAt(m.ram, L2(0, 1)) != Some(p);
    }
  }

  lemma HarmlessAdds(m: Machine, r: Machine, n: Page, p: Path, first: nat, count: nat)
    requires Harmless(m, first, count) && Adds(m, r, n, p) && p.L3? && !InRange(n, first, count)
    ensures Harmless(r, first, count)
  {
    hide Translate, TableAt, Num;
    forall v | InRange(v, first, count)
      ensures Unreachable(r.ram, v) && Resolve(r, v) != Some(ROOT)
      ensures Resolve(r, v) != TableAt(r.ram, L1(0)) && Resolve(r, v) != TableAt(r.ram, L2(0, 1))
    {
      assert Unreachable(m.ram, v);
    }
  }

  lemma StuckLeaf(m: Machine, t: Page, i: Index, pa: Page, k: Kind)
    requires m.stuck
    ensures SetLeaf(m, t, i, pa, k).stuck
  {
  }

  // What one turn of the loop does to a broken tree, if it does not fault.
  ghost predicate StillLame(m: Machine, r: Machine, va: Page, lo: nat, n: nat, q: Path, x: Page) {
    && Lame(r, q, x) && TableAt(r.ram, Window(va)).Some?
    && (forall p :: TableAt(m.ram, p).Some? ==> TableAt(r.ram, p).Some?)
    && r.cur == m.cur + (if TableAt(m.ram, Window(va)).Some? then 0 else 4)
    && (NextHoused(m) ==> NextHoused(r)) && (Harmless(m, lo, n) ==> Harmless(r, lo, n))
  }

  lemma LamePresent(m: Machine, va: Page, k: Kind, lo: nat, n: nat, q: Path, x: Page)
    requires Lame(m, q, x) && va.i0 == 0 && va.i1 == 1 && (x == TMP3 || x != va) && TableAt(m.ram, Window(va)).Some?
    requires OnlyAt(m.ram, TableAt(m.ram, L2(0, 1)).value, L2(0, 1))
    ensures var (d, l3) := Descend(m, TableAt(m.ram, L2(0, 1)).value, va.i2);
            StillLame(m, SetLeaf(d, l3, va.i3, va, k), va, lo, n, q, x)
  {
    hide NextHoused, Harmless, Translate, TableAt, Num, PageOf, Descend, SetLeaf, Resolve, Rotten;
    var l2, l3 := TableAt(m.ram, L2(0, 1)).value, TableAt(m.ram, Window(va)).value;
    FoundSlot(m, l2, L2(0, 1), va.i2);
    TreeOnly(m.ram, l3, Window(va));
    LeafSets(m, l3, va, k);
    var r := SetLeaf(m, l3, va.i3, va, k);
    LameLeaf(m, r, va, q, x);
    if Harmless(m, lo, n) {
      HarmlessLeaf(m, r, va, lo, n, q, x);
    }
  }

  lemma LameGap(m: Machine, va: Page, k: Kind, lo: nat, n: nat, q: Path, x: Page)
    requires Lame(m, q, x) && va.i0 == 0 && va.i1 == 1 && (x == TMP3 || x != va) && lo + n <= m.cur
    requires TableAt(m.ram, Window(va)) == None && NextHoused(m) && m.cur % 512 <= 504
    requires OnlyAt(m.ram, TableAt(m.ram, L2(0, 1)).value, L2(0, 1))
    ensures var (d, l3) := Descend(m, TableAt(m.ram, L2(0, 1)).value, va.i2);
            var r := SetLeaf(d, l3, va.i3, va, k);
            r.stuck || StillLame(m, r, va, lo, n, q, x)
  {
    hide Harmless, Translate, TableAt, PageOf, Descend, SetLeaf, Resolve, Rotten, Crippled;
    var h := LameCrippled(m, q, x);
    BlockStep(m, q, x, h, va);
    var (d, l3) := Descend(m, h.l2, va.i2);
    if d.stuck {
      StuckLeaf(d, l3, va.i3, va, k);
    } else {
      LameAdds(m, d, l3, Window(va), q, x);
      assert Num(PageOf(m.cur)) == m.cur;
      if Harmless(m, lo, n) {
        HarmlessAdds(m, d, l3, Window(va), lo, n);
      }
      TreeOnly(d.ram, l3, Window(va));
      LeafSets(d, l3, va, k);
      var r := SetLeaf(d, l3, va.i3, va, k);
      LameLeaf(d, r, va, q, x);
      if Harmless(d, lo, n) {
        HarmlessLeaf(d, r, va, lo, n, q, x);
      }
    }
  }

  lemma LamePage(m: Machine, va: Page, k: Kind, lo: nat, n: nat, q: Path, x: Page)
    requires Lame(m, q, x) && va.i0 == 0 && va.i1 == 1 && (x == TMP3 || x != va) && lo + n <= m.cur
    requires TableAt(m.ram, Window(va)) == None ==> NextHoused(m) && m.cur % 512 <= 504
    ensures var r := MapPage(m, va, va, k); r.stuck || StillLame(m, r, va, lo, n, q, x)
  {
    hide Lame, NextHoused, Harmless, Translate, TableAt, Num, PageOf, Descend, SetLeaf, LeafOnly, Adds, Crippled;
    hide MapPage, Resolve;
    LameUpper(m, q, x, va, va, k);
    if TableAt(m.ram, Window(va)).Some? {
      LamePresent(m, va, k, lo, n, q, x);
    } else {
      LameGap(m, va, k, lo, n, q, x);
    }
  }

  // ---- the rest of the range ----

  lemma StuckPage(m: Machine, va: Page, pa: Page, k: Kind)
    requires m.stuck && m.cur + 12 <= PAGES
    ensures MapPage(m, va, pa, k).stuck
  {
    hide Descend, SetLeaf;
    var (m1, l1) := Descend(m, ROOT, va.i0);
    StuckDescend(m, ROOT, va.i0);
    var (m2, l2) := Descend(m1, l1, va.i1);
    StuckDescend(m1, l1, va.i1);
    var (m3, l3) := Descend(m2, l2, va.i2);
    StuckDescend(m2, l2, va.i2);
    StuckLeaf(m3, l3, va.i3, pa, k);
  }

  lemma {:induction false} StuckRange(m: Machine, first: nat, count: nat, k: Kind)
    requires m.stuck && first + count <= PAGES && m.cur + 12 * count < PAGES
    ensures MapRange(m, first, count, k).stuck
    decreases count
  {
    hide MapPage, PageOf;
    if count > 0 {
      StuckPage(m, PageOf(first), PageOf(first), k);
      StuckRange(MapPage(m, PageOf(first), PageOf(first), k), first + 1, count - 1, k);
    }
  }

  lemma GapsFall(before: Ram, after: Ram, va: Page, rest: set<Path>)
    requires forall p :: TableAt(before, p).Some? ==> TableAt(after, p).Some?
    requires TableAt(after, Window(va)).Some?
    ensures |Gaps(before, PathsOf(va) + rest)| >=
            |Gaps(after, rest)| + if TableAt(before, Window(va)).Some? then 0 else 1
  {
    hide TableAt;
    var g := Gaps(after, rest) + if TableAt(before, Window(va)).Some? then {} else {Window(va)};
    assert Window(va) !in Gaps(after, rest);
    Smaller(g, Gaps(before, PathsOf(va) + rest));
  }

  // The tables that the rest of the range needs can all be had, in the window of the next page.
  ghost predicate Affordable(m: Machine, first: nat, count: nat)
    requires first + count <= PAGES
  {
    Gaps(m.ram, Touched(first, count)) == {} ||
    (NextHoused(m) && m.cur % 512 + 4 * |Gaps(m.ram, Touched(first, count))| <= 508)
  }

  lemma NextAffordable(m: Machine, r: Machine, first: nat, count: nat, lo: nat, n: nat, q: Path, x: Page)
    requires 0 < count && first + count <= PAGES && Affordable(m, first, count)
    requires StillLame(m, r, PageOf(first), lo, n, q, x)
    ensures Affordable(r, first + 1, count - 1)
    ensures r.cur + 4 * |Gaps(r.ram, Touched(first + 1, count - 1))| <= m.cur + 4 * |Gaps(m.ram, Touched(first, count))|
  {
    hide TableAt, PageOf, Num, Lame, NextHoused, Harmless, Gaps;
    var s := Gaps(m.ram, Touched(first, count));
    var t := Gaps(r.ram, Touched(first + 1, count - 1));
    GapsFall(m.ram, r.ram, PageOf(first), Touched(first + 1, count - 1));
    assert |t| <= |s|;
    if s == {} {
      assert t == {};
    }
  }

  // A gap at the first page of the range is one of the tables counted.
  lemma GapCounted(ram: Ram, first: nat, count: nat)
    requires 0 < count && first + count <= PAGES && TableAt(ram, Window(PageOf(first))) == None
    ensures |Gaps(ram, Touched(first, count))| >= 1
  {
    hide TableAt, PageOf;
    assert Window(PageOf(first)) in Gaps(ram, Touched(first, count));
  }

  lemma LameBound(m: Machine, q: Path, x: Page)
    requires Lame(m, q, x)
    ensures HEAP_BASE <= m.cur <= HEAP_END
  {
  }

  lemma {:induction false} LameRange(m: Machine, first: nat, count: nat, k: Kind, lo: nat, n: nat, q: Path, x: Page)
    requires Lame(m, q, x) && HEAP_BASE <= first && first + count <= m.cur && lo + n <= m.cur <= HEAP_END
    requires m.cur + 12 * count < PAGES && Affordable(m, first, count) && (x == TMP3 || !InRange(x, first, count))
    ensures var r := MapRange(m, first, count, k);
            r.stuck ||
            (&& Lame(r, q, x) && (Harmless(m, lo, n) ==> Harmless(r, lo, n))
             && r.cur <= m.cur + 4 * |Gaps(m.ram, Touched(first, count))|)
    decreases count
  {
    hide TableAt, PageOf, Lame, NextHoused, Harmless, Gaps, Touched, MapPage, Num;
    if count > 0 {
      var va := PageOf(first);
      var m1 := MapPage(m, va, va, k);
      HeapShape(first);
      assert Num(va) == first;
      if TableAt(m.ram, Window(va)) == None {
        GapCounted(m.ram, first, count);
      }
      LamePage(m, va, k, lo, n, q, x);
      if m1.stuck {
        StuckRange(m1, first + 1, count - 1, k);
      } else {
        NextAffordable(m, m1, first, count, lo, n, q, x);
        LameBound(m1, q, x);
        LameRange(m1, first + 1, count - 1, k, lo, n, q, x);
      }
    }
  }

  // ---- the first page that fails ----

  // Pages of a range that hold no tables and are mapped to themselves, if at all.
  ghost predicate Own(ram: Ram, first: nat, count: nat) {
    forall p :: InRange(p, first, count) ==>
           Unreachable(ram, p) && (Translate(ram, p).Some? ==> Translate(ram, p).value.frame == p)
  }

  // The page just allocated hangs in its own window, which maps it no longer (MMU off).
  lemma SharedSlot(m: Machine, a: Machine, s: Machine, va: Page)
    requires !m.on && !s.stuck && !s.on && s.cur == m.cur + 4 && HEAP_BASE + 7 <= m.cur && m.cur + 4 <= HEAP_END
    requires Unreachable(a.ram, TMP1) && Unreachable(a.ram, TMP3)
    requires Tree(a.ram) && Unreachable(a.ram, PageOf(m.cur)) && TableAt(a.ram, L2(0, 1)).Some?
    requires Window(va) == Window(PageOf(m.cur)) && Fresh(s)
    requires forall q :: TableAt(s.ram, q) == if q == Window(va) then Some(PageOf(m.cur)) else TableAt(a.ram, q)
    requires forall v :: Translate(s.ram, v) == if Window(v) == Window(va) then None else Translate(a.ram, v)
    ensures Lame(s, Window(va), PageOf(m.cur))
  {
    hide TableAt, Translate, PageOf;
    HeapShape(m.cur);
    assert Num(PageOf(m.cur)) == m.cur;
    TreeGrows(a.ram, s.ram, Window(va), PageOf(m.cur));
  }

  lemma HousedIn(ram: Ram, cur: nat, p: Path)
    requires Inv(ram, cur)
    ensures Housed(ram, cur) && HeapClean(ram, cur) && (TableAt(ram, p).Some? ==> Num(TableAt(ram, p).value) < cur)
  {
  }

  lemma SharedFresh(m: Machine, a: Machine, s: Machine, t: Page, p: Path)
    requires Inv(m.ram, m.cur) && Inv(a.ram, m.cur + 4) && s.cur == m.cur + 4 && m.cur + 4 <= HEAP_END
    requires TableAt(m.ram, p) == Some(t) && OnlyPage(a.ram, s.ram, t)
    requires forall q :: TableAt(s.ram, q) == TableAt(a.ram, q) || TableAt(s.ram, q) == Some(PageOf(m.cur))
    ensures Fresh(s)
  {
    hide TableAt, Translate, PageOf, Num;
    HousedIn(m.ram, m.cur, p);
    HousedIn(a.ram, m.cur + 4, p);
    assert Num(PageOf(m.cur)) == m.cur;
    forall v | s.cur <= Num(v) < HEAP_END
      ensures PageAt(s.ram, v) == ZEROS && Unreachable(s.ram, v)
    {
      FreshUnreachable(a.ram, m.cur + 4, v);
    }
  }

  lemma HarmlessOff(m: Machine, a: Ram, s: Machine, b: Block, w: Path, first: nat, count: nat)
    requires !s.on && first + count <= m.cur && m.cur + 4 <= PAGES && b == BlockAt(m.cur) && HEAP_BASE + 7 <= first
    requires forall q ::
               TableAt(a, q) == TableAt(m.ram, q) || TableAt(a, q) == Some(b.l3) || TableAt(a, q) == Some(TMP3)
    requires forall q :: TableAt(s.ram, q) == if q == w then Some(b.table) else TableAt(a, q)
    requires forall p :: InRange(p, first, count) ==> Unreachable(m.ram, p)
    ensures Harmless(s, first, count)
  {
    hide TableAt, Translate;
    RootTable(s.ram);
    assert Num(b.table) == m.cur && Num(b.l3) == m.cur + 3;
    forall p | InRange(p, first, count)
      ensures Unreachable(s.ram, p)
    {
      assert Unreachable(m.ram, p);
    }
    forall p | InRange(p, first, count)
      ensures Resolve(s, p) != Some(ROOT)
      ensures Resolve(s, p) != TableAt(s.ram, L1(0)) && Resolve(s, p) != TableAt(s.ram, L2(0, 1))
    {
      assert Unreachable(s.ram, p);
      assert TableAt(s.ram, Root) != Some(p) && TableAt(s.ram, L1(0)) != Some(p) && TableAt(s.ram, L2(0, 1)) != Some(p);
    }
  }

  lemma TreeOnlyIn(m: Machine, t: Page, p: Path)
    requires Lame(m, p, t)
    ensures OnlyAt(m.ram, t, p) && Resolve(m, t) == Some(t)
  {
    hide TableAt, Translate;
    assert TableAt(m.ram, p) == Some(t);
  }

  lemma TempsOut(m: Machine)
    requires Inv(m.ram, m.cur)
    ensures Unreachable(m.ram, TMP1) && Unreachable(m.ram, TMP3)
  {
  }

  lemma SharedTables(m: Machine, a: Machine)
    requires Inv(m.ram, m.cur) && m.cur + 4 <= HEAP_END && Allocated(m.ram, a.ram, BlockAt(m.cur))
    ensures TableAt(a.ram, L2(0, 1)).Some?
    ensures forall q :: TableAt(a.ram, q) == TableAt(m.ram, q) || TableAt(a.ram, q) == Some(BlockAt(m.cur).l3)
  {
    hide TableAt, Translate;
  }

  lemma SharedLame(m: Machine, va: Page, t: Page, k: Kind, lo: nat, n: nat)
    requires Setting(m, va, t) && Placeable(m.ram, m.cur) && Window(va) == Window(PageOf(m.cur)) && !m.on
    requires HEAP_BASE + 7 <= lo && lo + n <= m.cur
    ensures var r := MapPage(m, va, va, k);
            && Lame(r, Window(va), PageOf(m.cur)) && TableAt(r.ram, Window(va)).Some? && r.cur == m.cur + 4
            && (forall p :: TableAt(m.ram, p).Some? ==> TableAt(r.ram, p).Some?)
            && (Own(m.ram, lo, n) ==> Harmless(r, lo, n))
  {
    hide AllocTable, PageOf, Num, MapPage, SetLeaf, Inv, Grows, Placeable, Fits, TableAt, Translate, Lame, Harmless;
    hide Resolve, Spared, Fresh;
    var a := AllocTable(m);
    var x := PageOf(m.cur);
    CurBounds(m);
    AllocKeeps(m);
    SharedAllocation(m, a, va, t);
    Extended(m, va, t, L2(va.i0, va.i1), va, k);
    var s := Store(a, t, va.i2, Word(true, x, TABLE));
    InvParts(a.ram, a.cur, L2(0, 1));
    SharedTables(m, a);
    TempsOut(a);
    SharedFresh(m, a, s, t, L2(va.i0, va.i1));
    SharedSlot(m, a, s, va);
    TreeOnlyIn(s, x, Window(va));
    LeafSets(s, x, va, k);
    var r := SetLeaf(s, x, va.i3, va, k);
    assert x != va by { assert Num(x) == m.cur; }
    LameLeaf(s, r, va, Window(va), x);
    if Own(m.ram, lo, n) {
      HarmlessOff(m, a.ram, s, BlockAt(m.cur), Window(va), lo, n);
      HarmlessLeaf(s, r, va, lo, n, Window(va), x);
    }
  }

  // A block that straddles two windows: the new page at va, its level 3 table and the temporary one.
  ghost predicate ThreeMore(m: Ram, s: Ram, va: Page, b: Block) {
    forall q :: TableAt(s, q) ==
                if q == Window(va) then Some(b.table) else if q == Window(b.table) then Some(b.l3)
                    else if q == Window(b.l3) then Some(TMP3) else TableAt(m, q)
  }

  lemma ThreeMoreTree(m: Ram, s: Ram, va: Page, b: Block)
    requires Tree(m) && ThreeMore(m, s, va, b) && b.table != b.l3 && b.table != TMP3 && b.l3 != TMP3
    requires Unreachable(m, b.table) && Unreachable(m, b.l3) && Unreachable(m, TMP3)
    ensures Tree(s)
  {
    hide TableAt;
    forall p, q | TableAt(s, p).Some? && TableAt(s, p) == TableAt(s, q)
      ensures p == q
    {
      assert TableAt(m, p) != Some(b.table) && TableAt(m, p) != Some(b.l3) && TableAt(m, p) != Some(TMP3);
      assert TableAt(m, q) != Some(b.table) && TableAt(m, q) != Some(b.l3) && TableAt(m, q) != Some(TMP3);
    }
  }

  // All of them can be reached, unless va lies in the window of the block.
  lemma ThreeMoreResolve(m: Machine, a: Machine, s: Machine, va: Page, b: Block)
    requires Housed(m.ram, m.cur) && Mapped(m.ram, TMP3) && s.on == a.on == m.on
    requires TwoMore(m.ram, a.ram, b) && Resolve(a, b.l3) == Some(b.l3) && ThreeMore(m.ram, s.ram, va, b)
    requires forall v :: Translate(m.ram, v).Some? ==> Translate(a.ram, v) == Translate(m.ram, v)
    requires forall v :: Translate(s.ram, v) == if Window(v) == Window(va) then None else Translate(a.ram, v)
    requires TableAt(m.ram, Window(va)) == None && Window(va) != Window(b.l3)
    requires m.on ==> Window(va) != Window(b.table)
    ensures forall p :: TableAt(s.ram, p).Some? ==> Resolve(s, TableAt(s.ram, p).value) == TableAt(s.ram, p)
  {
    hide TableAt, Translate, Filled, TwoMore;
    if m.on {
      NewPageReached(m.ram, a.ram, s, va, b);
      forall v | Mapped(m.ram, v)
        ensures Resolve(s, v) == Some(v)
      {
        TranslatedElsewhere(m.ram, v, va);
      }
    }
  }

  lemma StraddleStart(m: Machine, l2: Page, b: Block)
    requires Straddles(m, l2, b)
    ensures HEAP_BASE <= m.cur && m.cur + 4 <= HEAP_END && TableAt(m.ram, L2(0, 1)).Some?
  {
  }

  // A page below the block does not lie in the window in which the block ends.
  lemma NotBeyond(cur: nat, p: Page, b: Block)
    requires HEAP_BASE <= cur && cur + 4 <= HEAP_END && !Fits(cur) && b == BlockAt(cur) && Num(p) < cur
    ensures Window(p) != Window(b.l3)
  {
    StraddleShape(cur);
    assert Num(b.l3) == cur + 3;
  }

  lemma RangePage(m: Ram, a: Ram, s: Machine, va: Page, b: Block, p: Page)
    requires TwoMore(m, a, b) && s.on && Window(p) != Window(b.l3)
    requires Translate(m, p).Some? ==> Translate(m, p).value.frame == p
    requires Translate(s.ram, p) == if Window(p) == Window(va) then None else Translate(a, p)
    ensures Resolve(s, p) in {None, Some(p), Some(b.l3), Some(b.table)}
  {
    hide TableAt, Translate;
  }

  // What the pages of the range translate to in the end: nothing, themselves, or one of the new pages.
  lemma StraddleHarmless(m: Machine, a: Ram, s: Machine, va: Page, l2: Page, b: Block, first: nat, count: nat)
    requires Straddles(m, l2, b) && HEAP_BASE + 7 <= first && first + count <= m.cur
    requires Own(m.ram, first, count) && s.on
    requires TwoMore(m.ram, a, b) && ThreeMore(m.ram, s.ram, va, b) && va.i0 == 0 && va.i1 == 1
    requires forall v :: Translate(s.ram, v) == if Window(v) == Window(va) then None else Translate(a, v)
    requires Unreachable(m.ram, b.table) && Unreachable(m.ram, b.l3) && Unreachable(m.ram, TMP3)
    ensures Harmless(s, first, count)
  {
    hide TableAt, Translate, PageOf, Inv, AllocTable;
    assert HEAP_BASE <= m.cur && m.cur + 4 <= HEAP_END && TableAt(m.ram, L2(0, 1)).Some? by { StraddleStart(m, l2, b); }
    StraddleShape(m.cur);
    HeapPath(m);
    RootTable(m.ram);
    forall p | InRange(p, first, count)
      ensures Unreachable(s.ram, p) && Resolve(s, p) != Some(ROOT)
      ensures Resolve(s, p) != TableAt(s.ram, L1(0)) && Resolve(s, p) != TableAt(s.ram, L2(0, 1))
    {
      assert Unreachable(m.ram, p) && (Translate(m.ram, p).Some? ==> Translate(m.ram, p).value.frame == p);
      NotBeyond(m.cur, p, b);
      RangePage(m.ram, a, s, va, b, p);
      assert TableAt(m.ram, Root) != Some(p) && TableAt(m.ram, L1(0)) != Some(p) && TableAt(m.ram, L2(0, 1)) != Some(p);
    }
  }

  lemma StraddleLame(s: Machine, m: Ram, va: Page, b: Block)
    requires ThreeMore(m, s.ram, va, b) && Tree(s.ram) && TableAt(m, L2(0, 1)).Some? && TableAt(m, L3(0, 1, 0)).Some?
    requires Window(va) != Window(b.l3) && Window(b.table) != Window(b.l3) && Window(b.l3) == L3(0, 1, b.l3.i2)
    requires !s.stuck && HEAP_BASE + 7 <= s.cur <= HEAP_END && Fresh(s)
    requires Unreachable(m, TMP1) && b.table != TMP1 && b.l3 != TMP1
    requires forall p :: TableAt(s.ram, p).Some? ==> Resolve(s, TableAt(s.ram, p).value) == TableAt(s.ram, p)
    ensures Lame(s, Window(b.l3), TMP3) && TableAt(s.ram, Window(va)) == Some(b.table)
    ensures TableAt(s.ram, L3(0, 1, 0)).Some? && forall p :: TableAt(m, p).Some? ==> TableAt(s.ram, p).Some?
  {
    hide TableAt, Translate;
  }

  lemma StraddleTables(m: Machine, a: Ram, s: Ram, va: Page, b: Block)
    requires TwoMore(m.ram, a, b)
    requires forall q :: TableAt(s, q) == if q == Window(va) then Some(b.table) else TableAt(a, q)
    ensures ThreeMore(m.ram, s, va, b)
  {
    hide TableAt, Translate, Filled;
  }

  lemma StraddleBase(m: Machine, l2: Page, b: Block)
    requires Straddles(m, l2, b)
    ensures Tree(m.ram) && Housed(m.ram, m.cur) && b.table != b.l3 && !Fits(m.cur) && b == BlockAt(m.cur)
    ensures Window(b.table) != Window(b.l3) && Window(b.l3) == L3(0, 1, b.l3.i2) && b.table == PageOf(m.cur)
    ensures HEAP_BASE <= m.cur && m.cur + 5 <= HEAP_END && (m.cur + 4) % 512 <= 3
    ensures TableAt(m.ram, L2(0, 1)) == Some(l2) && TableAt(m.ram, L3(0, 1, 0)).Some?
  {
    StraddleShape(m.cur);
    BlockEnds(m.cur);
    assert Translate(m.ram, TMP1).Some?;
  }

  lemma StraddleNext(m: Machine, a: Machine, s: Machine, va: Page, l2: Page, b: Block)
    requires Straddles(m, l2, b) && m.cur + 5 <= HEAP_END && Spared(m.ram, a.ram, b) && TwoMore(m.ram, a.ram, b)
    requires forall q :: TableAt(s.ram, q) == if q == Window(va) then Some(PageOf(m.cur)) else TableAt(a.ram, q)
    requires OnlyPage(a.ram, s.ram, l2) && TableAt(m.ram, Window(va)) == None && ThreeMore(m.ram, s.ram, va, b)
    requires s.cur == m.cur + 4
    ensures NextHoused(s) && Fresh(s)
  {
    hide TableAt, Translate, PageOf, Num, Spared, Inv, Filled;
    HeapBounds(m, b);
    TwoMoreElsewhere(m.ram, a.ram, b, Root);
    HeapAfter(m, a.ram, s.ram, l2, L2(0, 1), Window(va), b);
  }

  lemma StraddleAfter(m: Machine, va: Page, l2: Page, b: Block, k: Kind, lo: nat, n: nat) returns (s: Machine)
    requires Setting(m, va, l2) && Straddles(m, l2, b) && va.i0 == 0 && va.i1 == 1 && Num(va) < m.cur
    requires m.on ==> Window(va) != Window(b.table)
    requires HEAP_BASE + 7 <= lo && lo + n <= m.cur
    ensures Lame(s, Window(b.l3), TMP3) && NextHoused(s) && s.cur == m.cur + 4
    ensures TableAt(s.ram, Window(va)) == Some(b.table) && TableAt(s.ram, L3(0, 1, 0)).Some?
    ensures forall p :: TableAt(m.ram, p).Some? ==> TableAt(s.ram, p).Some?
    ensures MapPage(m, va, va, k) == SetLeaf(s, b.table, va.i3, va, k)
    ensures Own(m.ram, lo, n) ==> Harmless(s, lo, n)
  {
    hide AllocTable, PageOf, Num, MapPage, SetLeaf, Inv, Fits, Translate, TableAt, TwoMore, Filled, Harmless, Resolve;
    hide NextHoused, Spared, Lame, ThreeMore, Fresh;
    var a := AllocTable(m);
    CurBounds(m);
    StraddleIntoGap(m, l2, b);
    StraddleFacts(m, l2, b);
    TwoMoreAllocation(m, a, l2, L2(0, 1), b);
    Extended(m, va, l2, L2(0, 1), va, k);
    s := Store(a, l2, va.i2, Word(true, b.table, TABLE));
    StraddleTables(m, a.ram, s.ram, va, b);
    StraddleBase(m, l2, b);
    NotBeyond(m.cur, va, b);
    ThreeMoreTree(m.ram, s.ram, va, b);
    ThreeMoreResolve(m, a, s, va, b);
    StraddleNext(m, a, s, va, l2, b);
    StraddleLame(s, m.ram, va, b);
    if Own(m.ram, lo, n) {
      if m.on {
        StraddleHarmless(m, a.ram, s, va, l2, b, lo, n);
      } else {
        TwoMoreElsewhere(m.ram, a.ram, b, Root);
        HarmlessOff(m, a.ram, s, b, Window(va), lo, n);
      }
    }
  }

  // A page of allocated heap without a table, which cannot be given one.
  ghost predicate Unmappable(m: Machine, va: Page) {
    && !m.stuck && Inv(m.ram, m.cur) && m.cur + 4 <= HEAP_END && HEAP_BASE <= Num(va) < m.cur
    && TableAt(m.ram, Window(va)) == None && !Mappable(m.ram, m.cur, va)
  }

  lemma UnmappableSetting(m: Machine, va: Page)
    requires Unmappable(m, va)
    ensures va.i0 == 0 && va.i1 == 1 && TableAt(m.ram, L2(0, 1)).Some?
    ensures Setting(m, va, TableAt(m.ram, L2(0, 1)).value)
    ensures Placeable(m.ram, m.cur) ==> Window(va) == Window(PageOf(m.cur))
    ensures !Placeable(m.ram, m.cur) ==> Straddles(m, TableAt(m.ram, L2(0, 1)).value, BlockAt(m.cur))
  {
    HeapShape(Num(va));
    NumInjective(va, PageOf(Num(va)));
  }

  // Pages that follow va up to the pointer need no other table if they share its window with it.
  lemma {:induction false} OneWindow(ram: Ram, w: Path, first: nat, count: nat, cur: nat)
    requires first + count <= cur < PAGES && HEAP_BASE <= first && cur < HEAP_END && TableAt(ram, w).Some?
    requires count > 0 ==> w == Window(PageOf(first)) == Window(PageOf(cur))
    ensures Gaps(ram, Touched(first, count)) == {}
    decreases count
  {
    hide PageOf, TableAt;
    if count > 0 {
      WindowBetween(first, first + 1, cur);
      Ancestors(ram, PageOf(first));
      OneWindow(ram, w, first + 1, count - 1, cur);
    }
  }

  lemma LastStraddle(cur: nat)
    requires HEAP_BASE <= cur && cur + 4 <= HEAP_END && !Fits(cur)
    ensures cur <= HEAP_BASE + 127 * 512
  {
  }

  // Below a window that is not the last one there are at most 126 windows besides the first.
  lemma FewGaps(ram: Ram, first: nat, count: nat, cur: nat)
    requires first + count <= cur && HEAP_BASE <= first && cur + 4 <= HEAP_END && !Fits(cur)
    requires TableAt(ram, L3(0, 1, 0)).Some?
    ensures |Gaps(ram, Touched(first, count))| <= 126
  {
    hide PageOf, TableAt, Windows, Touched;
    Ancestors(ram, Pg(0, 1, 0, 0));
    LastStraddle(cur);
    TouchedGigabyte(first, count, 0, 1, 0, 127);
    var s, t := Gaps(ram, Touched(first, count)), Windows(0, 1, 1, 126);
    forall p | p in s
      ensures p in t
    {
    }
    Smaller(s, t);
  }

  lemma TouchedFirst(first: nat, count: nat)
    requires 0 < count && first + count <= PAGES
    ensures Touched(first, count) == PathsOf(PageOf(first)) + Touched(first + 1, count - 1)
  {
  }

  lemma FirstStraddles(m: Machine, first: nat, count: nat, l2: Page, b: Block, k: Kind, lo: nat, n: nat)
    requires 0 < count && first + count <= m.cur && m.cur < PAGES && HEAP_BASE <= first
    requires var va := PageOf(first);
             && Setting(m, va, l2) && Straddles(m, l2, b) && va.i0 == 0 && va.i1 == 1 && Num(va) < m.cur
             && (m.on ==> Window(va) != Window(b.table))
    requires HEAP_BASE + 7 <= lo && lo + n <= m.cur
    ensures var r := MapPage(m, PageOf(first), PageOf(first), k);
            && Lame(r, Window(b.l3), TMP3) && Affordable(r, first + 1, count - 1) && r.cur == m.cur + 4
            && TableAt(r.ram, Window(PageOf(first))).Some?
            && (forall p :: TableAt(m.ram, p).Some? ==> TableAt(r.ram, p).Some?)
            && (Own(m.ram, lo, n) ==> Harmless(r, lo, n))
  {
    hide AllocTable, PageOf, Num, MapPage, SetLeaf, Inv, Translate, TableAt, Harmless, Touched, Gaps, Resolve;
    hide NextHoused, Rotten, LeafOnly;
    var va := PageOf(first);
    var s := StraddleAfter(m, va, l2, b, k, lo, n);
    TreeOnly(s.ram, b.table, Window(va));
    assert Resolve(s, b.table) == Some(b.table);
    LeafSets(s, b.table, va, k);
    var r := SetLeaf(s, b.table, va.i3, va, k);
    LameLeaf(s, r, va, Window(b.l3), TMP3);
    if Own(m.ram, lo, n) {
      HarmlessLeaf(s, r, va, lo, n, Window(b.l3), TMP3);
    }
    StraddleBase(m, l2, b);
    FewGaps(r.ram, first + 1, count - 1, m.cur);
  }

  lemma FirstFails(m: Machine, first: nat, count: nat, k: Kind, lo: nat, n: nat) returns (q: Path, x: Page)
    requires 0 < count && first + count <= m.cur && m.cur < PAGES && Unmappable(m, PageOf(first))
    requires HEAP_BASE + 7 <= lo && lo + n <= m.cur
    ensures var r := MapPage(m, PageOf(first), PageOf(first), k);
            || r.stuck
            || (&& Lame(r, q, x) && Affordable(r, first + 1, count - 1) && (x == TMP3 || Num(x) == m.cur)
                && r.cur >= m.cur && (Own(m.ram, lo, n) ==> Harmless(r, lo, n))
                && r.cur + 4 * |Gaps(r.ram, Touched(first + 1, count - 1))| <=
                    m.cur + 4 * |Gaps(m.ram, Touched(first, count))|)
    ensures m.on && Window(PageOf(first)) == Window(PageOf(m.cur)) ==> MapPage(m, PageOf(first), PageOf(first), k).stuck
  {
    hide AllocTable, PageOf, Num, MapPage, SetLeaf, Inv, Translate, TableAt, Harmless, Lame, Touched, Gaps, Placeable;
    hide Setting, Straddles;
    var va := PageOf(first);
    assert Num(va) == first && Num(PageOf(m.cur)) == m.cur;
    UnmappableSetting(m, va);
    var t := TableAt(m.ram, L2(0, 1)).value;
    var b := BlockAt(m.cur);
    q, x := Window(b.l3), TMP3;
    if Placeable(m.ram, m.cur) {
      if m.on {
        SharedFails(m, va, t, va, k);
      } else {
        SharedLame(m, va, t, k, lo, n);
        q, x := Window(va), PageOf(m.cur);
        CurBounds(m);
        WindowBetween(first, first + 1, m.cur);
        OneWindow(MapPage(m, va, va, k).ram, Window(va), first + 1, count - 1, m.cur);
      }
    } else if m.on && Window(va) == Window(b.table) {
      StraddleBreaks(m, va, t, t, b, va, k);
    } else {
      FirstStraddles(m, first, count, t, b, k, lo, n);
    }
    var r := MapPage(m, va, va, k);
    if !r.stuck {
      GapsFall(m.ram, r.ram, va, Touched(first + 1, count - 1));
      TouchedFirst(first, count);
    }
  }

  // ---- the whole range ----

  lemma OutLater(before: Ram, cur: nat, after: Ram, cur': nat, p: Page)
    requires Grows(before, cur, after, cur') && Num(p) < cur && Unreachable(before, p)
    ensures Unreachable(after, p)
  {
    hide Translate, TableAt;
    forall q
      ensures TableAt(after, q) != Some(p)
    {
      assert TableAt(before, q) != Some(p);
    }
  }

  lemma OwnLater(m: Machine, r: Machine, va: Page, k: Kind, first: nat, count: nat)
    requires m.cur < PAGES && r.cur < PAGES && MapsTo(m, r, va, va, k) && Own(m.ram, first, count)
    requires first + count <= m.cur
    ensures Own(r.ram, first, count)
  {
    hide Translate, TableAt, OthersSpared, Advanced, MissingLevels, Num;
    forall p | InRange(p, first, count)
      ensures Unreachable(r.ram, p) && (Translate(r.ram, p).Some? ==> Translate(r.ram, p).value.frame == p)
    {
      assert Unreachable(m.ram, p);
      OutLater(m.ram, m.cur, r.ram, r.cur, p);
    }
  }

  lemma NotMappable(m: Machine, va: Page)
    requires !m.stuck && Inv(m.ram, m.cur) && m.cur + 4 <= HEAP_END && HEAP_BASE <= Num(va) < m.cur
    requires TableAt(m.ram, Window(va)) == None
    requires !(Placeable(m.ram, m.cur) && Window(va) != Window(PageOf(m.cur)))
    ensures Unmappable(m, va)
  {
  }

  lemma NotLater(x: Page, cur: nat, first: nat, count: nat)
    requires x == TMP3 || Num(x) == cur
    requires 0 < count && first + count <= cur
    ensures x == TMP3 || !InRange(x, first + 1, count - 1)
  {
  }

  lemma {:induction false} RangeFails(m: Machine, first: nat, count: nat, k: Kind, lo: nat, n: nat)
    returns (q: Path, x: Page)
    requires first + count <= m.cur && HEAP_BASE <= first && m.cur + 12 * count + 12 < PAGES
    requires !m.stuck && Inv(m.ram, m.cur) && !FirstGapFree(m.ram, m.cur, first, count)
    requires m.cur + 4 * |Gaps(m.ram, Touched(first, count))| <= HEAP_END
    requires HEAP_BASE + 7 <= lo && lo + n <= m.cur
    ensures var r := MapRange(m, first, count, k);
            || r.stuck
            || (&& Lame(r, q, x) && (Own(m.ram, lo, n) ==> Harmless(r, lo, n))
                && r.cur <= m.cur + 4 * |Gaps(m.ram, Touched(first, count))|)
    decreases count
  {
    hide Inv, MapPage, MapsTo, Num, PageOf, Gaps, TableAt, Grows, Placeable, Touched, Lame, Harmless, Affordable;
    hide Own, Unmappable;
    var va := PageOf(first);
    var m1 := MapPage(m, va, va, k);
    AllowedBelow(m.cur, first);
    assert Num(va) == first;
    if TableAt(m.ram, Window(va)).Some? {
      OnePage(m, first, count, k);
      CostOfPage(m, m1, va, va, k);
      SameGaps(m.ram, m.cur, m1.ram, first + 1, count - 1);
      q, x := RangeFails(m1, first + 1, count - 1, k, lo, n);
      if Own(m.ram, lo, n) {
        OwnLater(m, m1, va, k, lo, n);
      }
    } else {
      StepRoom(m, first, count);
      GapNeedsRoom(m, first, count);
      NotMappable(m, va);
      q, x := FirstFails(m, first, count, k, lo, n);
      if m1.stuck {
        StuckRange(m1, first + 1, count - 1, k);
      } else {
        LameBound(m1, q, x);
        NotLater(x, m.cur, first, count);
        LameRange(m1, first + 1, count - 1, k, lo, n, q, x);
      }
    }
  }

  lemma RangeAllowedBelow(cur: nat, first: nat, count: nat)
    requires first + count <= cur
    ensures RangeAllowed(cur, first, count)
  {
  }

  // Mapping allocated heap pages, with the MMU on or off, ends without a fault and with the invariant
  // intact exactly when the first gap is free.
  lemma HeapRangeExact(m: Machine, first: nat, count: nat, k: Kind)
    requires first + count <= m.cur && HEAP_BASE <= first && m.cur + 12 * count + 12 < PAGES
    requires !m.stuck && Inv(m.ram, m.cur)
    requires m.cur + 4 * |Gaps(m.ram, Touched(first, count))| <= HEAP_END
    ensures var r := MapRange(m, first, count, k);
            (!r.stuck && Inv(r.ram, r.cur)) <==> FirstGapFree(m.ram, m.cur, first, count)
  {
    hide Inv, FirstGapFree, Gaps, RangeMappable, Lame, Harmless, Own, MapRange;
    CurBounds(m);
    if FirstGapFree(m.ram, m.cur, first, count) {
      HeapMappable(m, first, count, k);
      RangeAllowedBelow(m.cur, first, count);
      RangeKeeps(m, first, count, k);
    } else {
      var q, x := RangeFails(m, first, count, k, HEAP_BASE + 7, 0);
      var r := MapRange(m, first, count, k);
      if !r.stuck {
        LameNotInv(r, q, x);
      }
    }
  }
}
