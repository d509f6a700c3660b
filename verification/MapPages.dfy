/** mmu_map_4kb: what one call does, and the condition under which it does it. */
module MapPages {
  import opened Wrappers
  import opened Words
  import opened PageTable
  import opened Machine
  import opened Handover
  import opened Alloc
  import opened Mapping4K

  // How many of the three tables on the way to va do not exist yet.
  function MissingLevels(ram: Ram, va: Page): (n: nat)
    ensures n <= 3
  {
    (if TableAt(ram, L1(va.i0)).Some? then 0 else 1)
    + (if TableAt(ram, L2(va.i0, va.i1)).Some? then 0 else 1)
    + (if TableAt(ram, Window(va)).Some? then 0 else 1)
  }

  // The condition under which a page can be mapped, given room in the heap: its level 3 table
  // exists, or the first block can be placed and does not itself go into the window of va.
  ghost predicate Mappable(ram: Ram, cur: nat, va: Page)
    requires cur < PAGES
  {
    TableAt(ram, Window(va)).Some? || (Placeable(ram, cur) && Window(va) != Window(PageOf(cur)))
  }

  predicate Room(ram: Ram, cur: nat, va: Page) {
    cur + 4 * MissingLevels(ram, va) <= HEAP_END
  }

  // Callers map device ranges, boot memory or pages they were given, never the unallocated heap.
  predicate Allowed(cur: nat, va: Page) {
    !(cur <= Num(va) < HEAP_END)
  }

  ghost predicate OnlyOwnPagesBut(before: Ram, cur: nat, after: Ram, cur': nat, va: Page) {
    forall v :: v != va && Translate(after, v) != Translate(before, v) ==> cur <= Num(v) < cur' && Mapped(after, v)
  }

  // A state between calls in which va may be mapped and the heap is large enough.
  ghost predicate MapReady(m: Machine, va: Page) {
    !m.stuck && Inv(m.ram, m.cur) && m.cur <= HEAP_END && Allowed(m.cur, va) && Room(m.ram, m.cur, va)
  }

  // What a successful call does, apart from the invariant.
  ghost predicate MapsTo(m: Machine, r: Machine, va: Page, pa: Page, k: Kind)
    requires m.cur < PAGES && r.cur < PAGES
  {
    && !r.stuck && r.on == m.on && r.astray == m.astray
    && m.cur <= r.cur <= m.cur + 4 * MissingLevels(m.ram, va) && (r.cur - m.cur) % 4 == 0
    // va is mapped as asked, unless it was mapped already: then its translation stays
    && Translate(r.ram, va) == (if Translate(m.ram, va).Some? then Translate(m.ram, va) else Some(Mapping(pa, Attr(k))))
    && TableAt(r.ram, Window(va)).Some?
    // earlier tables and translations stay
    && Grows(m.ram, m.cur, r.ram, r.cur)
    // nothing else is mapped, except the allocated table pages to themselves
    && OnlyOwnPagesBut(m.ram, m.cur, r.ram, r.cur, va)
    // pages outside the tree keep their contents
    && OthersSpared(m.ram, m.cur, r.ram, r.cur)
    && (r.cur == m.cur || Advanced(m.cur, r.ram, r.cur))
  }

  // The three table levels on the way to va.
  ghost predicate Walked(m: Machine, n: Machine, va: Page, l3: Page)
    requires m.cur < PAGES && n.cur < PAGES
  {
    && StepsTo(m, n) && TableAt(n.ram, Window(va)) == Some(l3)
    && m.cur <= n.cur <= m.cur + 4 * MissingLevels(m.ram, va) && (n.cur - m.cur) % 4 == 0
    && (n.cur == m.cur || Advanced(m.cur, n.ram, n.cur))
  }

  function Walk(m: Machine, va: Page): (r: (Machine, Page))
    requires m.cur + 12 <= PAGES
    ensures r.0.cur <= m.cur + 12
  {
    var (m1, l1) := Descend(m, ROOT, va.i0);
    var (m2, l2) := Descend(m1, l1, va.i1);
    Descend(m2, l2, va.i2)
  }

  lemma CurBounds(m: Machine)
    requires Inv(m.ram, m.cur)
    ensures HEAP_BASE + 7 <= m.cur <= HEAP_END
  {
  }

  // A slot whose table is missing can be filled as long as the block can be placed elsewhere.
  lemma CanFill(ram: Ram, cur: nat, p: Path, i: Index)
    requires !p.L3? && cur + 4 <= HEAP_END && Placeable(ram, cur)
    requires p.L2? ==> L3(p.a, p.b, i) != Window(PageOf(cur)) && Behind(cur, L3(p.a, p.b, i))
    ensures Fillable(ram, cur, p, i)
  {
  }

  lemma SettledPlaceable(ram: Ram, cur: nat)
    requires cur < PAGES && Settled(ram, cur)
    ensures Placeable(ram, cur)
  {
  }

  // A page that callers may map does not belong to a window of the unallocated heap.
  lemma AllowedBehind(cur: nat, cur': nat, va: Page)
    requires Allowed(cur, va) && cur <= cur'
    ensures Behind(cur', Window(va))
  {
  }

  // Outside the heap's gigabyte no window is shared with a heap page.
  lemma ElsewhereUnshared(cur: nat, va: Page)
    requires HEAP_BASE <= cur && cur + 4 <= HEAP_END && (va.i0 != 0 || va.i1 != 1)
    ensures Window(va) != Window(PageOf(cur))
  {
    BlockShape(cur);
  }

  // Parents of existing tables exist.
  lemma Ancestors(ram: Ram, va: Page)
    ensures TableAt(ram, Window(va)).Some? ==> TableAt(ram, L2(va.i0, va.i1)).Some?
    ensures TableAt(ram, L2(va.i0, va.i1)).Some? ==> TableAt(ram, L1(va.i0)).Some?
  {
  }

  // State n is reached from m on the way to va with the table at p found (or made).
  ghost predicate OnTheWay(m: Machine, n: Machine, p: Path, t: Page, allocs: nat)
    requires m.cur < PAGES && n.cur < PAGES
  {
    && StepsTo(m, n) && TableAt(n.ram, p) == Some(t)
    && n.cur == m.cur + 4 * allocs && if allocs == 0 then n == m else Advanced(m.cur, n.ram, n.cur)
  }

  lemma ExtendsGrows(before: Ram, cur: nat, after: Ram, cur': nat)
    requires Extends(before, cur, after, cur')
    ensures Grows(before, cur, after, cur')
  {
  }

  lemma NextLevel(m: Machine, n: Machine, p: Path, i: Index, t: Page, allocs: nat)
    requires !p.L3? && m.cur < PAGES && n.cur <= HEAP_END && Inv(n.ram, n.cur) && OnTheWay(m, n, p, t, allocs)
    requires TableAt(n.ram, Child(p, i)) == None ==> Fillable(n.ram, n.cur, p, i)
    ensures var (r, u) := Descend(n, t, i);
            OnTheWay(m, r, Child(p, i), u, allocs + if TableAt(n.ram, Child(p, i)).Some? then 0 else 1)
  {
    hide Inv, Extends, Settled, Placeable, Num, PageOf, Descend, Fillable;
    DescendKeeps(n, t, p, i);
    var (r, u) := Descend(n, t, i);
    ExtendsTrans(m.ram, m.cur, n.ram, n.cur, r.ram, r.cur);
    if allocs > 0 {
      ExtendsGrows(n.ram, n.cur, r.ram, r.cur);
      AdvancedGrows(m.cur, n.ram, n.cur, r.ram, r.cur);
    }
  }

  predicate Gap(ram: Ram, p: Path) { TableAt(ram, p) == None }

  lemma GapsShrink(before: Ram, cur: nat, after: Ram, cur': nat, p: Path)
    requires Grows(before, cur, after, cur') && Gap(after, p)
    ensures Gap(before, p)
  {
  }

  lemma HeapHasTables(ram: Ram, cur: nat, va: Page)
    requires Inv(ram, cur) && Gap(ram, L2(va.i0, va.i1))
    ensures va.i0 != 0 || va.i1 != 1
  {
  }

  lemma StepInv(m: Machine, n: Machine)
    requires StepsTo(m, n)
    ensures Grows(m.ram, m.cur, n.ram, n.cur) && Inv(n.ram, n.cur) && n.cur <= HEAP_END
  {
  }

  // The tables missing at n on the way to va were missing at m; if any block was allocated on the
  // way, then va does not lie in the heap's gigabyte.
  lemma StillMissing(m: Machine, n: Machine, va: Page, p: Path, t: Page, allocs: nat)
    requires Inv(m.ram, m.cur) && m.cur < PAGES && n.cur < PAGES && OnTheWay(m, n, p, t, allocs)
    ensures Gap(n.ram, L1(va.i0)) ==> Gap(m.ram, L1(va.i0))
    ensures Gap(n.ram, L2(va.i0, va.i1)) ==> Gap(m.ram, L2(va.i0, va.i1))
    ensures Gap(n.ram, Window(va)) ==> Gap(m.ram, Window(va))
    ensures Gap(m.ram, L1(va.i0)) ==> Gap(m.ram, L2(va.i0, va.i1))
    ensures Gap(m.ram, L2(va.i0, va.i1)) ==> Gap(m.ram, Window(va)) && (va.i0 != 0 || va.i1 != 1)
    ensures Inv(n.ram, n.cur) && n.cur <= HEAP_END
  {
    hide Inv, Grows, StepsTo, Advanced, TableAt;
    Ancestors(m.ram, va);
    StepInv(m, n);
    forall q | Gap(n.ram, q)
      ensures Gap(m.ram, q)
    {
      GapsShrink(m.ram, m.cur, n.ram, n.cur, q);
    }
    if Gap(m.ram, L2(va.i0, va.i1)) {
      HeapHasTables(m.ram, m.cur, va);
    }
  }

  // The condition of mmu_map_4kb is the condition of each of its levels.
  lemma CanFillNext(m: Machine, n: Machine, va: Page, p: Path, i: Index, t: Page, allocs: nat)
    requires m.cur < PAGES && Inv(m.ram, m.cur) && Mappable(m.ram, m.cur, va) && Gap(m.ram, Window(va))
    requires n.cur + 4 <= HEAP_END && OnTheWay(m, n, p, t, allocs)
    requires !p.L3? && (p.L2? ==> Child(p, i) == Window(va))
    requires allocs > 0 ==> va.i0 != 0 || va.i1 != 1
    requires m.cur <= n.cur && Allowed(m.cur, va)
    ensures Fillable(n.ram, n.cur, p, i)
  {
    hide Num, PageOf;
    if allocs > 0 {
      SettledPlaceable(n.ram, n.cur);
      ElsewhereUnshared(n.cur, va);
    }
    AllowedBehind(m.cur, n.cur, va);
    CanFill(n.ram, n.cur, p, i);
  }

  lemma StartWalk(m: Machine)
    requires !m.stuck && Inv(m.ram, m.cur)
    ensures OnTheWay(m, m, Root, ROOT, 0) && m.cur <= HEAP_END
  {
    ExtendsRefl(m.ram, m.cur);
  }

  lemma WalkKeeps(m: Machine, va: Page)
    requires !m.stuck && Inv(m.ram, m.cur) && Mappable(m.ram, m.cur, va) && Room(m.ram, m.cur, va)
    requires Allowed(m.cur, va)
    ensures var (n, l3) := Walk(m, va); Walked(m, n, va, l3)
  {
    hide Inv, Extends, Advanced, Placeable, Num, PageOf, Descend, TableAt, Fits, Unreachable, Mappable;
    hide StepsTo, Fillable;
    StartWalk(m);
    StillMissing(m, m, va, Root, ROOT, 0);
    if Gap(m.ram, L1(va.i0)) {
      CanFillNext(m, m, va, Root, va.i0, ROOT, 0);
    }
    NextLevel(m, m, Root, va.i0, ROOT, 0);
    var (m1, l1) := Descend(m, ROOT, va.i0);
    var a1 := if Gap(m.ram, L1(va.i0)) then 1 else 0;
    StillMissing(m, m1, va, L1(va.i0), l1, a1);
    if Gap(m1.ram, L2(va.i0, va.i1)) {
      CanFillNext(m, m1, va, L1(va.i0), va.i1, l1, a1);
    }
    NextLevel(m, m1, L1(va.i0), va.i1, l1, a1);
    var (m2, l2) := Descend(m1, l1, va.i1);
    var a2 := a1 + if Gap(m1.ram, L2(va.i0, va.i1)) then 1 else 0;
    StillMissing(m, m2, va, L2(va.i0, va.i1), l2, a2);
    if Gap(m2.ram, Window(va)) {
      CanFillNext(m, m2, va, L2(va.i0, va.i1), va.i2, l2, a2);
    }
    NextLevel(m, m2, L2(va.i0, va.i1), va.i2, l2, a2);
  }

  // ---- the leaf ----

  ghost predicate LeafSet(n: Ram, r: Ram, va: Page, l3: Page, w: Word) {
    && OnlyPage(n, r, l3) && PageAt(r, l3) == PageAt(n, l3)[va.i3 := w]
    && (forall q :: TableAt(r, q) == TableAt(n, q))
    && (forall v :: Translate(r, v) == if v == va then Leaf(w) else Translate(n, v))
  }

  lemma SetLeafEffect(n: Machine, va: Page, l3: Page, pa: Page, k: Kind)
    requires !n.stuck && Tree(n.ram) && TableAt(n.ram, Window(va)) == Some(l3) && Mapped(n.ram, l3)
    ensures var r := SetLeaf(n, l3, va.i3, pa, k);
            && !r.stuck && r.astray == n.astray
            && if Translate(n.ram, va).Some? then r == n else LeafSet(n.ram, r.ram, va, l3, Word(true, pa, Attr(k)))
  {
    LoadTable(n, Window(va), va.i3);
    assert Translate(n.ram, va) == Leaf(Get(n.ram, l3, va.i3));
    if Translate(n.ram, va) == None {
      LeafStep(n, va, Word(true, pa, Attr(k)), l3);
    }
  }

  lemma LeafTyped(n: Ram, r: Ram, va: Page, l3: Page, w: Word)
    requires AllTyped(n) && LeafSet(n, r, va, l3, w) && OnlyAt(n, l3, Window(va))
    requires w.attr == NORMAL || w.attr == DEVICE
    ensures AllTyped(r)
  {
    forall q, i: Index | TableAt(r, q).Some? && Get(r, TableAt(r, q).value, i).valid
      ensures Typed(q, Get(r, TableAt(r, q).value, i))
    {
      var t := TableAt(n, q).value;
      assert Get(r, t, i) == if t == l3 && i == va.i3 then w else Get(n, t, i);
    }
  }

  lemma LeafClean(n: Ram, r: Ram, cur: nat, va: Page, l3: Page, w: Word)
    requires HeapClean(n, cur) && LeafSet(n, r, va, l3, w) && Num(l3) < cur && Allowed(cur, va)
    ensures HeapClean(r, cur)
  {
  }

  lemma LeafGrows(n: Ram, r: Ram, cur: nat, va: Page, l3: Page, w: Word)
    requires LeafSet(n, r, va, l3, w) && Translate(n, va) == None
    ensures Grows(n, cur, r, cur)
  {
  }

  lemma LeafTree(n: Ram, r: Ram, va: Page, l3: Page, w: Word)
    requires Tree(n) && LeafSet(n, r, va, l3, w)
    ensures Tree(r)
  {
  }

  lemma LeafBare(n: Ram, r: Ram, cur: nat, va: Page, l3: Page, w: Word)
    requires Bare(n, cur) && LeafSet(n, r, va, l3, w)
    ensures Bare(r, cur)
  {
    hide TableAt, Translate;
  }

  lemma TreeOnly(ram: Ram, t: Page, p: Path)
    requires Tree(ram) && TableAt(ram, p) == Some(t)
    ensures OnlyAt(ram, t, p)
  {
  }

  lemma LeafInv(n: Ram, r: Ram, cur: nat, va: Page, l3: Page, w: Word)
    requires Inv(n, cur) && LeafSet(n, r, va, l3, w) && Translate(n, va) == None && Allowed(cur, va)
    requires TableAt(n, Window(va)) == Some(l3) && (w.attr == NORMAL || w.attr == DEVICE)
    ensures Inv(r, cur) && Grows(n, cur, r, cur)
  {
    hide LeafSet, AllTyped, HeapClean, Grows, Tree, Allowed, TempsApart, Num;
    assert OnlyAt(n, l3, Window(va)) by { TreeOnly(n, l3, Window(va)); }
    LeafTyped(n, r, va, l3, w);
    LeafClean(n, r, cur, va, l3, w);
    LeafGrows(n, r, cur, va, l3, w);
    LeafTree(n, r, va, l3, w);
    LeafBare(n, r, cur, va, l3, w);
    InvGrows(n, cur, r, cur);
  }

  lemma InvParts(ram: Ram, cur: nat, p: Path)
    requires Inv(ram, cur)
    ensures Tree(ram) && (TableAt(ram, p).Some? ==> Mapped(ram, TableAt(ram, p).value))
  {
  }

  // An allowed page is still allowed later, and has no translation unless it had one before.
  lemma AllowedLater(m: Machine, n: Machine, va: Page)
    requires StepsTo(m, n) && Allowed(m.cur, va)
    ensures Allowed(n.cur, va) && Translate(n.ram, va) == Translate(m.ram, va)
  {
  }

  lemma OwnPagesBut(before: Ram, cur: nat, after: Ram, cur': nat, va: Page)
    requires OnlyOwnPages(before, cur, after, cur')
    ensures OnlyOwnPagesBut(before, cur, after, cur', va)
  {
  }

  lemma KeptMapsTo(m: Machine, n: Machine, va: Page, l3: Page, pa: Page, k: Kind)
    requires m.cur < PAGES && n.cur < PAGES && Walked(m, n, va, l3)
    requires Translate(n.ram, va).Some? && Translate(m.ram, va) == Translate(n.ram, va)
    ensures MapsTo(m, n, va, pa, k)
  {
    hide Num, PageOf, Grows, OthersSpared, Translate, TableAt;
    OwnPagesBut(m.ram, m.cur, n.ram, n.cur, va);
  }

  lemma LeafOwnPages(before: Ram, cur: nat, n: Ram, cur': nat, r: Ram, va: Page, l3: Page, w: Word)
    requires OnlyOwnPages(before, cur, n, cur') && LeafSet(n, r, va, l3, w)
    ensures OnlyOwnPagesBut(before, cur, r, cur', va)
  {
    hide Num;
  }

  lemma LeafSpared(before: Ram, cur: nat, n: Ram, cur': nat, r: Ram, va: Page, l3: Page, w: Word)
    requires OthersSpared(before, cur, n, cur') && Grows(before, cur, n, cur') && LeafSet(n, r, va, l3, w)
    requires TableAt(n, Window(va)) == Some(l3)
    ensures OthersSpared(before, cur, r, cur')
  {
    hide Num;
  }

  lemma LeafHere(n: Machine, r: Machine, va: Page, l3: Page, w: Word)
    requires LeafSet(n.ram, r.ram, va, l3, w) && TableAt(n.ram, Window(va)) == Some(l3) && w.valid && n.cur < PAGES
    ensures Translate(r.ram, va) == Some(Mapping(w.frame, w.attr)) && TableAt(r.ram, Window(va)).Some?
    ensures forall c0: nat :: c0 < PAGES && Advanced(c0, n.ram, n.cur) ==> Advanced(c0, r.ram, n.cur)
  {
  }

  lemma LeafMapsTo(m: Machine, n: Machine, r: Machine, va: Page, l3: Page, pa: Page, k: Kind)
    requires m.cur < PAGES && n.cur < PAGES && Walked(m, n, va, l3)
        && Translate(m.ram, va) == Translate(n.ram, va) == None
    requires !r.stuck && r.on == n.on && r.astray == n.astray && r.cur == n.cur
    requires LeafSet(n.ram, r.ram, va, l3, Word(true, pa, Attr(k)))
    requires Grows(n.ram, n.cur, r.ram, n.cur)
    ensures MapsTo(m, r, va, pa, k)
  {
    hide Num, PageOf, Grows, OthersSpared, OnlyOwnPages, OnlyOwnPagesBut, Inv, Advanced, LeafSet, Translate, TableAt;
    GrowsTrans(m.ram, m.cur, n.ram, n.cur, r.ram, n.cur);
    LeafOwnPages(m.ram, m.cur, n.ram, n.cur, r.ram, va, l3, Word(true, pa, Attr(k)));
    LeafSpared(m.ram, m.cur, n.ram, n.cur, r.ram, va, l3, Word(true, pa, Attr(k)));
    LeafHere(n, r, va, l3, Word(true, pa, Attr(k)));
  }

  lemma MapKeeps(m: Machine, va: Page, pa: Page, k: Kind)
    requires !m.stuck && Inv(m.ram, m.cur) && Allowed(m.cur, va)
    requires Mappable(m.ram, m.cur, va) && Room(m.ram, m.cur, va)
    ensures var r := MapPage(m, va, pa, k); Inv(r.ram, r.cur) && MapsTo(m, r, va, pa, k)
  {
    hide Inv, Extends, Advanced, Placeable, Num, PageOf, Descend, Fits, Unreachable, Mappable, Grows, Mapped;
    hide LeafSet, Tree, SetLeaf;
    WalkKeeps(m, va);
    var (n, l3) := Walk(m, va);
    var r := MapPage(m, va, pa, k);
    assert r == SetLeaf(n, l3, va.i3, pa, k);
    InvParts(n.ram, n.cur, Window(va));
    SetLeafEffect(n, va, l3, pa, k);
    AllowedLater(m, n, va);
    if Translate(n.ram, va) == None {
      LeafInv(n.ram, r.ram, n.cur, va, l3, Word(true, pa, Attr(k)));
      LeafMapsTo(m, n, r, va, l3, pa, k);
    } else {
      KeptMapsTo(m, n, va, l3, pa, k);
    }
  }
}
