/**
  Allocating and mapping one block of table pages (map_page_for_pagetable) while the tree is live.
*/
module Handover {
  import opened Wrappers
  import opened Words
  import opened PageTable
  import opened Machine

  ghost predicate Mapped(ram: Ram, p: Page) {
    Translate(ram, p) == Some(Mapping(p, NORMAL))
  }

  // Every reachable table is mapped to itself and was handed out by the allocator (or linked at boot).
  ghost predicate Housed(ram: Ram, cur: nat) {
    forall q :: TableAt(ram, q).Some? ==>
      Mapped(ram, TableAt(ram, q).value) && HEAP_BASE <= Num(TableAt(ram, q).value) < cur
  }

  predicate Typed(q: Path, w: Word) {
    if q.L3? then w.attr == NORMAL || w.attr == DEVICE else w.attr == TABLE
  }

  // Descriptors are table words above level 3 and page words in level 3.
  ghost predicate AllTyped(ram: Ram) {
    forall q, i: Index :: TableAt(ram, q).Some? && Get(ram, TableAt(ram, q).value, i).valid ==>
                     Typed(q, Get(ram, TableAt(ram, q).value, i))
  }

  // The temporary tables are mapped, and never part of the tree.
  ghost predicate TempsApart(ram: Ram) {
    && Mapped(ram, TMP1) && Mapped(ram, TMP2) && Mapped(ram, TMP3)
    && Unreachable(ram, TMP1) && Unreachable(ram, TMP2) && Unreachable(ram, TMP3)
  }

  // The unallocated heap is zero and not mapped.
  ghost predicate HeapClean(ram: Ram, cur: nat) {
    forall p :: cur <= Num(p) < HEAP_END ==> Translate(ram, p) == None && PageAt(ram, p) == ZEROS
  }

  // Not a window of the heap that lies beyond the allocation pointer as a whole.
  predicate Behind(cur: nat, q: Path) {
    !(q.L3? && q.a == 0 && q.b == 1 && cur <= HEAP_BASE + 512 * q.c < HEAP_END)
  }

  // The windows that the allocation pointer has not reached have no tables.
  ghost predicate Bare(ram: Ram, cur: nat) {
    forall q :: TableAt(ram, q).Some? ==> Behind(cur, q)
  }

  // What holds between any two calls into the memory manager.
  ghost predicate Inv(ram: Ram, cur: nat) {
    && HEAP_BASE + 7 <= cur <= HEAP_END
    && Tree(ram) && Housed(ram, cur) && AllTyped(ram) && TempsApart(ram) && HeapClean(ram, cur)
    && Bare(ram, cur)
    && TableAt(ram, L2(0, 1)).Some?   // the heap's first two levels exist
  }

  lemma {:induction false} ZeroFromEffect(m: Machine, t: Page, i: nat)
    requires i <= 512 && !m.stuck && Resolve(m, t) == Some(t) && (!m.on || Unreachable(m.ram, t))
    requires forall j :: 0 <= j < i ==> PageAt(m.ram, t)[j] == ZERO
    ensures var r := ZeroFrom(m, t, i);
            !r.stuck && r.astray == m.astray && PageAt(r.ram, t) == ZEROS && OnlyPage(m.ram, r.ram, t)
    decreases 512 - i
  {
    if i == 512 {
      assert PageAt(m.ram, t) == ZEROS;
    } else {
      var n := Store(m, t, i, ZERO);
      if m.on {
        FrameEffect(m.ram, n.ram);
      }
      ZeroFromEffect(n, t, i + 1);
    }
  }

  lemma StuckStore(m: Machine, t: Page, i: Index, w: Word)
    requires m.stuck
    ensures Store(m, t, i, w) == m
  {
  }

  lemma {:induction false} StuckZero(m: Machine, t: Page, i: nat)
    requires m.stuck && i <= 512
    ensures ZeroFrom(m, t, i).stuck
    decreases 512 - i
  {
    if i < 512 {
      StuckZero(Store(m, t, i, ZERO), t, i + 1);
    }
  }

  lemma StuckZeroPage(m: Machine, t: Page)
    requires m.stuck
    ensures ZeroPage(m, t).stuck
  {
    StuckZero(m, t, 0);
  }

  lemma ZeroPageEffect(m: Machine, t: Page)
    requires !m.stuck && Resolve(m, t) == Some(t) && (!m.on || Unreachable(m.ram, t))
    ensures var r := ZeroPage(m, t);
            !r.stuck && r.astray == m.astray && PageAt(r.ram, t) == ZEROS && OnlyPage(m.ram, r.ram, t)
  {
    ZeroFromEffect(m, t, 0);
  }

  // The block fits in one 2 MB window.
  predicate Fits(cur: nat) { cur % 512 <= 508 }

  lemma BlockShape(cur: nat)
    requires HEAP_BASE <= cur && cur + 4 <= HEAP_END
    ensures var b := BlockAt(cur);
            b.table.i0 == 0 && b.table.i1 == 1 && b.table.i3 == cur % 512 && b.table.i2 == (cur - HEAP_BASE) / 512
    ensures Fits(cur) ==> var b := BlockAt(cur);
            && b.l1 == b.table.(i3 := b.table.i3 + 1)
            && b.l2 == b.table.(i3 := b.table.i3 + 2)
            && b.l3 == b.table.(i3 := b.table.i3 + 3)
  {
    var b := BlockAt(cur);
    if Fits(cur) {
      SameWindow(b.table, b.l1, 1);
      SameWindow(b.table, b.l2, 2);
      SameWindow(b.table, b.l3, 3);
    }
  }

  // The contents of a new level 3 table: it maps itself and the new page.
  function Filled(b: Block): Table {
    ZEROS[b.l3.i3 := Word(true, b.l3, NORMAL)][b.table.i3 := Word(true, b.table, NORMAL)]
  }

  // The state while the temporary level 3 table is linked in the heap's level 2 table l2, in the slot
  // of the new level 3 table's window, compared with the state m before.
  ghost predicate During(m: Machine, n: Machine, l2: Page, b: Block) {
    && !n.stuck && n.on == m.on && n.astray == m.astray
    && (forall q :: TableAt(n.ram, q) == if q == Window(b.l3) then Some(TMP3) else TableAt(m.ram, q))
    && (forall va :: Window(va) != Window(b.l3) ==> Translate(n.ram, va) == Translate(m.ram, va))
    && PageAt(n.ram, l2) == PageAt(m.ram, l2)[b.l3.i2 := Word(true, TMP3, TABLE)]
    && (forall q :: q != l2 && q != TMP3 && q != b.l3 ==> PageAt(n.ram, q) == PageAt(m.ram, q))
  }

  // The starting point of the hand-over: that slot of l2 is empty, and the new
  // level 3 table and the temporary ones are not in the tree ...
  ghost predicate Vacant(ram: Ram, l2: Page, b: Block) {
    && OnlyAt(ram, l2, L2(0, 1)) && !Get(ram, l2, b.l3.i2).valid
    && Window(b.l3) == Child(L2(0, 1), b.l3.i2)
    && b.l3.i3 != b.table.i3
    && Unreachable(ram, TMP1) && Unreachable(ram, TMP3) && Unreachable(ram, b.l3)
    && l2 != b.l3 && l2 != TMP1 && l2 != TMP3 && b.l3 != TMP3 && b.l3 != TMP1
  }

  // ... and the accesses that the procedure relies on translate to themselves.
  ghost predicate Ready(m: Machine, l2: Page, b: Block) {
    && !m.stuck && Vacant(m.ram, l2, b)
    && Window(l2) != Window(b.l3) && Window(TMP1) != Window(b.l3) && Window(TMP3) != Window(b.l3)
    && Resolve(m, l2) == Some(l2) && Resolve(m, TMP1) == Some(TMP1) && Resolve(m, TMP3) == Some(TMP3)
  }

  lemma LinkTemporary(m: Machine, l2: Page, b: Block)
    requires Ready(m, l2, b)
    ensures During(m, Store(m, l2, b.l3.i2, Word(true, TMP3, TABLE)), l2, b)
  {
    var n := Store(m, l2, b.l3.i2, Word(true, TMP3, TABLE));
    OneSlot(m.ram, n.ram, l2, L2(0, 1), b.l3.i2, Word(true, TMP3, TABLE));
    LinkEffect(m.ram, n.ram, L2(0, 1), b.l3.i2, TMP3);
  }

  // Stores into the temporary table and into the new level 3 table keep `During`.
  lemma StoreTemporary(m: Machine, n: Machine, l2: Page, b: Block)
    requires Ready(m, l2, b) && During(m, n, l2, b)
    ensures var r := Store(n, TMP3, b.l3.i3, Word(true, b.l3, NORMAL));
            During(m, r, l2, b) && Resolve(r, b.l3) == Some(b.l3)
  {
    var r := Store(n, TMP3, b.l3.i3, Word(true, b.l3, NORMAL));
    assert TableAt(n.ram, Window(b.l3)) == Some(TMP3);
    OneSlot(n.ram, r.ram, TMP3, Window(b.l3), b.l3.i3, Word(true, b.l3, NORMAL));
    LeafEffect(n.ram, r.ram, b.l3);
  }

  lemma FrameDuring(m: Machine, n: Machine, r: Machine, l2: Page, b: Block)
    requires Ready(m, l2, b) && During(m, n, l2, b) && Resolve(n, b.l3) == Some(b.l3)
    requires !r.stuck && r.on == n.on && r.astray == n.astray && OnlyPage(n.ram, r.ram, b.l3)
    ensures During(m, r, l2, b) && Resolve(r, b.l3) == Some(b.l3)
  {
    assert Unreachable(n.ram, b.l3);
    FrameEffect(n.ram, r.ram);
  }

  lemma ZeroDuring(m: Machine, n: Machine, l2: Page, b: Block)
    requires Ready(m, l2, b) && During(m, n, l2, b) && Resolve(n, b.l3) == Some(b.l3)
    ensures var r := ZeroPage(n, b.l3);
            During(m, r, l2, b) && Resolve(r, b.l3) == Some(b.l3) && PageAt(r.ram, b.l3) == ZEROS
  {
    assert Unreachable(n.ram, b.l3);
    ZeroPageEffect(n, b.l3);
    FrameDuring(m, n, ZeroPage(n, b.l3), l2, b);
  }

  lemma StoreDuring(m: Machine, n: Machine, l2: Page, b: Block, i: Index, w: Word)
    requires Ready(m, l2, b) && During(m, n, l2, b) && Resolve(n, b.l3) == Some(b.l3)
    ensures var r := Store(n, b.l3, i, w);
            During(m, r, l2, b) && Resolve(r, b.l3) == Some(b.l3) && PageAt(r.ram, b.l3) == PageAt(n.ram, b.l3)[i := w]
  {
    FrameDuring(m, n, Store(n, b.l3, i, w), l2, b);
  }

  // The hand-over: while the temporary table is linked, the new level 3 table is reachable through
  // it, so every access of the procedure translates to itself.
  lemma HandoverEffect(m: Machine, l2: Page, b: Block)
    requires Ready(m, l2, b)
    ensures var r := MapForTable(m, l2, b, 3);
            && During(m, r, l2, b) && Resolve(r, b.l3) == Some(b.l3)
            && PageAt(r.ram, b.l3) == Filled(b)
  {
    hide During, Store, Translate, TableAt;
    var m1 := Store(m, l2, b.l3.i2, Word(true, TMP3, TABLE));
    LinkTemporary(m, l2, b);
    var m2 := Store(m1, TMP3, b.l3.i3, Word(true, b.l3, NORMAL));
    StoreTemporary(m, m1, l2, b);
    var m3 := ZeroPage(m2, b.l3);
    ZeroDuring(m, m2, l2, b);
    var m4 := Store(m3, b.l3, b.l3.i3, Word(true, b.l3, NORMAL));
    StoreDuring(m, m3, l2, b, b.l3.i3, Word(true, b.l3, NORMAL));
    var m5 := Store(m4, b.l3, b.table.i3, Word(true, b.table, NORMAL));
    StoreDuring(m, m4, l2, b, b.table.i3, Word(true, b.table, NORMAL));
  }

  // The state after the first i stores of zero_out_page.
  function Zeroed(m: Machine, t: Page, i: nat): Machine
    requires i <= 512
  {
    if i == 0 then m else Store(Zeroed(m, t, i - 1), t, i - 1, ZERO)
  }

  lemma {:induction false} ZeroedThenRest(m: Machine, t: Page, i: nat)
    requires i <= 512
    ensures ZeroFrom(Zeroed(m, t, i), t, i) == ZeroPage(m, t)
  {
    hide Store;
    if i > 0 {
      ZeroedThenRest(m, t, i - 1);
    }
  }

  lemma {:induction false} ZeroedDuring(m: Machine, n: Machine, l2: Page, b: Block, i: nat)
    requires Ready(m, l2, b) && During(m, n, l2, b) && Resolve(n, b.l3) == Some(b.l3) && i <= 512
    ensures During(m, Zeroed(n, b.l3, i), l2, b) && Resolve(Zeroed(n, b.l3, i), b.l3) == Some(b.l3)
  {
    hide Store, During, Resolve, Ready;
    if i > 0 {
      ZeroedDuring(m, n, l2, b, i - 1);
      StoreDuring(m, Zeroed(n, b.l3, i - 1), l2, b, i - 1, ZERO);
    }
  }

  lemma TempDuring(m: Machine, n: Machine, l2: Page, b: Block)
    requires Ready(m, l2, b) && During(m, n, l2, b)
    ensures Resolve(n, TMP3) == Some(TMP3)
  {
  }

  lemma ZeroDone(m: Machine, t: Page)
    ensures ZeroFrom(m, t, 512) == m
  {
  }

  // Each single access of the hand-over, in the state in which it is made, goes to the page it names:
  // the read and the write of the parent slot, the write to the temporary table, the 512 writes that
  // clear the new level 3 table, and the two that fill it.
  lemma HandoverIdentity(m: Machine, l2: Page, b: Block)
    requires Ready(m, l2, b)
    ensures var m1 := Store(m, l2, b.l3.i2, Word(true, TMP3, TABLE));
            var m2 := Store(m1, TMP3, b.l3.i3, Word(true, b.l3, NORMAL));
            var m3 := Zeroed(m2, b.l3, 512);
            var m4 := Store(m3, b.l3, b.l3.i3, Word(true, b.l3, NORMAL));
            && Resolve(m, l2) == Some(l2) && Resolve(m1, TMP3) == Some(TMP3)
            && (forall i :: 0 <= i < 512 ==> Resolve(Zeroed(m2, b.l3, i), b.l3) == Some(b.l3))
            && Resolve(m3, b.l3) == Some(b.l3) && Resolve(m4, b.l3) == Some(b.l3)
            && MapForTable(m, l2, b, 3) == Store(m4, b.l3, b.table.i3, Word(true, b.table, NORMAL))
  {
    hide During, Store, Translate, TableAt, ZeroFrom, Zeroed;
    var m1 := Store(m, l2, b.l3.i2, Word(true, TMP3, TABLE));
    LinkTemporary(m, l2, b);
    TempDuring(m, m1, l2, b);
    var m2 := Store(m1, TMP3, b.l3.i3, Word(true, b.l3, NORMAL));
    StoreTemporary(m, m1, l2, b);
    forall i | 0 <= i <= 512
      ensures Resolve(Zeroed(m2, b.l3, i), b.l3) == Some(b.l3)
    {
      ZeroedDuring(m, m2, l2, b, i);
    }
    ZeroedThenRest(m2, b.l3, 512);
    ZeroDone(Zeroed(m2, b.l3, 512), b.l3);
    ZeroedDuring(m, m2, l2, b, 512);
    StoreDuring(m, Zeroed(m2, b.l3, 512), l2, b, b.l3.i3, Word(true, b.l3, NORMAL));
  }

  // Swapping the finished level 3 table in for the temporary one.
  lemma SwapIn(m: Machine, n: Machine, after: Ram, l2: Page, b: Block)
    requires Vacant(m.ram, l2, b) && During(m, n, l2, b) && Window(b.table) == Window(b.l3)
    requires OnlyPage(n.ram, after, l2)
    requires PageAt(after, l2) == PageAt(n.ram, l2)[b.table.i2 := Word(true, b.l3, TABLE)]
    ensures PageAt(after, l2) == PageAt(m.ram, l2)[b.table.i2 := Word(true, b.l3, TABLE)]
    ensures forall q :: TableAt(after, q) == if q == Window(b.table) then Some(b.l3) else TableAt(m.ram, q)
    ensures forall va :: Translate(after, va) ==
                         if Window(va) == Window(b.table) then Leaf(Get(after, b.l3, va.i3)) else Translate(m.ram, va)
  {
    var c := b.table.i2;
    forall q, j: Index | TableAt(m.ram, q).Some? && !(q == L2(0, 1) && j == c)
      ensures Get(after, TableAt(m.ram, q).value, j) == Get(m.ram, TableAt(m.ram, q).value, j)
    {
      var t := TableAt(m.ram, q).value;
      if t != l2 {
        assert PageAt(after, t) == PageAt(n.ram, t) == PageAt(m.ram, t);
      }
    }
    LinkEffect(m.ram, after, L2(0, 1), c, b.l3);
  }

  // What one successful map_page_for_pagetable changes.
  ghost predicate Allocated(before: Ram, after: Ram, b: Block) {
    var gap := TableAt(before, Window(b.table)) == None;
    && (forall q :: TableAt(after, q) == if gap && q == Window(b.table) then Some(b.l3) else TableAt(before, q))
    && (forall va :: Translate(after, va) ==
                     if va == b.table || (gap && va == b.l3) then Some(Mapping(va, NORMAL)) else Translate(before, va))
  }

  lemma FilledTranslations(before: Ram, after: Ram, l2: Page, b: Block)
    requires TableAt(before, L2(0, 1)) == Some(l2) && !Get(before, l2, b.table.i2).valid
    requires Window(b.l3) == Window(b.table) == L3(0, 1, b.table.i2) && b.l3.i3 != b.table.i3
    requires PageAt(after, b.l3) == Filled(b)
    requires forall va :: Translate(after, va) ==
                          if Window(va) == Window(b.table) then Leaf(Get(after, b.l3, va.i3)) else Translate(before, va)
    ensures forall va :: Translate(after, va) ==
                         if va == b.table || va == b.l3 then Some(Mapping(va, NORMAL)) else Translate(before, va)
    ensures TableAt(before, Window(b.table)) == None
  {
    forall va
      ensures Translate(after, va) ==
              if va == b.table || va == b.l3 then Some(Mapping(va, NORMAL)) else Translate(before, va)
    {
      if Window(va) == Window(b.table) {
        assert T3(before, va.i0, va.i1, va.i2) == None;
      }
    }
  }

  // Which pages the whole procedure rewrote when the window was missing.
  ghost predicate Replaced(before: Ram, after: Ram, l2: Page, b: Block) {
    && PageAt(after, l2) == PageAt(before, l2)[b.table.i2 := Word(true, b.l3, TABLE)]
    && PageAt(after, b.l3) == Filled(b)
    && (forall q :: q != l2 && q != TMP3 && q != TMP1 && q != b.l3 ==> PageAt(after, q) == PageAt(before, q))
  }

  lemma PagesReplaced(m: Machine, n: Machine, swapped: Ram, after: Ram, l2: Page, b: Block)
    requires Vacant(m.ram, l2, b) && During(m, n, l2, b) && Window(b.table) == Window(b.l3)
        && PageAt(n.ram, b.l3) == Filled(b)
    requires OnlyPage(n.ram, swapped, l2) && OnlyPage(swapped, after, TMP1)
    requires PageAt(swapped, l2) == PageAt(m.ram, l2)[b.table.i2 := Word(true, b.l3, TABLE)]
    ensures Replaced(m.ram, after, l2, b)
  {
  }

  // The swap that follows the hand-over.
  lemma SwapStore(m: Machine, n: Machine, l2: Page, b: Block)
    requires Ready(m, l2, b) && Window(b.table) == Window(b.l3) && During(m, n, l2, b)
    ensures var r := Store(n, l2, b.table.i2, Word(true, b.l3, TABLE));
            && !r.stuck && r.astray == m.astray && OnlyPage(n.ram, r.ram, l2)
            && PageAt(r.ram, l2) == PageAt(n.ram, l2)[b.table.i2 := Word(true, b.l3, TABLE)]
            && Resolve(r, TMP1) == Some(TMP1) && Unreachable(r.ram, TMP1)
  {
    assert Resolve(n, l2) == Some(l2);
    SwapIn(m, n, Store(n, l2, b.table.i2, Word(true, b.l3, TABLE)).ram, l2, b);
  }

  lemma AllocatedGap(before: Ram, after: Ram, b: Block)
    requires TableAt(before, Window(b.table)) == None
    requires forall q :: TableAt(after, q) == if q == Window(b.table) then Some(b.l3) else TableAt(before, q)
    requires forall va :: Translate(after, va) ==
                          if va == b.table || va == b.l3 then Some(Mapping(va, NORMAL)) else Translate(before, va)
    ensures Allocated(before, after, b)
  {
  }

  // The swap and the cleaning of the first temporary table.
  lemma SwapEffect(m: Machine, n: Machine, l2: Page, b: Block)
    requires Ready(m, l2, b) && Window(b.table) == Window(b.l3) && During(m, n, l2, b)
        && PageAt(n.ram, b.l3) == Filled(b)
    ensures var r := ZeroPage(Store(n, l2, b.table.i2, Word(true, b.l3, TABLE)), TMP1);
            && !r.stuck && r.astray == m.astray && Allocated(m.ram, r.ram, b) && Replaced(m.ram, r.ram, l2, b)
            && PageAt(r.ram, TMP1) == ZEROS
  {
    hide Store, Translate, TableAt, Allocated, Replaced, Resolve, During, ZeroPage, Filled;
    var n1 := Store(n, l2, b.table.i2, Word(true, b.l3, TABLE));
    SwapStore(m, n, l2, b);
    SwapIn(m, n, n1.ram, l2, b);
    ZeroPageEffect(n1, TMP1);
    var r := ZeroPage(n1, TMP1);
    PagesReplaced(m, n, n1.ram, r.ram, l2, b);
    FrameOnly(n1.ram, r.ram, TMP1);
    assert PageAt(r.ram, b.l3) == PageAt(n1.ram, b.l3) == Filled(b);
    FilledTranslations(m.ram, r.ram, l2, b);
    AllocatedGap(m.ram, r.ram, b);
  }

  // map_page_for_pagetable once the missing level 2 slot was found.
  lemma MissingEffect(m: Machine, l2: Page, b: Block)
    requires Ready(m, l2, b) && Window(b.table) == Window(b.l3)
    ensures var r := ZeroPage(Store(MapForTable(m, l2, b, 3), l2, b.table.i2, Word(true, b.l3, TABLE)), TMP1);
            && !r.stuck && r.astray == m.astray && Allocated(m.ram, r.ram, b) && Replaced(m.ram, r.ram, l2, b)
            && PageAt(r.ram, TMP1) == ZEROS
  {
    HandoverEffect(m, l2, b);
    SwapEffect(m, MapForTable(m, l2, b, 3), l2, b);
  }
}
