/**
  map_page_for_pagetable with the MMU on, when the level 1 or level 2 table of the block is missing.

  The new level 2 table is cleared through the live tree, but the temporary level 3 table, which is
  linked for its window, maps the new level 3 table only.
*/
module UpperLevels {
  import opened Wrappers
  import opened Words
  import opened PageTable
  import opened Machine
  import opened Handover
  import opened Alloc
  import opened Mapping4K
  import opened FlatMemory

  // The new tables and the temporary ones are apart, and the temporary ones are mapped.
  ghost predicate LiveReady(m: Machine, b: Block) {
    && m.on && !m.stuck && Together(b) && !IsTemp(b.l1) && !IsTemp(b.l2) && !IsTemp(b.l3)
    && Unreachable(m.ram, TMP2) && Unreachable(m.ram, TMP3) && Unreachable(m.ram, b.l3)
    && Mapped(m.ram, TMP1) && Mapped(m.ram, TMP2) && Mapped(m.ram, TMP3)
    && PageAt(m.ram, TMP2) == ZEROS
  }

  // What an earlier call has left in the third temporary table for the new level 2 table, if anything.
  function Stale(ram: Ram, b: Block): Option<Mapping> { Leaf(Get(ram, TMP3, b.l2.i3)) }

  lemma ZeroFaults(m: Machine, t: Page)
    requires m.on && Translate(m.ram, t) == None
    ensures ZeroPage(m, t).stuck
  {
    StuckZero(Store(m, t, 0, ZERO), t, 1);
  }

  // While the temporary level 3 table is linked, its window translates through it.
  ghost predicate ThroughTemp(m: Machine, t: Page, b: Block, o: Option<Mapping>) {
    && m.on && !m.stuck && Unreachable(m.ram, b.l3) && Mapped(m.ram, b.l3) && Translate(m.ram, b.l2) == o
    && TableAt(m.ram, L1(b.table.i0)) == Some(t) && TableAt(m.ram, L2(b.table.i0, b.table.i1)) == Some(TMP2)
    && TableAt(m.ram, Window(b.table)) == Some(TMP3)
  }

  lemma FrameThrough(m: Machine, r: Machine, t: Page, b: Block, o: Option<Mapping>)
    requires ThroughTemp(m, t, b, o) && r.on && !r.stuck && OnlyPage(m.ram, r.ram, b.l3)
    ensures ThroughTemp(r, t, b, o)
  {
    FrameOnly(m.ram, r.ram, b.l3);
  }

  lemma StoreThrough(m: Machine, t: Page, b: Block, o: Option<Mapping>, i: Index, w: Word)
    requires ThroughTemp(m, t, b, o)
    ensures ThroughTemp(Store(m, b.l3, i, w), t, b, o) && OnlyPage(m.ram, Store(m, b.l3, i, w).ram, b.l3)
  {
    FrameThrough(m, Store(m, b.l3, i, w), t, b, o);
  }

  lemma ZeroThrough(m: Machine, t: Page, b: Block, o: Option<Mapping>)
    requires ThroughTemp(m, t, b, o)
    ensures ThroughTemp(ZeroPage(m, b.l3), t, b, o) && OnlyPage(m.ram, ZeroPage(m, b.l3).ram, b.l3)
  {
    ZeroPageEffect(m, b.l3);
    FrameThrough(m, ZeroPage(m, b.l3), t, b, o);
  }

  // ---- a page that translates to another one ----

  // p translates to f, and f is none of the tables on the way to p.
  ghost predicate Elsewhere(m: Machine, p: Page, f: Page) {
    && m.on && !m.stuck && Translate(m.ram, p).Some? && Translate(m.ram, p).value.frame == f && f != ROOT
    && TableAt(m.ram, L1(p.i0)) != Some(f) && TableAt(m.ram, L2(p.i0, p.i1)) != Some(f)
    && TableAt(m.ram, Window(p)) != Some(f)
  }

  lemma StoreElsewhere(m: Machine, p: Page, f: Page, i: Index, w: Word)
    requires Elsewhere(m, p, f)
    ensures var r := Store(m, p, i, w);
            Elsewhere(r, p, f) && OnlyPage(m.ram, r.ram, f) && PageAt(r.ram, f) == PageAt(m.ram, f)[i := w]
  {
  }

  lemma {:induction false} ZeroElsewhere(m: Machine, p: Page, f: Page, i: nat)
    requires Elsewhere(m, p, f) && i <= 512 && forall j :: 0 <= j < i ==> PageAt(m.ram, f)[j] == ZERO
    ensures var r := ZeroFrom(m, p, i);
            Elsewhere(r, p, f) && OnlyPage(m.ram, r.ram, f) && PageAt(r.ram, f) == ZEROS
    decreases 512 - i
  {
    hide Elsewhere;
    if i == 512 {
      assert PageAt(m.ram, f) == ZEROS;
    } else {
      StoreElsewhere(m, p, f, i, ZERO);
      ZeroElsewhere(Store(m, p, i, ZERO), p, f, i + 1);
    }
  }

  // ---- a page that translates to one of the tables on the way to it ----

  // p translates to f, which holds the word with index j on the way to p.
  ghost predicate Undermines(m: Machine, p: Page, f: Page, j: Index) {
    && m.on && !m.stuck && Translate(m.ram, p).Some? && Translate(m.ram, p).value.frame == f
    && ((f == ROOT && j == p.i0)
        || (TableAt(m.ram, L1(p.i0)) == Some(f) && j == p.i1)
        || (TableAt(m.ram, L2(p.i0, p.i1)) == Some(f) && j == p.i2)
        || (TableAt(m.ram, Window(p)) == Some(f) && j == p.i3))
  }

  lemma WalkThere(ram: Ram, p: Page)
    requires Translate(ram, p).Some?
    ensures Get(ram, ROOT, p.i0).valid && TableAt(ram, L1(p.i0)).Some?
    ensures TableAt(ram, L2(p.i0, p.i1)).Some? && TableAt(ram, Window(p)).Some?
    ensures Get(ram, TableAt(ram, L1(p.i0)).value, p.i1).valid
    ensures Get(ram, TableAt(ram, L2(p.i0, p.i1)).value, p.i2).valid
    ensures Get(ram, TableAt(ram, Window(p)).value, p.i3).valid
  {
  }

  // Clearing that word ends the translation; clearing another one may end it as well.
  lemma StoreUndermines(m: Machine, p: Page, f: Page, j: Index, i: Index)
    requires Undermines(m, p, f, j)
    ensures var r := Store(m, p, i, ZERO);
            && r.on && !r.stuck
            && (Translate(r.ram, p) == None || (i != j && Undermines(r, p, f, j)))
  {
    var r := Store(m, p, i, ZERO);
    ZeroShrinks(m.ram, r.ram, f, i);
    if Translate(r.ram, p).Some? {
      WalkThere(m.ram, p);
      WalkThere(r.ram, p);
    }
  }

  lemma ZeroUnmapped(m: Machine, p: Page, i: nat)
    requires m.on && Translate(m.ram, p) == None && i <= 512
    ensures var r := ZeroFrom(m, p, i); r.on && (r.stuck || Translate(r.ram, p) == None)
  {
    hide Translate;
    if i < 512 {
      StuckZero(Store(m, p, i, ZERO), p, i + 1);
    }
  }

  lemma {:induction false} ZeroUndermines(m: Machine, p: Page, f: Page, j: Index, i: nat)
    requires Undermines(m, p, f, j) && i <= j
    ensures var r := ZeroFrom(m, p, i); r.on && (r.stuck || Translate(r.ram, p) == None)
    decreases 512 - i
  {
    hide Undermines, Translate;
    var n := Store(m, p, i, ZERO);
    StoreUndermines(m, p, f, j, i);
    if Translate(n.ram, p) == None {
      ZeroUnmapped(n, p, i + 1);
    } else {
      ZeroUndermines(n, p, f, j, i + 1);
    }
  }

  // ---- level 2 of the recursion ----

  lemma NotInGap(ram: Ram, b: Block, p: Page)
    requires Gap2(ram, b) && Mapped(ram, p)
    ensures Window(p) != Window(b.table)
  {
    Gaps(ram, b);
  }

  lemma SlotOf(ram: Ram, t: Page, p: Path, i: Index)
    requires !p.L3? && TableAt(ram, p) == Some(t)
    ensures TableAt(ram, Child(p, i)) == if Get(ram, t, i).valid then Some(Get(ram, t, i).frame) else None
  {
    assert TableAt(ram, Child(p, i)) == Follow(ram, Some(t), i);
  }

  // The temporary level 2 table is linked, and then the level 3 one below it.
  lemma LinkTemps(m: Machine, t: Page, b: Block)
    requires LiveReady(m, b) && Gap2(m.ram, b) && OnlyAt(m.ram, t, L1(b.table.i0)) && Mapped(m.ram, t)
    ensures var m1 := Store(m, t, b.l3.i1, Word(true, TMP2, TABLE));
            var m2 := Store(m1, TMP2, b.l3.i2, Word(true, TMP3, TABLE));
            && Load(m, t, b.l3.i1) == (m, Get(m.ram, t, b.l3.i1)) && !Get(m.ram, t, b.l3.i1).valid
            && Load(m1, TMP2, b.l3.i2) == (m1, ZERO)
            && !m2.stuck && m2.on && OnlyAt(m2.ram, TMP3, Window(b.table)) && Mapped(m2.ram, TMP3)
            && Unreachable(m2.ram, b.l3) && PageAt(m2.ram, TMP3) == PageAt(m.ram, TMP3)
            && TableAt(m2.ram, L1(b.table.i0)) == Some(t) && TableAt(m2.ram, L2(b.table.i0, b.table.i1)) == Some(TMP2)
            && (b.l2 != t ==> PageAt(m2.ram, b.l2) == PageAt(m.ram, b.l2))
  {
    hide TableAt, Translate;
    var p := L1(b.table.i0);
    var m1 := Store(m, t, b.l3.i1, Word(true, TMP2, TABLE));
    assert !Get(m.ram, t, b.l3.i1).valid by { SlotOf(m.ram, t, p, b.table.i1); }
    LinkEmpty(m.ram, m1.ram, t, p, b.table.i1, TMP2);
    var m2 := Store(m1, TMP2, b.l3.i2, Word(true, TMP3, TABLE));
    var q := L2(b.table.i0, b.table.i1);
    assert TableAt(m1.ram, Child(q, b.table.i2)) == None by { Gaps(m.ram, b); }
    assert OnlyAt(m1.ram, TMP2, q);
    OneSlot(m1.ram, m2.ram, TMP2, q, b.table.i2, Word(true, TMP3, TABLE));
    LinkEffect(m1.ram, m2.ram, q, b.table.i2, TMP3);
    assert Window(TMP3) != Window(b.table) by { NotInGap(m.ram, b, TMP3); }
  }

  lemma LeafAt(ram: Ram, t: Page, va: Page)
    requires TableAt(ram, Window(va)) == Some(t)
    ensures Translate(ram, va) == Leaf(Get(ram, t, va.i3))
  {
  }

  lemma EnterTemp(m: Machine, m2: Machine, t: Page, b: Block)
    requires Together(b) && PageAt(m2.ram, TMP3) == PageAt(m.ram, TMP3) && b.l2 != TMP3
    requires !m2.stuck && m2.on && OnlyAt(m2.ram, TMP3, Window(b.table)) && Mapped(m2.ram, TMP3)
    requires Unreachable(m2.ram, b.l3)
    requires TableAt(m2.ram, L1(b.table.i0)) == Some(t) && TableAt(m2.ram, L2(b.table.i0, b.table.i1)) == Some(TMP2)
    ensures var r := Store(m2, TMP3, b.l3.i3, Word(true, b.l3, NORMAL));
            ThroughTemp(r, t, b, Stale(m.ram, b)) && PageAt(r.ram, b.l2) == PageAt(m2.ram, b.l2)
  {
    hide Translate;
    LeafStep(m2, b.l3, Word(true, b.l3, NORMAL), TMP3);
    LeafAt(m2.ram, TMP3, b.l2);
  }

  // Up to the clearing of the new level 2 table, all accesses go where they should.
  lemma UntilLevel2(m: Machine, t: Page, b: Block) returns (m7: Machine)
    requires LiveReady(m, b) && Gap2(m.ram, b) && OnlyAt(m.ram, t, L1(b.table.i0)) && Mapped(m.ram, t)
    ensures ThroughTemp(m7, t, b, Stale(m.ram, b)) && (b.l2 != t ==> PageAt(m7.ram, b.l2) == PageAt(m.ram, b.l2))
    ensures MapForTable(m, t, b, 2) == Store(ZeroPage(m7, b.l2), b.l2, b.l3.i2, Word(true, b.l3, TABLE))
  {
    hide Store, ZeroPage, TableAt, Translate, Resolve, ThroughTemp;
    var o := Stale(m.ram, b);
    LinkTemps(m, t, b);
    var m1 := Store(m, t, b.l3.i1, Word(true, TMP2, TABLE));
    var m2 := Store(m1, TMP2, b.l3.i2, Word(true, TMP3, TABLE));
    var m3 := Store(m2, TMP3, b.l3.i3, Word(true, b.l3, NORMAL));
    EnterTemp(m, m2, t, b);
    ZeroThrough(m3, t, b, o);
    var m4 := ZeroPage(m3, b.l3);
    StoreThrough(m4, t, b, o, b.l3.i3, Word(true, b.l3, NORMAL));
    var m5 := Store(m4, b.l3, b.l3.i3, Word(true, b.l3, NORMAL));
    StoreThrough(m5, t, b, o, b.table.i3, Word(true, b.table, NORMAL));
    var m6 := Store(m5, b.l3, b.table.i3, Word(true, b.table, NORMAL));
    StoreThrough(m6, t, b, o, b.l2.i3, Word(true, b.l2, NORMAL));
    m7 := Store(m6, b.l3, b.l2.i3, Word(true, b.l2, NORMAL));
  }

  lemma Level2Undermined(m: Machine, t: Page, b: Block, o: Option<Mapping>, f: Page)
    requires ThroughTemp(m, t, b, o) && o.Some? && o.value.frame == f && f in {ROOT, t, TMP2, TMP3}
    requires Window(b.l2) == Window(b.table)
    ensures Store(ZeroPage(m, b.l2), b.l2, b.l3.i2, Word(true, b.l3, TABLE)).stuck
  {
    hide TableAt, Translate;
    var p := b.l2;
    var j := if f == ROOT then p.i0 else if f == t then p.i1 else if f == TMP2 then p.i2 else p.i3;
    ZeroUndermines(m, p, f, j, 0);
  }

  lemma BlockTogether(m: Machine, b: Block)
    requires LiveReady(m, b)
    ensures Together(b)
  {
  }

  // The new level 2 table cannot be written at all, unless the third temporary table still holds an
  // old entry in its place, for a page that is not itself on the way.  Then the contents of the new
  // table are written to that page, whatever it holds by now, and the new table stays as it was.
  lemma Level2Exact(m: Machine, t: Page, b: Block)
    requires LiveReady(m, b) && Gap2(m.ram, b) && OnlyAt(m.ram, t, L1(b.table.i0)) && Mapped(m.ram, t)
    ensures var r := MapForTable(m, t, b, 2);
            var o := Stale(m.ram, b);
            && (r.stuck <==> o == None || o.value.frame in {ROOT, t, TMP2, TMP3})
            && (!r.stuck ==>
                var f := o.value.frame;
                && PageAt(r.ram, f) == NewL2(b)
                && (b.l2 != t && b.l2 != f ==> PageAt(r.ram, b.l2) == PageAt(m.ram, b.l2)))
  {
    hide MapForTable, Store, TableAt, Translate, LiveReady;
    var m7 := UntilLevel2(m, t, b);
    var o := Stale(m.ram, b);
    if o == None {
      ZeroFaults(m7, b.l2);
      StuckStore(ZeroPage(m7, b.l2), b.l2, b.l3.i2, Word(true, b.l3, TABLE));
    } else {
      var f := o.value.frame;
      assert Together(b) by { BlockTogether(m, b); }
      assert Window(b.l2) == Window(b.table);
      if f in {ROOT, t, TMP2, TMP3} {
        Level2Undermined(m7, t, b, o, f);
      } else {
        ZeroElsewhere(m7, b.l2, f, 0);
        StoreElsewhere(ZeroPage(m7, b.l2), b.l2, f, b.l3.i2, Word(true, b.l3, TABLE));
      }
    }
  }

  lemma Level1Rest(m: Machine, m1: Machine, b: Block)
    requires !m.stuck && Mapped(m.ram, ROOT) && !Get(m.ram, ROOT, b.l3.i0).valid
    requires m1 == Store(m, ROOT, b.l3.i0, Word(true, TMP1, TABLE)) && MapForTable(m1, TMP1, b, 2).stuck
    ensures MapForTable(m, ROOT, b, 1).stuck
  {
    var m2 := MapForTable(m1, TMP1, b, 2);
    StuckZeroPage(m2, b.l1);
  }

  lemma Level1Faults(m: Machine, b: Block)
    requires LiveReady(m, b) && Stale(m.ram, b) == None
    requires Gap1(m.ram, b) && OnlyAt(m.ram, ROOT, Root) && Mapped(m.ram, ROOT)
    requires Unreachable(m.ram, TMP1) && PageAt(m.ram, TMP1) == ZEROS
    ensures MapForTable(m, ROOT, b, 1).stuck
  {
    hide MapForTable, TableAt, Translate;
    var m1 := Store(m, ROOT, b.l3.i0, Word(true, TMP1, TABLE));
    assert !Get(m.ram, ROOT, b.l3.i0).valid by { SlotOf(m.ram, ROOT, Root, b.table.i0); }
    LinkEmpty(m.ram, m1.ram, ROOT, Root, b.table.i0, TMP1);
    Gaps(m.ram, b);
    Level2Exact(m1, TMP1, b);
    Level1Rest(m, m1, b);
  }

  lemma RootThere(ram: Ram)
    ensures TableAt(ram, Root) == Some(ROOT)
  {
  }

  lemma Cleared(m: Machine)
    requires m.stuck
    ensures ZeroPage(ZeroPage(m, TMP1), TMP2).stuck && ZeroPage(ZeroPage(ZeroPage(m, TMP1), TMP2), TMP3).stuck
  {
    StuckZeroPage(m, TMP1);
    StuckZeroPage(ZeroPage(m, TMP1), TMP2);
    StuckZeroPage(ZeroPage(ZeroPage(m, TMP1), TMP2), TMP3);
  }

  // With the MMU on and no such old entry, a block whose level 1 or level 2 table is missing cannot
  // be allocated: the procedure faults when it clears the new level 2 table.
  lemma UpperLevelsFault(m: Machine)
    requires m.cur + 4 <= PAGES && LiveReady(m, BlockAt(m.cur)) && Tree(m.ram) && Stale(m.ram, BlockAt(m.cur)) == None
    requires Unreachable(m.ram, TMP1) && PageAt(m.ram, TMP1) == ZEROS
    requires Gap2(m.ram, BlockAt(m.cur))
    requires forall q :: TableAt(m.ram, q).Some? ==> Mapped(m.ram, TableAt(m.ram, q).value)
    ensures AllocTable(m).stuck
  {
    hide MapForTable, BlockAt, Store, ZeroPage, TableAt, Translate;
    var b := BlockAt(m.cur);
    var n := m.(cur := m.cur + 4);
    var l1 := Get(m.ram, ROOT, b.table.i0).frame;
    assert TableAt(n.ram, Root) == Some(ROOT) by { RootThere(n.ram); }
    LoadTable(n, Root, b.table.i0);
    SlotOf(n.ram, ROOT, Root, b.table.i0);
    if Gap1(m.ram, b) {
      Level1Faults(n, b);
      var m1 := MapForTable(n, ROOT, b, 1);
      StuckStore(m1, ROOT, b.table.i0, Word(true, b.l1, TABLE));
      Cleared(m1);
    } else {
      LoadTable(n, L1(b.table.i0), b.table.i1);
      SlotOf(n.ram, l1, L1(b.table.i0), b.table.i1);
      Level2Exact(n, l1, b);
      var m1 := MapForTable(n, l1, b, 2);
      StuckStore(m1, l1, b.table.i1, Word(true, b.l2, TABLE));
      Cleared(m1);
    }
  }
}
