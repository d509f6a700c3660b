/**
  With the MMU off no access faults, so init_mmu goes on after a page of the kernel could not be mapped.
  Mapping a page outside the heap's gigabyte does not repair the tree either.
*/
module Wounds {
  import opened Wrappers
  import opened Words
  import opened PageTable
  import opened Machine
  import opened Handover
  import opened Alloc
  import opened MapPages
  import opened Exactness
  import opened UpperExactness
  import opened Spoiled

  // The rotten table x in slot c of the heap's level 2 table, and the tables above it.
  datatype Spot = Spot(l1: Page, l2: Page, c: Index, x: Page)

  predicate Above(z: Spot, t: Page) { t == ROOT || t == z.l1 || t == z.l2 }

  // The words that make the table rotten.
  predicate Vital(z: Spot, t: Page, i: Index) {
    || (t == ROOT && i == 0) || (t == z.l1 && i == 1) || (t == z.l2 && i == z.c)
    || (z.x != TMP3 && t == z.x && i == z.x.i3)
  }

  predicate InHeap(cur: nat, p: Page) { cur <= Num(p) < HEAP_END }

  // Words that may be written to the heap's level 2 table.
  predicate Harmless2(cur: nat, z: Spot, w: Word) {
    w.valid ==> !Above(z, w.frame) && !InHeap(cur, w.frame) && (z.x != TMP3 ==> w.frame != z.x)
  }

  predicate Apart(cur: nat, z: Spot) {
    && z.l1 != ROOT && z.l2 != ROOT && z.l1 != z.l2 && !Above(z, z.x) && z.x != TMP1
    && !Above(z, TMP1) && !Above(z, TMP3)
    && !InHeap(cur, z.l1) && !InHeap(cur, z.l2) && !InHeap(cur, z.x)
    && HEAP_BASE + 7 <= cur <= HEAP_END
    && (z.x == TMP3 || (z.x.i0 == 0 && z.x.i1 == 1 && z.x.i2 == z.c && HEAP_BASE <= Num(z.x) < cur))
  }

  ghost predicate Wound(m: Machine, z: Spot) {
    && !m.on && !m.stuck && Apart(m.cur, z)
    && Get(m.ram, ROOT, 0).valid && Get(m.ram, ROOT, 0).frame == z.l1
    && Get(m.ram, z.l1, 1).valid && Get(m.ram, z.l1, 1).frame == z.l2
    && Get(m.ram, z.l2, z.c).valid && Get(m.ram, z.l2, z.c).frame == z.x
    && (z.x == TMP3 || !Get(m.ram, z.x, z.x.i3).valid)
    && (forall j: Index :: Get(m.ram, z.l2, j).valid ==>
                      && !Above(z, Get(m.ram, z.l2, j).frame) && !InHeap(m.cur, Get(m.ram, z.l2, j).frame)
                      && (z.x != TMP3 && j != z.c ==> Get(m.ram, z.l2, j).frame != z.x))
    && (forall p :: InHeap(m.cur, p) ==> PageAt(m.ram, p) == ZEROS)
  }

  lemma WoundNotInv(m: Machine, z: Spot)
    requires Wound(m, z)
    ensures !Inv(m.ram, m.cur)
  {
    RottenNotInv(m, L3(0, 1, z.c), z.x);
  }

  lemma TempNum()
    ensures Num(TMP3) == HEAP_BASE + 6
  {
  }

  lemma LameApart(m: Machine, q: Path, x: Page, z: Spot)
    requires Lame(m, q, x) && TableAt(m.ram, L1(0)) == Some(z.l1) && TableAt(m.ram, L2(0, 1)) == Some(z.l2)
    requires z.c == q.c && z.x == x && TableAt(m.ram, Root) == Some(ROOT)
    ensures Apart(m.cur, z)
  {
    hide TableAt, Translate, Num;
    assert TableAt(m.ram, q) == Some(x);
    assert Unreachable(m.ram, TMP1);
    assert x == TMP3 || Unreachable(m.ram, TMP3);
    TempNum();
  }

  lemma SlotAt(ram: Ram, l2: Page, q: Path)
    requires q.L3? && q.a == 0 && q.b == 1 && TableAt(ram, L2(0, 1)) == Some(l2) && TableAt(ram, q).Some?
    ensures Get(ram, l2, q.c).valid && TableAt(ram, q) == Some(Get(ram, l2, q.c).frame)
  {
  }

  lemma LameWound(m: Machine, q: Path, x: Page) returns (z: Spot)
    requires Lame(m, q, x) && !m.on
    ensures Wound(m, z) && TableAt(m.ram, L1(0)) == Some(z.l1) && TableAt(m.ram, L2(0, 1)) == Some(z.l2)
    ensures TableAt(m.ram, q) == Some(z.x) && z.x == x
  {
    HeapPath(m);
    z := Spot(TableAt(m.ram, L1(0)).value, TableAt(m.ram, L2(0, 1)).value, q.c, x);
    RootTable(m.ram);
    LameApart(m, q, x, z);
    forall j: Index | Get(m.ram, z.l2, j).valid
      ensures !Above(z, Get(m.ram, z.l2, j).frame) && !InHeap(m.cur, Get(m.ram, z.l2, j).frame)
      ensures z.x != TMP3 && j != z.c ==> Get(m.ram, z.l2, j).frame != z.x
    {
      assert TableAt(m.ram, L3(0, 1, j)) == Some(Get(m.ram, z.l2, j).frame);
    }
    SlotAt(m.ram, z.l2, q);
    if x != TMP3 {
      assert Translate(m.ram, x) == Leaf(Get(m.ram, x, x.i3));
    }
  }

  // ---- writes ----

  lemma WoundStore(m: Machine, z: Spot, t: Page, i: Index, w: Word)
    requires Wound(m, z) && !Vital(z, t, i) && !InHeap(m.cur, t) && (t == z.l2 ==> Harmless2(m.cur, z, w))
    ensures var r := Store(m, t, i, w);
            Wound(r, z) && OnlyPage(m.ram, r.ram, t) && PageAt(r.ram, t) == PageAt(m.ram, t)[i := w]
  {
    hide Num;
    var r := Store(m, t, i, w);
    assert Get(r.ram, ROOT, 0) == Get(m.ram, ROOT, 0);
    assert Get(r.ram, z.l1, 1) == Get(m.ram, z.l1, 1);
    assert Get(r.ram, z.l2, z.c) == Get(m.ram, z.l2, z.c);
    assert (z.x == TMP3 || !Get(r.ram, z.x, z.x.i3).valid);
    assert forall p :: InHeap(r.cur, p) ==> PageAt(r.ram, p) == ZEROS;
    forall j: Index | Get(r.ram, z.l2, j).valid
      ensures !Above(z, Get(r.ram, z.l2, j).frame) && !InHeap(m.cur, Get(r.ram, z.l2, j).frame)
      ensures z.x != TMP3 && j != z.c ==> Get(r.ram, z.l2, j).frame != z.x
    {
      assert Get(r.ram, z.l2, j) == if t == z.l2 && j == i then w else Get(m.ram, z.l2, j);
    }
  }

  lemma WoundZero(m: Machine, z: Spot, t: Page)
    requires Wound(m, z) && !Above(z, t)
    ensures var r := ZeroPage(m, t); Wound(r, z) && OnlyPage(m.ram, r.ram, t) && PageAt(r.ram, t) == ZEROS
  {
    hide Num, ZeroPage;
    ZeroPageEffect(m, t);
    var r := ZeroPage(m, t);
    assert Get(r.ram, ROOT, 0) == Get(m.ram, ROOT, 0);
    assert Get(r.ram, z.l1, 1) == Get(m.ram, z.l1, 1);
    assert Get(r.ram, z.l2, z.c) == Get(m.ram, z.l2, z.c);
    assert (z.x == TMP3 || !Get(r.ram, z.x, z.x.i3).valid);
    assert forall p :: InHeap(r.cur, p) ==> PageAt(r.ram, p) == ZEROS;
    assert forall j: Index :: Get(r.ram, z.l2, j) == Get(m.ram, z.l2, j);
  }

  lemma WoundAdvance(m: Machine, z: Spot, cur: nat)
    requires Wound(m, z) && m.cur <= cur <= HEAP_END
    ensures Wound(m.(cur := cur), z)
  {
    hide Num;
  }

  // ---- map_page_for_pagetable ----

  lemma LoadOff(m: Machine, z: Spot, t: Page, i: Index)
    requires Wound(m, z)
    ensures Load(m, t, i) == (m, Get(m.ram, t, i))
  {
  }

  lemma NotVital(m: Machine, z: Spot, b: Block)
    requires Wound(m, z) && !Get(m.ram, z.l2, b.l3.i2).valid && !Above(z, b.l3) && b.l3 != z.x
    requires !Above(z, b.table)
    ensures !Vital(z, z.l2, b.l3.i2) && Harmless2(m.cur, z, Word(true, TMP3, TABLE)) && !InHeap(m.cur, z.l2)
    ensures !Vital(z, TMP3, b.l3.i3) && !InHeap(m.cur, TMP3) && TMP3 != z.l2
    ensures !Vital(z, b.l3, b.l3.i3) && !Vital(z, b.l3, b.table.i3) && b.l3 != z.l2 && b.table != z.l2
  {
    TempNum();
  }

  lemma WoundLevel3(m: Machine, z: Spot, b: Block)
    requires Wound(m, z) && !InHeap(m.cur, b.l3) && !Above(z, b.l3) && b.l3 != z.x && b.l3 != TMP3 && b.l3 != b.table
    requires !Above(z, b.table) && b.table != TMP3
    ensures var r := MapForTable(m, z.l2, b, 3); Wound(r, z) && PageAt(r.ram, b.table) == PageAt(m.ram, b.table)
  {
    hide Wound, Store, ZeroPage, Apart, Above, Vital, InHeap, Harmless2;
    LoadOff(m, z, z.l2, b.l3.i2);
    if !Get(m.ram, z.l2, b.l3.i2).valid {
      NotVital(m, z, b);
      var m1 := Store(m, z.l2, b.l3.i2, Word(true, TMP3, TABLE));
      WoundStore(m, z, z.l2, b.l3.i2, Word(true, TMP3, TABLE));
      var m2 := Store(m1, TMP3, b.l3.i3, Word(true, b.l3, NORMAL));
      WoundStore(m1, z, TMP3, b.l3.i3, Word(true, b.l3, NORMAL));
      var m3 := ZeroPage(m2, b.l3);
      WoundZero(m2, z, b.l3);
      var m4 := Store(m3, b.l3, b.l3.i3, Word(true, b.l3, NORMAL));
      WoundStore(m3, z, b.l3, b.l3.i3, Word(true, b.l3, NORMAL));
      WoundStore(m4, z, b.l3, b.table.i3, Word(true, b.table, NORMAL));
    }
  }

  lemma WoundPath(m: Machine, z: Spot)
    requires Wound(m, z)
    ensures Get(m.ram, ROOT, 0).valid && Get(m.ram, ROOT, 0).frame == z.l1
    ensures Get(m.ram, z.l1, 1).valid && Get(m.ram, z.l1, 1).frame == z.l2
    ensures !Above(z, TMP1)
  {
  }

  lemma BlockFacts(m: Machine, z: Spot, b: Block)
    requires Wound(m, z) && m.cur + 4 <= HEAP_END && b == BlockAt(m.cur)
    ensures b.table.i0 == 0 && b.table.i1 == 1 && b.table == PageOf(m.cur) && PageAt(m.ram, b.table) == ZEROS
    ensures !InHeap(m.cur + 4, b.l3) && !Above(z, b.l3) && b.l3 != z.x && b.l3 != TMP3 && b.l3 != b.table
    ensures !Above(z, b.table) && b.table != TMP3 && b.table != TMP1 && b.table != z.x && b.table != z.l2
    ensures InHeap(m.cur, b.table) && InHeap(m.cur, b.l3)
  {
    hide PageOf;
    BlockShape(m.cur);
    assert Num(b.table) == m.cur && Num(b.l3) == m.cur + 3;
    TempNum();
  }

  lemma PresentSafe(m: Machine, n: Machine, z: Spot, b: Block)
    requires Wound(m, z) && n == m.(cur := m.cur + 4) && m.cur + 4 <= HEAP_END && b == BlockAt(m.cur)
    requires Get(n.ram, z.l2, b.table.i2).valid && InHeap(m.cur, b.table) && b.table.i0 == 0 && b.table.i1 == 1
    ensures var y := Get(n.ram, z.l2, b.table.i2).frame;
            !Vital(z, y, b.table.i3) && !InHeap(n.cur, y) && y != z.l2 && y != b.table
  {
    var y := Get(n.ram, z.l2, b.table.i2).frame;
    if z.x != TMP3 && y == z.x {
      assert b.table.i2 == z.c;
      assert Num(b.table) == m.cur && Num(z.x) < m.cur;
    }
  }

  lemma MissingSafe(n: Machine, z: Spot, b: Block)
    requires Wound(n, z) && !Get(n.ram, z.l2, b.table.i2).valid
    requires !InHeap(n.cur, b.l3) && !Above(z, b.l3) && b.l3 != z.x && !Above(z, b.table)
    ensures !Vital(z, z.l2, b.table.i2) && Harmless2(n.cur, z, Word(true, b.l3, TABLE))
    ensures !InHeap(n.cur, z.l2) && b.table != z.l2
  {
  }

  // The two outcomes of a block: a fault (the C function runs off its end), or one more block.
  lemma WoundAlloc(m: Machine, z: Spot)
    requires Wound(m, z) && m.cur + 4 <= HEAP_END
    ensures var a := AllocTable(m);
            a.stuck || (Wound(a, z) && a.cur == m.cur + 4 && PageAt(a.ram, PageOf(m.cur)) == ZEROS)
  {
    hide Wound, MapForTable, Store, ZeroPage, Apart, Above, Vital, InHeap, Harmless2, PageOf, Num;
    var b := BlockAt(m.cur);
    var n := m.(cur := m.cur + 4);
    BlockFacts(m, z, b);
    WoundAdvance(m, z, m.cur + 4);
    WoundPath(n, z);
    LoadOff(n, z, ROOT, 0);
    LoadOff(n, z, z.l1, 1);
    LoadOff(n, z, z.l2, b.table.i2);
    SkipRoot(m, z.l1, Get(n.ram, ROOT, 0).attr);
    SkipL1(n, z.l1, z.l2, Get(n.ram, z.l1, 1).attr, b);
    if Get(n.ram, z.l2, b.table.i2).valid {
      var y := Get(n.ram, z.l2, b.table.i2).frame;
      LoadOff(n, z, y, b.table.i3);
      if !Get(n.ram, y, b.table.i3).valid {
        PresentSafe(m, n, z, b);
        WoundStore(n, z, y, b.table.i3, Word(true, b.table, NORMAL));
      }
    } else {
      MissingSafe(n, z, b);
      var m1 := MapForTable(n, z.l2, b, 3);
      WoundLevel3(n, z, b);
      var m2 := Store(m1, z.l2, b.table.i2, Word(true, b.l3, TABLE));
      WoundStore(m1, z, z.l2, b.table.i2, Word(true, b.l3, TABLE));
      WoundZero(m2, z, TMP1);
    }
  }

  // ---- mmu_map_4kb ----

  // A table on the way to another gigabyte: none of the tables that matter, and not unallocated.
  predicate Outside(m: Machine, z: Spot, t: Page) {
    t != z.l2 && t != z.x && !InHeap(m.cur, t)
  }

  lemma LaterOutside(cur: nat, t: Page)
    requires !InHeap(cur, t)
    ensures !InHeap(cur + 4, t)
  {
  }

  lemma NewOutside(cur: nat)
    requires cur + 4 <= HEAP_END
    ensures !InHeap(cur + 4, PageOf(cur))
  {
  }

  // One level: the slot is followed, or it is filled with a new and empty table.
  lemma WoundDescend(m: Machine, z: Spot, t: Page, i: Index)
    requires Wound(m, z) && m.cur + 4 <= HEAP_END && Outside(m, z, t) && (Get(m.ram, t, i).valid || !Vital(z, t, i))
    ensures var (r, u) := Descend(m, t, i);
            if Get(m.ram, t, i).valid then r == m && u == Get(m.ram, t, i).frame
            else r.stuck || (Wound(r, z) && r.cur == m.cur + 4 && u == PageOf(m.cur) && PageAt(r.ram, u) == ZEROS
                             && Outside(r, z, u) && !Above(z, u))
  {
    hide Wound, AllocTable, Apart, Above, Vital, PageOf, Num;
    LoadOff(m, z, t, i);
    if !Get(m.ram, t, i).valid {
      var a := AllocTable(m);
      var w := Word(true, PageOf(m.cur), TABLE);
      BlockFacts(m, z, BlockAt(m.cur));
      WoundAlloc(m, z);
      if a.stuck {
        StuckStore(a, t, i, w);
      } else {
        LaterOutside(m.cur, t);
        WoundStore(a, z, t, i, w);
        var r := Store(a, t, i, w);
        LoadOff(r, z, t, i);
        assert Get(r.ram, t, i) == w;
        NewOutside(m.cur);
      }
    }
  }

  lemma NotAbove(z: Spot, t: Page, i: Index)
    requires !Above(z, t) && t != z.x
    ensures !Vital(z, t, i)
  {
  }

  lemma WoundLeaf(m: Machine, z: Spot, l3: Page, i: Index, pa: Page, k: Kind)
    requires Wound(m, z) && Outside(m, z, l3) && !Above(z, l3)
    ensures Wound(SetLeaf(m, l3, i, pa, k), z)
  {
    hide Wound, Above, InHeap;
    LoadOff(m, z, l3, i);
    if !Get(m.ram, l3, i).valid {
      assert !Vital(z, l3, i) by { NotAbove(z, l3, i); }
      WoundStore(m, z, l3, i, Word(true, pa, Attr(k)));
    }
  }

  // The broken tree that the call starts with.
  ghost predicate Start(m: Machine, z: Spot, q: Path) {
    && Lame(m, q, z.x) && q.L3? && !m.on && Wound(m, z) && m.cur + 12 <= HEAP_END
    && TableAt(m.ram, L1(0)) == Some(z.l1) && TableAt(m.ram, L2(0, 1)) == Some(z.l2)
  }

  // Tables that were there before lie apart from the ones that matter.
  lemma ThereOutside(m: Machine, z: Spot, q: Path, p: Path)
    requires Start(m, z, q) && TableAt(m.ram, p).Some? && p != q && p != L2(0, 1)
    ensures Outside(m, z, TableAt(m.ram, p).value)
    ensures p != Root && p != L1(0) ==> !Above(z, TableAt(m.ram, p).value)
  {
    hide TableAt, Translate, Num;
    RootTable(m.ram);
    assert TableAt(m.ram, q) == Some(z.x);
  }

  // The call has come to the table t at p, which was there before or is new and empty.
  ghost predicate Route(m: Machine, n: Machine, z: Spot, t: Page, p: Path, depth: nat) {
    || n.stuck
    || (n == m && TableAt(m.ram, p) == Some(t))
    || (Wound(n, z) && Outside(n, z, t) && !Above(z, t) && PageAt(n.ram, t) == ZEROS && n.cur <= m.cur + 4 * depth)
  }

  lemma EmptySlot(m: Machine, z: Spot, q: Path, t: Page, p: Path, i: Index)
    requires Start(m, z, q) && !p.L3? && TableAt(m.ram, p) == Some(t) && p != L2(0, 1) && !Get(m.ram, t, i).valid
    ensures !Vital(z, t, i)
  {
    hide TableAt, Translate, Num;
    RootTable(m.ram);
    assert TableAt(m.ram, q) == Some(z.x);
    WoundPath(m, z);
  }

  lemma NextTable(m: Machine, n: Machine, z: Spot, q: Path, t: Page, p: Path, i: Index, depth: nat)
    requires Start(m, z, q) && Route(m, n, z, t, p, depth) && depth <= 2 && !p.L3? && n.cur + 4 <= PAGES
    requires p != L2(0, 1) && Child(p, i) != L2(0, 1) && Child(p, i) != q
    ensures var (r, u) := Descend(n, t, i); Route(m, r, z, u, Child(p, i), depth + 1)
  {
    hide Lame, Wound, TableAt, Translate, Descend, Above, Vital, Num, PageOf, InHeap;
    if n.stuck {
      StuckDescend(n, t, i);
    } else if n == m && TableAt(m.ram, p) == Some(t) {
      LoadAt(m, t, p, i);
      ThereOutside(m, z, q, p);
      if !Get(m.ram, t, i).valid {
        EmptySlot(m, z, q, t, p, i);
      }
      WoundDescend(m, z, t, i);
    } else {
      NotAbove(z, t, i);
      assert !Get(n.ram, t, i).valid;
      WoundDescend(n, z, t, i);
    }
  }

  // Mapping a page outside the heap's gigabyte leaves the tree broken.
  lemma WoundMap(m: Machine, q: Path, x: Page, va: Page, pa: Page, k: Kind)
    requires Lame(m, q, x) && !m.on && m.cur + 12 <= HEAP_END && (va.i0 != 0 || va.i1 != 1)
    ensures var r := MapPage(m, va, pa, k); r.stuck || !Inv(r.ram, r.cur)
  {
    hide Wound, TableAt, Translate, Descend, SetLeaf, Outside, Above, Inv, Num, Rotten;
    var z := LameWound(m, q, x);
    RootTable(m.ram);
    assert Start(m, z, q);
    var (m1, l1) := Descend(m, ROOT, va.i0);
    NextTable(m, m, z, q, ROOT, Root, va.i0, 0);
    var (m2, l2) := Descend(m1, l1, va.i1);
    NextTable(m, m1, z, q, l1, L1(va.i0), va.i1, 1);
    var (m3, l3) := Descend(m2, l2, va.i2);
    NextTable(m, m2, z, q, l2, L2(va.i0, va.i1), va.i2, 2);
    if m3.stuck {
      StuckLeaf(m3, l3, va.i3, pa, k);
    } else {
      if m3 == m && TableAt(m.ram, Window(va)) == Some(l3) {
        ThereOutside(m, z, q, Window(va));
      }
      WoundLeaf(m3, z, l3, va.i3, pa, k);
      WoundNotInv(SetLeaf(m3, l3, va.i3, pa, k), z);
    }
  }
}
