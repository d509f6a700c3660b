/**
  The memory-management code as functions on the state of the machine.

  Every load and store goes through `Resolve`: with the MMU off the address is physical, with the
  MMU on it is walked through the very tables that the code is editing.  An access that does not
  translate faults; the kernel has no recovery, so the machine is stuck from then on and nothing
  changes any more.
*/
module Machine {
  import opened Wrappers
  import opened Words
  import opened PageTable

  const HEAP_BASE: nat := 0x4_0000   // page number of 0x40000000, the start of RAM
  const HEAP_END: nat := 0x5_0000    // page number of 0x50000000, kernel_heap_end

  // `cur` is current_free in pages.  `astray` records whether any access so far went to a page other
  // than the one it named; it is never cleared, and nothing depends on it.
  datatype Machine = Machine(ram: Ram, cur: nat, on: bool, stuck: bool, astray: bool)

  function Resolve(m: Machine, t: Page): Option<Page> {
    if !m.on then Some(t)
    else match Translate(m.ram, t)
      case None => None
      case Some(mp) => Some(mp.frame)
  }

  function Load(m: Machine, t: Page, i: Index): (Machine, Word) {
    if m.stuck then (m, ZERO)
    else match Resolve(m, t)
      case None => (m.(stuck := true), ZERO)
      case Some(f) => (m.(astray := m.astray || f != t), Get(m.ram, f, i))
  }

  function Store(m: Machine, t: Page, i: Index, w: Word): (r: Machine)
    ensures r.cur == m.cur && r.on == m.on && (m.astray ==> r.astray)
  {
    if m.stuck then m
    else match Resolve(m, t)
      case None => m.(stuck := true)
      case Some(f) => m.(ram := Put(m.ram, f, i, w), astray := m.astray || f != t)
  }

  // zero_out_page, from word i on
  function ZeroFrom(m: Machine, t: Page, i: nat): (r: Machine)
    requires i <= 512
    ensures r.cur == m.cur && r.on == m.on && (m.astray ==> r.astray)
    decreases 512 - i
  {
    if i == 512 then m else ZeroFrom(Store(m, t, i, ZERO), t, i + 1)
  }

  function ZeroPage(m: Machine, t: Page): (r: Machine)
    ensures r.cur == m.cur && r.on == m.on && (m.astray ==> r.astray)
  {
    ZeroFrom(m, t, 0)
  }

  // struct map_new_page_tables: the four pages of one block
  datatype Block = Block(table: Page, l1: Page, l2: Page, l3: Page)

  function BlockAt(n: nat): Block
    requires n + 4 <= PAGES
  {
    Block(PageOf(n), PageOf(n + 1), PageOf(n + 2), PageOf(n + 3))
  }

  // map_page_for_table_h
  function MapForTable(m: Machine, parent: Page, b: Block, level: nat): (r: Machine)
    requires 1 <= level <= 3
    ensures r.cur == m.cur && r.on == m.on && (m.astray ==> r.astray)
    decreases 3 - level
  {
    var p3 := b.l3;
    if level == 1 then
      var (m0, w) := Load(m, parent, p3.i0);
      if w.valid then m0 else
        var m1 := Store(m0, parent, p3.i0, Word(true, TMP1, TABLE));
        var m2 := MapForTable(m1, TMP1, b, 2);
        var m3 := Store(m2, b.l3, b.l1.i3, Word(true, b.l1, NORMAL));
        var m4 := ZeroPage(m3, b.l1);
        Store(m4, b.l1, p3.i1, Word(true, b.l2, TABLE))
    else if level == 2 then
      var (m0, w) := Load(m, parent, p3.i1);
      if w.valid then m0 else
        var m1 := Store(m0, parent, p3.i1, Word(true, TMP2, TABLE));
        var m2 := MapForTable(m1, TMP2, b, 3);
        var m3 := Store(m2, b.l3, b.l2.i3, Word(true, b.l2, NORMAL));
        var m4 := ZeroPage(m3, b.l2);
        Store(m4, b.l2, p3.i2, Word(true, b.l3, TABLE))
    else
      var (m0, w) := Load(m, parent, p3.i2);
      if w.valid then m0 else
        var m1 := Store(m0, parent, p3.i2, Word(true, TMP3, TABLE));
        var m2 := Store(m1, TMP3, p3.i3, Word(true, b.l3, NORMAL));
        var m3 := ZeroPage(m2, b.l3);
        var m4 := Store(m3, b.l3, p3.i3, Word(true, b.l3, NORMAL));
        Store(m4, b.l3, b.table.i3, Word(true, b.table, NORMAL))
  }

  // map_page_for_pagetable, from the read of the level 2 table on.  Running off the end of the C
  // function without a return value counts as stuck.
  function AllocUnderL2(m: Machine, l2: Page, b: Block): (r: Machine)
    ensures r.cur == m.cur && r.on == m.on && (m.astray ==> r.astray)
  {
    var (m0, w) := Load(m, l2, b.table.i2);
    if m0.stuck then m0
    else if !w.valid then
      var m1 := MapForTable(m0, l2, b, 3);
      var m2 := Store(m1, l2, b.table.i2, Word(true, b.l3, TABLE));
      ZeroPage(m2, TMP1)
    else
      var (m1, w1) := Load(m0, w.frame, b.table.i3);
      if m1.stuck then m1
      else if !w1.valid then Store(m1, w.frame, b.table.i3, Word(true, b.table, NORMAL))
      else m1.(stuck := true)
  }

  // ... from the read of the level 1 table on
  function AllocUnderL1(m: Machine, l1: Page, b: Block): (r: Machine)
    ensures r.cur == m.cur && r.on == m.on && (m.astray ==> r.astray)
  {
    var (m0, w) := Load(m, l1, b.table.i1);
    if m0.stuck then m0
    else if !w.valid then
      var m1 := MapForTable(m0, l1, b, 2);
      var m2 := Store(m1, l1, b.table.i1, Word(true, b.l2, TABLE));
      ZeroPage(ZeroPage(m2, TMP1), TMP2)
    else AllocUnderL2(m0, w.frame, b)
  }

  // The whole of map_page_for_pagetable; the page it returns is PageOf(m.cur) of the state before.
  function AllocTable(m: Machine): (r: Machine)
    requires m.cur + 4 <= PAGES
    ensures r.cur == (if m.stuck then m.cur else m.cur + 4) && r.on == m.on && (m.astray ==> r.astray)
  {
    if m.stuck then m else
      var b := BlockAt(m.cur);
      var (m0, w) := Load(m.(cur := m.cur + 4), ROOT, b.table.i0);
      if m0.stuck then m0
      else if !w.valid then
        var m1 := MapForTable(m0, ROOT, b, 1);
        var m2 := Store(m1, ROOT, b.table.i0, Word(true, b.l1, TABLE));
        ZeroPage(ZeroPage(ZeroPage(m2, TMP1), TMP2), TMP3)
      else AllocUnderL1(m0, w.frame, b)
  }

  // if(!(table[i] & 1)) table[i] = map_page_for_pagetable() | PAGETABLEATTRIBUTES;
  function EnsureSlot(m: Machine, t: Page, i: Index): (r: Machine)
    requires m.cur + 4 <= PAGES
    ensures m.cur <= r.cur <= m.cur + 4 && r.on == m.on && (m.astray ==> r.astray)
  {
    var (m0, w) := Load(m, t, i);
    if m0.stuck || w.valid then m0
    else Store(AllocTable(m0), t, i, Word(true, PageOf(m.cur), TABLE))
  }

  // ... and then next = table[i] & 0x0000FFFFFFFFF000
  function Descend(m: Machine, t: Page, i: Index): (r: (Machine, Page))
    requires m.cur + 4 <= PAGES
    ensures m.cur <= r.0.cur <= m.cur + 4 && r.0.on == m.on && (m.astray ==> r.0.astray)
  {
    var (n, w) := Load(EnsureSlot(m, t, i), t, i);
    (n, w.frame)
  }

  datatype Kind = Normal | Device   // attr_idx 0 and 1, the two that callers pass

  function Attr(k: Kind): nat { match k case Normal => NORMAL case Device => DEVICE }

  // if(!(l3[i] & 1)) l3[i] = attributes | pa; a valid leaf is only reported
  function SetLeaf(m: Machine, l3: Page, i: Index, pa: Page, k: Kind): (r: Machine)
    ensures r.cur == m.cur && r.on == m.on && (m.astray ==> r.astray)
  {
    var (n, w) := Load(m, l3, i);
    if w.valid then n else Store(n, l3, i, Word(true, pa, Attr(k)))
  }

  // mmu_map_4kb(l0_table, va, pa, k)
  function MapPage(m: Machine, va: Page, pa: Page, k: Kind): (r: Machine)
    requires m.cur + 12 <= PAGES
    ensures m.cur <= r.cur <= m.cur + 12 && r.on == m.on && (m.astray ==> r.astray)
  {
    var (m1, l1) := Descend(m, ROOT, va.i0);
    var (m2, l2) := Descend(m1, l1, va.i1);
    var (m3, l3) := Descend(m2, l2, va.i2);
    SetLeaf(m3, l3, va.i3, pa, k)
  }
}
