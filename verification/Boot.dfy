/** init_mmu: from zero-filled RAM to the invariant. */
module Boot {
  import opened Wrappers
  import opened Words
  import opened PageTable
  import opened Machine
  import opened Handover
  import opened Alloc
  import opened Mapping4K
  import opened MapPages
  import opened Exactness
  import opened Ranges
  import opened RangeConditions
  import opened Spoiled
  import opened Wounds
  import opened System
  import opened Runs
  import opened History

  // l3_table[0] ... l3_table[6]
  function Leaf7(m: Machine): Machine {
    var m0 := Store(m, INIT3, 0, Word(true, ROOT, NORMAL));
    var m1 := Store(m0, INIT3, 1, Word(true, INIT1, NORMAL));
    var m2 := Store(m1, INIT3, 2, Word(true, INIT2, NORMAL));
    var m3 := Store(m2, INIT3, 3, Word(true, INIT3, NORMAL));
    var m4 := Store(m3, INIT3, 4, Word(true, TMP1, NORMAL));
    var m5 := Store(m4, INIT3, 5, Word(true, TMP2, NORMAL));
    Store(m5, INIT3, 6, Word(true, TMP3, NORMAL))
  }

  // The tables that init_mmu builds before it maps anything: a path of four tables down to the
  // window at 0x40000000, whose first seven pages are mapped.
  function InitTables(m: Machine): Machine {
    var m0 := ZeroPage(m, ROOT);
    var m1 := ZeroPage(m0, INIT1);
    var m2 := Store(m1, ROOT, ROOT.i0, Word(true, INIT1, TABLE));
    var m3 := ZeroPage(m2, INIT2);
    var m4 := Store(m3, INIT1, ROOT.i1, Word(true, INIT2, TABLE));
    var m5 := ZeroPage(m4, INIT3);
    var m6 := Store(m5, INIT2, ROOT.i2, Word(true, INIT3, TABLE));
    Leaf7(m6)
  }

  function FirstWindow(i: Index): Word {
    if i <= 6 then Word(true, Pg(0, 1, 0, i), NORMAL) else ZERO
  }

  ghost predicate BootRam(ram: Ram) {
    && PageAt(ram, ROOT) == ZEROS[0 := Word(true, INIT1, TABLE)]
    && PageAt(ram, INIT1) == ZEROS[1 := Word(true, INIT2, TABLE)]
    && PageAt(ram, INIT2) == ZEROS[0 := Word(true, INIT3, TABLE)]
    && (forall i: Index :: Get(ram, INIT3, i) == FirstWindow(i))
  }

  lemma StoreOff(m: Machine, t: Page, i: Index, w: Word)
    requires !m.on && !m.stuck
    ensures var r := Store(m, t, i, w);
            && !r.stuck && r.astray == m.astray
            && PageAt(r.ram, t) == PageAt(m.ram, t)[i := w] && OnlyPage(m.ram, r.ram, t)
  {
  }

  lemma LeavesEffect(m: Machine)
    requires !m.on && !m.stuck && PageAt(m.ram, INIT3) == ZEROS
    ensures var r := Leaf7(m);
            && !r.stuck && r.astray == m.astray && r.cur == m.cur && !r.on && OnlyPage(m.ram, r.ram, INIT3)
            && (forall i: Index :: Get(r.ram, INIT3, i) == FirstWindow(i))
  {
  }

  lemma InitTablesEffect(m: Machine)
    requires !m.on && !m.stuck
    ensures var r := InitTables(m);
            && !r.stuck && r.astray == m.astray && r.cur == m.cur && !r.on && BootRam(r.ram)
            && (forall p :: p != ROOT && p != INIT1 && p != INIT2 && p != INIT3 ==>
                PageAt(r.ram, p) == PageAt(m.ram, p))
  {
    hide ZeroPage, Store, Leaf7;
    var m0 := ZeroPage(m, ROOT);
    ZeroPageEffect(m, ROOT);
    var m1 := ZeroPage(m0, INIT1);
    ZeroPageEffect(m0, INIT1);
    var m2 := Store(m1, ROOT, ROOT.i0, Word(true, INIT1, TABLE));
    StoreOff(m1, ROOT, ROOT.i0, Word(true, INIT1, TABLE));
    var m3 := ZeroPage(m2, INIT2);
    ZeroPageEffect(m2, INIT2);
    var m4 := Store(m3, INIT1, ROOT.i1, Word(true, INIT2, TABLE));
    StoreOff(m3, INIT1, ROOT.i1, Word(true, INIT2, TABLE));
    var m5 := ZeroPage(m4, INIT3);
    ZeroPageEffect(m4, INIT3);
    var m6 := Store(m5, INIT2, ROOT.i2, Word(true, INIT3, TABLE));
    StoreOff(m5, INIT2, ROOT.i2, Word(true, INIT3, TABLE));
    LeavesEffect(m6);
  }

  lemma BootL1(ram: Ram, a: Index)
    requires BootRam(ram)
    ensures T1(ram, a) == if a == 0 then Some(INIT1) else None
  {
  }

  lemma BootL2(ram: Ram, a: Index, b: Index)
    requires BootRam(ram)
    ensures T2(ram, a, b) == if a == 0 && b == 1 then Some(INIT2) else None
  {
    BootL1(ram, a);
  }

  lemma BootL3(ram: Ram, a: Index, b: Index, c: Index)
    requires BootRam(ram)
    ensures T3(ram, a, b, c) == if a == 0 && b == 1 && c == 0 then Some(INIT3) else None
  {
    BootL2(ram, a, b);
  }

  // The tree of BootRam.
  lemma BootTree(ram: Ram)
    requires BootRam(ram)
    ensures forall q :: TableAt(ram, q) ==
                        if q == Root then Some(ROOT) else if q == L1(0) then Some(INIT1)
                        else if q == L2(0, 1) then Some(INIT2) else if q == L3(0, 1, 0) then Some(INIT3) else None
    ensures forall v :: Translate(ram, v) ==
                        if Window(v) == L3(0, 1, 0) && v.i3 <= 6 then Some(Mapping(v, NORMAL)) else None
  {
    forall q
      ensures TableAt(ram, q) ==
              if q == Root then Some(ROOT) else if q == L1(0) then Some(INIT1)
              else if q == L2(0, 1) then Some(INIT2) else if q == L3(0, 1, 0) then Some(INIT3) else None
    {
      match q
      case Root =>
      case L1(a) => BootL1(ram, a);
      case L2(a, b) =>
        BootL1(ram, a);
        BootL2(ram, a, b);
      case L3(a, b, c) =>
        BootL1(ram, a);
        BootL2(ram, a, b);
        BootL3(ram, a, b, c);
    }
    forall v
      ensures Translate(ram, v) == if Window(v) == L3(0, 1, 0) && v.i3 <= 6 then Some(Mapping(v, NORMAL)) else None
    {
      assert TableAt(ram, Window(v)) == T3(ram, v.i0, v.i1, v.i2);
    }
  }

  lemma BootHoused(ram: Ram, cur: nat)
    requires BootRam(ram) && HEAP_BASE + 7 <= cur
    ensures Tree(ram) && Housed(ram, cur) && TempsApart(ram)
  {
    hide Translate, TableAt, BootRam;
    BootTree(ram);
  }

  lemma BootTyped(ram: Ram)
    requires BootRam(ram)
    ensures AllTyped(ram)
  {
    hide Translate, TableAt;
    BootTree(ram);
  }

  lemma BootClean(ram: Ram, cur: nat)
    requires BootRam(ram) && HEAP_BASE + 7 <= cur
    requires forall p :: cur <= Num(p) < HEAP_END ==> PageAt(ram, p) == ZEROS
    ensures HeapClean(ram, cur)
  {
    hide Translate, TableAt, BootRam;
    BootTree(ram);
  }

  lemma BootInv(ram: Ram, cur: nat)
    requires BootRam(ram) && HEAP_BASE + 7 <= cur <= HEAP_END
    requires forall p :: cur <= Num(p) < HEAP_END ==> PageAt(ram, p) == ZEROS
    ensures Inv(ram, cur)
  {
    hide Translate, TableAt, BootRam, AllTyped, HeapClean, Tree, Housed, TempsApart;
    BootTree(ram);
    BootTyped(ram);
    BootClean(ram, cur);
    BootHoused(ram, cur);
  }

  // ---- mapping the kernel image and the UART ----

  const KERNEL_START: nat := HEAP_BASE + 7   // page of kernel_start
  const UART: nat := 0x9000                  // page of UART0DR

  function MapKernel(m: Machine): (r: Machine)
    requires KERNEL_START <= m.cur <= HEAP_END
    ensures m.cur <= r.cur <= m.cur + 12 * (m.cur - KERNEL_START) && r.on == m.on
  {
    MapRange(m, KERNEL_START, m.cur - KERNEL_START, Normal)
  }

  // The system after init_mmu: no block has been handed out, and the UART's page is registered.
  function Booted(m: Machine): Sys {
    Sys(m, [], [Region(UART, 1)])
  }

  // init_mmu with m.cur the page of kernel_end, which is also kernel_heap_start.
  function InitMmu(m: Machine): (r: Machine)
    requires KERNEL_START <= m.cur <= HEAP_END
  {
    var m1 := InitTables(m);
    var m2 := MapKernel(m1);
    var m3 := MapRange(m2, UART, 1, Device);
    m3.(on := true)
  }

  // The kernel ends in the first 2 MB of RAM, or else beyond the second 2 MB window and not within
  // the last three pages of a window.
  predicate BootPlaced(k: nat) {
    k <= HEAP_BASE + 512 || (HEAP_BASE + 1024 <= k && Fits(k))
  }

  // ... and the heap has room for the tables that map it.
  predicate BootRoom(k: nat) {
    KERNEL_START < k && k + 4 * ((k - 1 - HEAP_BASE) / 512) + 12 <= HEAP_END
  }

  lemma {:induction false} BootFree(ram: Ram, k: nat, first: nat)
    requires BootRam(ram) && BootRoom(k) && KERNEL_START <= first <= HEAP_BASE + 512 && first <= k
    ensures FirstGapFree(ram, k, first, k - first) <==> BootPlaced(k)
    decreases k - first
  {
    hide BootRam, TableAt, Translate, PageOf;
    BootTree(ram);
    if first < k {
      HeapShape(first);
      HeapShape(k);
      if first < HEAP_BASE + 512 {
        BootFree(ram, k, first + 1);
      }
    }
  }

  // The tables that mapping the kernel needs, beyond those that init_mmu starts with.
  lemma BootGaps(ram: Ram, k: nat)
    requires BootRam(ram) && BootRoom(k)
    ensures |Gaps(ram, Touched(KERNEL_START, k - KERNEL_START))| <= (k - 1 - HEAP_BASE) / 512
  {
    hide BootRam, TableAt, Translate, PageOf;
    BootTree(ram);
    var w := (k - 1 - HEAP_BASE) / 512;
    TouchedGigabyte(KERNEL_START, k - KERNEL_START, 0, 1, 0, w + 1);
    Smaller(Gaps(ram, Touched(KERNEL_START, k - KERNEL_START)), Windows(0, 1, 1, w));
  }

  lemma UartGaps(ram: Ram)
    ensures |Gaps(ram, Touched(UART, 1))| <= 3
  {
    hide TableAt, PageOf;
    assert Touched(UART, 1) == PathsOf(PageOf(UART));
    GapCount(ram, PageOf(UART));
  }

  lemma SettledAfterBoot(r: Machine, first: nat, k: nat)
    requires first < k < PAGES && RangeTables(r.ram, first, k - first) && r.cur < PAGES
    requires r.cur == k || Advanced(k, r.ram, r.cur)
    ensures Settled(r.ram, r.cur)
  {
    hide PageOf;
    if r.cur == k && k % 512 > 3 {
      assert InRange(PageOf(k - 1), first, k - first);
      LastIndex(k);
      SameWindow(PageOf(k - 1), PageOf(k), 1);
    }
  }

  lemma MapKernelKeeps(m1: Machine)
    requires !m1.stuck && Inv(m1.ram, m1.cur) && BootRam(m1.ram) && BootRoom(m1.cur) && BootPlaced(m1.cur)
    ensures var m2 := MapKernel(m1);
            && !m2.stuck && m2.astray == m1.astray && m2.cur + 12 <= HEAP_END
            && Inv(m2.ram, m2.cur) && Settled(m2.ram, m2.cur)
            && RangeTranslated(m1.ram, m2.ram, KERNEL_START, m1.cur - KERNEL_START, Normal)
            && OnlyOwnPagesOutside(m1.ram, m1.cur, m2.ram, m2.cur, KERNEL_START, m1.cur - KERNEL_START)
            && Grows(m1.ram, m1.cur, m2.ram, m2.cur)
            && m2.cur <= m1.cur + 4 * ((m1.cur - 1 - HEAP_BASE) / 512)
  {
    hide Inv, Gaps, RangeMappable, MapRange, TableAt, Translate, Grows, OthersSpared, OnlyOwnPagesOutside;
    hide PageOf, BootRam;
    hide Settled, Advanced, FirstGapFree, RangeTranslated, RangeTables, Fits;
    var k := m1.cur;
    BootFree(m1.ram, k, KERNEL_START);
    BootGaps(m1.ram, k);
    HeapMappable(m1, KERNEL_START, k - KERNEL_START, Normal);
    RangeKeeps(m1, KERNEL_START, k - KERNEL_START, Normal);
    SettledAfterBoot(MapKernel(m1), KERNEL_START, k);
  }

  lemma MapUartKeeps(m2: Machine)
    requires !m2.stuck && m2.cur + 12 <= HEAP_END && Inv(m2.ram, m2.cur) && Settled(m2.ram, m2.cur)
    ensures var m3 := MapRange(m2, UART, 1, Device);
            && !m3.stuck && m3.astray == m2.astray && m3.cur <= HEAP_END
            && Inv(m3.ram, m3.cur) && Settled(m3.ram, m3.cur)
            && Grows(m2.ram, m2.cur, m3.ram, m3.cur) && RangeTranslated(m2.ram, m3.ram, UART, 1, Device)
            && OnlyOwnPagesOutside(m2.ram, m2.cur, m3.ram, m3.cur, UART, 1)
            && m2.cur <= m3.cur <= m2.cur + 12
  {
    hide Inv, Gaps, RangeMappable, MapRange, TableAt, Translate, Grows, OthersSpared, OnlyOwnPagesOutside, PageOf;
    hide Settled, Advanced, RangeTranslated, RangeTables;
    UartGaps(m2.ram);
    DeviceMappable(m2, UART, 1, Device);
    RangeKeeps(m2, UART, 1, Device);
    var m3 := MapRange(m2, UART, 1, Device);
    CurBounds(m3);
    SettledAfterRange(m2, m3);
  }

  lemma BootMapped(ram: Ram, k: nat)
    requires BootRam(ram) && KERNEL_START <= k
    ensures Accounted(ram, k, [])
  {
    hide BootRam, TableAt, Translate;
    BootTree(ram);
  }

  lemma BootUnmapped(ram: Ram, p: Page)
    requires BootRam(ram) && (Num(p) < HEAP_BASE || KERNEL_START <= Num(p))
    ensures Translate(ram, p) == None
  {
    hide BootRam, TableAt, Translate;
    BootTree(ram);
  }

  // What is mapped in the end: the boot tables' window, the kernel image, the tables and the UART.
  lemma BootAccounted(m1: Ram, m2: Machine, m3: Machine, k: nat)
    requires BootRam(m1) && KERNEL_START <= k <= m2.cur <= m3.cur && m2.cur <= HEAP_END
    requires RangeTranslated(m1, m2.ram, KERNEL_START, k - KERNEL_START, Normal)
    requires OnlyOwnPagesOutside(m1, k, m2.ram, m2.cur, KERNEL_START, k - KERNEL_START)
    requires RangeTranslated(m2.ram, m3.ram, UART, 1, Device)
    requires OnlyOwnPagesOutside(m2.ram, m2.cur, m3.ram, m3.cur, UART, 1)
    ensures Accounted(m3.ram, m3.cur, [Region(UART, 1)])
  {
    hide BootRam, TableAt, Translate, Accounted, OnlyOwnPagesOutside, Num;
    BootMapped(m1, k);
    forall v | InRange(v, KERNEL_START, k - KERNEL_START)
      ensures Mapped(m2.ram, v)
    {
      BootUnmapped(m1, v);
    }
    AccountedHeap(m1, k, m2.ram, m2.cur, KERNEL_START, k - KERNEL_START, []);
    AccountedDevice(m2.ram, m2.cur, m3.ram, m3.cur, UART, 1, []);
    assert [] + [Region(UART, 1)] == [Region(UART, 1)];
  }

  // The pages that the linker script reserves at 0x40000000 to 0x40006000.
  ghost predicate BootTables(ram: Ram) {
    && TableAt(ram, Root) == Some(Pg(0, 1, 0, 0)) && TableAt(ram, L1(0)) == Some(Pg(0, 1, 0, 1))
    && TableAt(ram, L2(0, 1)) == Some(Pg(0, 1, 0, 2)) && TableAt(ram, L3(0, 1, 0)) == Some(Pg(0, 1, 0, 3))
    && Unreachable(ram, Pg(0, 1, 0, 4)) && Unreachable(ram, Pg(0, 1, 0, 5)) && Unreachable(ram, Pg(0, 1, 0, 6))
  }

  lemma BootTablesStay(m1: Ram, k: nat, m2: Ram, c2: nat, m3: Ram, c3: nat)
    requires BootRam(m1) && Grows(m1, k, m2, c2) && Grows(m2, c2, m3, c3) && TempsApart(m3)
    ensures BootTables(m3)
  {
    hide BootRam, TableAt, Translate, Num;
    BootTree(m1);
    GrowsTrans(m1, k, m2, c2, m3, c3);
  }

  lemma TempsIn(ram: Ram, cur: nat)
    requires Inv(ram, cur)
    ensures TempsApart(ram)
  {
  }

  // The machine at the entry of init_mmu, with zero RAM behind the kernel.
  ghost predicate BootReady(m: Machine) {
    && !m.on && !m.stuck && !m.astray && BootRoom(m.cur)
    && (forall p :: m.cur <= Num(p) < HEAP_END ==> PageAt(m.ram, p) == ZEROS)
  }

  // What init_mmu promises, for a kernel that ends on page k: all of RAM up to there, from the first
  // boot table at 0x40000000 on and without a gap, is mapped to itself as normal memory, and the page at
  // 0x9000000 as device memory.
  ghost predicate BootEndsWell(k: nat, r: Machine) {
    && r.on && SysInv(Booted(r))
    && (forall p :: 0x4_0000 <= Num(p) < k ==> Translate(r.ram, p) == Some(Mapping(p, NORMAL)))
    && Translate(r.ram, Pg(0, 0, 72, 0)) == Some(Mapping(Pg(0, 0, 72, 0), DEVICE))
    // the first tables on the way down, and the temporary ones, are where the linker script has them
    && BootTables(r.ram)
    && k <= r.cur <= k + 4 * ((k - 1 - HEAP_BASE) / 512) + 12
  }

  lemma BootZero(m: Machine, m1: Machine)
    requires KERNEL_START <= m.cur
    requires forall p :: m.cur <= Num(p) < HEAP_END ==> PageAt(m.ram, p) == ZEROS
    requires forall p :: p != ROOT && p != INIT1 && p != INIT2 && p != INIT3 ==> PageAt(m1.ram, p) == PageAt(m.ram, p)
    ensures forall p :: m.cur <= Num(p) < HEAP_END ==> PageAt(m1.ram, p) == ZEROS
  {
  }

  lemma UartNum()
    ensures PageOf(UART) == Pg(0, 0, 72, 0) && Num(Pg(0, 0, 72, 0)) == UART
  {
  }

  // The seven pages below the kernel image.
  lemma BootPages(m1: Ram, p: Page)
    requires BootRam(m1) && 0x4_0000 <= Num(p) < KERNEL_START
    ensures Translate(m1, p) == Some(Mapping(p, NORMAL))
  {
    hide BootRam, TableAt, Translate;
    BootTree(m1);
    HeapShape(Num(p));
    NumInjective(p, PageOf(Num(p)));
  }

  lemma BootTranslations(m1: Ram, m2: Machine, m3: Machine, k: nat)
    requires BootRam(m1) && KERNEL_START <= k <= HEAP_END && k <= m2.cur <= HEAP_END && m2.cur <= m3.cur
    requires RangeTranslated(m1, m2.ram, KERNEL_START, k - KERNEL_START, Normal)
    requires OnlyOwnPagesOutside(m1, k, m2.ram, m2.cur, KERNEL_START, k - KERNEL_START)
    requires Grows(m2.ram, m2.cur, m3.ram, m3.cur) && RangeTranslated(m2.ram, m3.ram, UART, 1, Device)
    requires Grows(m1, k, m2.ram, m2.cur)
    ensures forall p :: 0x4_0000 <= Num(p) < k ==> Translate(m3.ram, p) == Some(Mapping(p, NORMAL))
    ensures Translate(m3.ram, Pg(0, 0, 72, 0)) == Some(Mapping(Pg(0, 0, 72, 0), DEVICE))
  {
    hide BootRam, TableAt, Translate, PageOf, Num;
    forall p | 0x4_0000 <= Num(p) < k
      ensures Translate(m3.ram, p) == Some(Mapping(p, NORMAL))
    {
      if Num(p) < KERNEL_START {
        BootPages(m1, p);
      } else {
        assert InRange(p, KERNEL_START, k - KERNEL_START);
        BootUnmapped(m1, p);
      }
    }
    var u := PageOf(UART);
    UartNum();
    BootUnmapped(m1, u);
    assert InRange(u, UART, 1) && !InRange(u, KERNEL_START, k - KERNEL_START);
    assert Translate(m2.ram, u) == None;
  }

  // Zero-filled heap in, the invariant out; the kernel image is mapped to itself as normal memory
  // and the UART page as device memory, for at most one block of tables per 2 MB of image and three
  // for the UART.
  lemma InitMmuKeeps(m: Machine)
    requires BootReady(m) && BootPlaced(m.cur)
    ensures BootEndsWell(m.cur, InitMmu(m))
  {
    hide Inv, MapRange, MapKernel, TableAt, Translate, Grows, OnlyOwnPagesOutside, PageOf, Num, BootRam;
    hide InitTables, Settled;
    hide RangeTranslated, Fits, Accounted;
    var m1 := InitTables(m);
    InitTablesEffect(m);
    BootZero(m, m1);
    BootInv(m1.ram, m.cur);
    MapKernelKeeps(m1);
    var m2 := MapKernel(m1);
    MapUartKeeps(m2);
    BootTranslations(m1.ram, m2, MapRange(m2, UART, 1, Device), m.cur);
    TempsIn(MapRange(m2, UART, 1, Device).ram, MapRange(m2, UART, 1, Device).cur);
    BootTablesStay(m1.ram, m.cur, m2.ram, m2.cur, MapRange(m2, UART, 1, Device).ram, MapRange(m2, UART, 1, Device).cur);
    BootAccounted(m1.ram, m2, MapRange(m2, UART, 1, Device), m.cur);
  }

  lemma UartShape()
    ensures PageOf(UART).i1 != 1
  {
  }

  lemma MapOne(m: Machine, first: nat, k: Kind)
    requires first < PAGES && m.cur + 12 < PAGES
    ensures MapRange(m, first, 1, k) == MapPage(m, PageOf(first), PageOf(first), k)
  {
    hide MapPage, PageOf;
    assert MapRange(MapPage(m, PageOf(first), PageOf(first), k), first + 1, 0, k) ==
           MapPage(m, PageOf(first), PageOf(first), k);
  }

  // A kernel that ends in any other place: mapping it breaks the tree, and mapping the UART, still
  // with the MMU off, does not repair it.
  lemma InitMmuFails(m: Machine)
    requires BootReady(m) && !BootPlaced(m.cur)
    ensures var r := InitMmu(m); r.stuck || !Inv(r.ram, r.cur)
  {
    hide Inv, TableAt, Translate, PageOf, Num, BootRam, InitTables, Gaps, MapRange, FirstGapFree, Fits, Lame, MapPage;
    var m1 := InitTables(m);
    InitTablesEffect(m);
    BootZero(m, m1);
    BootInv(m1.ram, m.cur);
    BootGaps(m1.ram, m.cur);
    BootFree(m1.ram, m.cur, KERNEL_START);
    var q, x := RangeFails(m1, KERNEL_START, m.cur - KERNEL_START, Normal, KERNEL_START, 0);
    var m2 := MapKernel(m1);
    var m3 := MapRange(m2, UART, 1, Device);
    if m2.stuck {
      StuckRange(m2, UART, 1, Device);
    } else {
      UartShape();
      MapOne(m2, UART, Device);
      WoundMap(m2, q, x, PageOf(UART), PageOf(UART), Device);
    }
  }

  // Where the kernel may end is exact: init_mmu establishes the invariant from these places only.
  lemma BootExact(m: Machine)
    requires BootReady(m)
    ensures SysInv(Booted(InitMmu(m))) <==> BootPlaced(m.cur)
    ensures BootEndsWell(m.cur, InitMmu(m)) <==> BootPlaced(m.cur)
  {
    hide InitMmu, Inv, PageOf, Num, Translate, TableAt, BootPlaced, BootReady;
    if BootPlaced(m.cur) {
      InitMmuKeeps(m);
    } else {
      InitMmuFails(m);
    }
  }

  lemma FirstTable(ram: Ram, p: Page)
    requires Num(p) == KERNEL_START && Translate(ram, p).Some?
    ensures TableAt(ram, L3(0, 1, 0)).Some?
  {
    HeapShape(KERNEL_START);
    NumInjective(p, PageOf(KERNEL_START));
  }

  // Right after boot, any allocation that ends in the first 2 MB of RAM succeeds, and costs no tables.
  lemma FirstAllocation(m: Machine, n: nat)
    requires BootReady(m) && BootPlaced(m.cur) && InitMmu(m).cur + n <= HEAP_BASE + 512
    ensures Enabled(Booted(InitMmu(m)), Allocate(n)) && Kalloc(InitMmu(m), n).cur == InitMmu(m).cur + n
  {
    hide Inv, InitMmu, Translate, TableAt, PageOf, Num, Gaps, Touched, FirstGapFree, Kalloc, Settled, Accounted;
    InitMmuKeeps(m);
    var r := InitMmu(m);
    CurBounds(r);
    assert Num(PageOf(KERNEL_START)) == KERNEL_START;
    FirstTable(r.ram, PageOf(KERNEL_START));
    OneTable(r.ram, r.cur + n, 0, r.cur, n);
    KallocKeeps(r, n);
  }

  // The second 2 MB window, when no table has been made for it: at most one is missing.
  lemma SecondWindow(ram: Ram, n: nat)
    requires TableAt(ram, L2(0, 1)).Some? && 1 <= n < 512
    ensures |Gaps(ram, Touched(HEAP_BASE + 512, n))| <= 1
  {
    hide TableAt, PageOf, Touched;
    Ancestors(ram, Pg(0, 1, 0, 0));
    TouchedGigabyte(HEAP_BASE + 512, n, 0, 1, 1, 2);
    var s, t := Gaps(ram, Touched(HEAP_BASE + 512, n)), {L3(0, 1, 1)};
    forall p | p in s
      ensures p in t
    {
    }
    Smaller(s, t);
  }

  lemma AfterFirst(s: Sys, size: nat, n: nat)
    requires SysInv(s) && s.m.on && Enabled(s, Allocate(size)) && SysInv(Apply(s, Allocate(size))) && 1 <= n < 512
    requires Apply(s, Allocate(size)).m.cur == HEAP_BASE + 512
    ensures Kalloc(Apply(s, Allocate(size)).m, n).stuck
  {
    hide Translate, TableAt, PageOf, Num, Gaps, Touched, FirstGapFree, Kalloc, Settled, Accounted;
    var t := Apply(s, Allocate(size)).m;
    SecondWindow(t.ram, n);
    FreshWindowFails(t, n);
  }

  // Two calls after boot that the code cannot survive: the first one uses up the first 2 MB and
  // succeeds, the second one faults, whatever its size up to 2 MB.
  lemma SecondWindowFaults(m: Machine, n: nat)
    requires BootReady(m) && m.cur + 12 <= HEAP_BASE + 512 && 1 <= n < 512
    ensures InitMmu(m).cur <= HEAP_BASE + 512
    ensures var s := Booted(InitMmu(m));
            var first := Allocate(HEAP_BASE + 512 - InitMmu(m).cur);
            Enabled(s, first) && SysInv(Apply(s, first)) && Kalloc(Apply(s, first).m, n).stuck
  {
    hide Inv, SysInv, InitMmu, Translate, TableAt, PageOf, Num, Gaps, Touched, FirstGapFree, Kalloc;
    InitMmuKeeps(m);
    var s := Booted(InitMmu(m));
    var size := HEAP_BASE + 512 - InitMmu(m).cur;
    FirstAllocation(m, size);
    StepKeeps(s, Allocate(size));
    AfterFirst(s, size, n);
  }

  // From boot, over any run.
  lemma BootRunKeeps(m: Machine, ops: seq<Op>)
    requires BootReady(m) && BootPlaced(m.cur)
    requires RunEnabled(Booted(InitMmu(m)), ops)
    ensures var s := Run(Booted(InitMmu(m)), ops);
            SysInv(s) && s.m.on && AddsOnly(InitMmu(m), s.m) && s.devices == [Region(UART, 1)] + Registrations(ops)
  {
    hide SysInv, InitMmu, RunEnabled, Run, Translate;
    InitMmuKeeps(m);
    RunKeeps(Booted(InitMmu(m)), ops);
  }

  // From boot, over any run: every page of every block of kalloc is zero but for the writes to it.
  lemma BootRunContents(m: Machine, ops: seq<Op>, k: nat, p: nat)
    requires BootReady(m) && BootPlaced(m.cur) && RunEnabled(Booted(InitMmu(m)), ops)
    requires InBlock(Run(Booted(InitMmu(m)), ops), k, p)
    ensures var s := Run(Booted(InitMmu(m)), ops);
            && SysInv(s) && s.regions[k].start + p < PAGES
            && PageAt(s.m.ram, PageOf(s.regions[k].start + p)) == Written(ops, k, p, ZEROS)
  {
    hide SysInv, InitMmu, RunEnabled, Run, BootPlaced, PageOf, Translate, Written, Num;
    InitMmuKeeps(m);
    RunContents(Booted(InitMmu(m)), ops, k, p);
  }

  lemma KernelNum()
    ensures Num(PageOf(KERNEL_START)) == KERNEL_START
  {
  }

  // From boot without device mappings, allocations below 2 MB never get out of the first 2 MB of RAM.
  lemma SmallAllocationsStay(m: Machine, ops: seq<Op>)
    requires BootReady(m) && m.cur + 12 <= HEAP_BASE + 512
    requires RunEnabled(Booted(InitMmu(m)), ops) && Small(ops)
    ensures Run(Booted(InitMmu(m)), ops).m.cur <= HEAP_BASE + 512
  {
    hide InitMmu, RunEnabled, Run, PageOf, Translate, TableAt, Inv, Num, Settled, Accounted, Small;
    InitMmuKeeps(m);
    var r := InitMmu(m);
    CurBounds(r);
    assert Num(PageOf(KERNEL_START)) == KERNEL_START by { KernelNum(); }
    FirstTable(r.ram, PageOf(KERNEL_START));
    SmallRunStays(Booted(r), ops, 0);
  }

  lemma NothingElse(r: Machine)
    requires Accounted(r.ram, r.cur, [Region(UART, 1)])
    ensures forall p :: Translate(r.ram, p).Some? ==> 0x4_0000 <= Num(p) < r.cur || p == Pg(0, 0, 72, 0)
  {
    hide Translate;
    forall p | Translate(r.ram, p).Some? && !(0x4_0000 <= Num(p) < r.cur)
      ensures p == Pg(0, 0, 72, 0)
    {
      assert InRange(p, UART, 1);
      NumInjective(p, Pg(0, 0, 72, 0));
    }
  }

  // The same in numbers: pages of 4 KB, 0x40000 being the first page of RAM, 0x40007 the first one of the
  // kernel, k the one after its last, and 0x50000 the end of the heap.
  lemma InitMmuInNumbers(m: Machine, k: nat)
    requires !m.on && !m.stuck && !m.astray && m.cur == k
    requires 0x4_0007 < k && k + 4 * ((k - 1 - 0x4_0000) / 512) + 12 <= 0x5_0000
    requires k <= 0x4_0200 || (0x4_0400 <= k && k % 512 <= 508)
    requires forall p :: k <= Num(p) < 0x5_0000 ==> PageAt(m.ram, p) == ZEROS
    ensures var r := InitMmu(m);
            && r.on && !r.stuck && !r.astray && BootTables(r.ram)
            && (forall p :: 0x4_0000 <= Num(p) < k ==> Translate(r.ram, p) == Some(Mapping(p, 0x381)))
            && Translate(r.ram, Pg(0, 0, 72, 0)) == Some(Mapping(Pg(0, 0, 72, 0), 0x3_0383))
            && (forall p :: Translate(r.ram, p).Some? ==> 0x4_0000 <= Num(p) < r.cur || p == Pg(0, 0, 72, 0))
  {
    hide InitMmu, Num, Translate, BootTables, Inv, Settled, PageOf;
    InitMmuKeeps(m);
    NothingElse(InitMmu(m));
  }
}
