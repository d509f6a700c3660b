/**
  mmu.c, page_bump_allocator.c and kernel_allocator.c as code that updates one object in place.

  Every method is proved to do exactly what the corresponding function on Machine does; the
  properties of those functions are proved in the other modules and repeated here for the three
  calls that the rest of the kernel makes.
*/
module Kernel {
  import opened Wrappers
  import opened Arithmetic
  import opened DeviceLoop
  import opened Words
  import opened PageTable
  import opened Machine
  import M = Machine
  import opened PageAllocator
  import opened Handover
  import opened MapPages
  import opened Exactness
  import opened UpperExactness
  import opened Ranges
  import opened RangeConditions
  import opened System
  import opened Runs
  import Boot

  lemma KallocPromise(m: Machine, n: nat)
    ensures KallocReady(m, n) ==>
              (KallocEndsWell(m, n, System.Kalloc(m, n)) <==> FirstGapFree(m.ram, m.cur + n, m.cur, n))
  {
    hide KallocEndsWell, FirstGapFree, System.Kalloc, Inv, Gaps;
    if KallocReady(m, n) {
      KallocExact(m, n);
    }
  }

  lemma BootPromise(m: Machine)
    requires Boot.KERNEL_START <= m.cur <= HEAP_END
    ensures Boot.BootReady(m) ==> (Boot.BootEndsWell(m.cur, Boot.InitMmu(m)) <==> Boot.BootPlaced(m.cur))
  {
    hide Boot.InitMmu, Boot.BootEndsWell, Boot.BootPlaced, Num;
    if Boot.BootReady(m) {
      Boot.BootExact(m);
    }
  }

  lemma MapPromise(m: Machine, va: Page, pa: Page, k: Kind)
    ensures MapReady(m, va) ==>
              var r := MapPage(m, va, pa, k);
              (Inv(r.ram, r.cur) && r.cur < PAGES && MapsTo(m, r, va, pa, k) <==> Mappable(m.ram, m.cur, va))
  {
    hide Inv, MapsTo, Mappable, MapPage, Allowed, Room;
    if MapReady(m, va) {
      MapExact(m, va, pa, k);
    }
  }

  lemma AlignedPage(n: nat)
    ensures 4096 * n / 4096 == n && AlignUp(4096 * n) == 4096 * n
  {
  }

  // One turn of the mapping loops, and their end.
  lemma MapRangeStep(m: Machine, first: nat, count: nat, k: Kind)
    requires 0 < count && first + count <= PAGES && m.cur + 12 * count < PAGES
    ensures MapRange(m, first, count, k) ==
        MapRange(MapPage(m, PageOf(first), PageOf(first), k), first + 1, count - 1, k)
  {
    hide MapPage, PageOf;
  }

  lemma MapRangeEmpty()
    ensures forall m: Machine, first: nat, k: Kind :: first <= PAGES && m.cur < PAGES ==> MapRange(m, first, 0, k) == m
  {
  }

  class Mmu {
    var ram: Ram
    var currentFree: nat   // current_free, a byte address
    ghost var free: nat    // its page number
    var on: bool           // SCTLR_EL1.M
    var stuck: bool
    ghost var astray: bool // of Machine; not part of the program

    ghost predicate Valid()
      reads this
    {
      currentFree == 4096 * free
    }

    ghost function State(): Machine
      reads this
    {
      Machine(ram, free, on, stuck, astray)
    }

    constructor (ram: Ram, heapStart: nat)
      requires heapStart % 4096 == 0
      ensures Valid() && State() == Machine(ram, heapStart / 4096, false, false, false)
    {
      this.ram := ram;
      currentFree := heapStart;
      free := heapStart / 4096;
      on := false;
      stuck := false;
      astray := false;
    }

    // table[i]
    method Read(table: Page, i: Index) returns (w: Word)
      modifies this`stuck, this`astray
      ensures (State(), w) == old(Load(State(), table, i))
    {
      w := ZERO;
      if !stuck {
        var f := Resolve(Machine(ram, 0, on, stuck, false), table);
        if f.None? {
          stuck := true;
        } else {
          w := PageAt(ram, f.value)[i];
          astray := astray || f.value != table;
        }
      }
    }

    // table[i] = w
    method Write(table: Page, i: Index, w: Word)
      modifies this`ram, this`stuck, this`astray
      ensures State() == old(Store(State(), table, i, w))
    {
      if !stuck {
        var f := Resolve(Machine(ram, 0, on, stuck, false), table);
        if f.None? {
          stuck := true;
        } else {
          ram := ram[f.value := PageAt(ram, f.value)[i := w]];
          astray := astray || f.value != table;
        }
      }
    }

    method ZeroOutPage(page: Page)
      modifies this`ram, this`stuck, this`astray
      ensures State() == old(ZeroPage(State(), page))
    {
      hide Store, Resolve;
      var i := 0;
      while i < 512
        invariant 0 <= i <= 512
        invariant ZeroFrom(State(), page, i) == old(ZeroPage(State(), page))
      {
        Write(page, i, ZERO);
        i := i + 1;
      }
    }

    method PallocPages(size: nat) returns (start: nat)
      requires Valid()
      modifies this`currentFree, this`free
      ensures Valid() && Allocation(start, currentFree) == Palloc(old(currentFree), size)
      ensures start == old(currentFree) && free == old(free) + RoundSize(size) / 4096
    {
      RoundSizeIsNext(size);
      currentFree := AlignUp(currentFree);
      start := currentFree;
      currentFree := currentFree + RoundSize(size);
      free := free + RoundSize(size) / 4096;
    }

    method PallocContinuousBlock(pages: nat) returns (start: nat)
      modifies this`currentFree, this`free
      ensures Allocation(start, currentFree) == PallocContinuous(old(currentFree), pages)
      ensures free == currentFree / 4096
    {
      currentFree := AlignUp(currentFree);
      start := currentFree;
      var pagesLeft := WINDOW - currentFree % WINDOW;
      if pages > 4096 {
        // only reported
      } else if pagesLeft >= pages {
        currentFree := currentFree + pages * 4096;
      } else {
        start := NextWindow(currentFree);
        currentFree := start + pages * 4096;
      }
      free := currentFree / 4096;
    }

    method MapPageForTableH(parent: Page, b: Block, level: nat)
      requires 1 <= level <= 3
      modifies this`ram, this`stuck, this`astray
      ensures State() == old(MapForTable(State(), parent, b, level))
      decreases 3 - level
    {
      hide ZeroPage, Store, Load;
      if level == 1 {
        var w := Read(parent, b.l3.i0);
        if !w.valid {
          Write(parent, b.l3.i0, Word(true, TMP1, TABLE));
          MapPageForTableH(TMP1, b, 2);
          Write(b.l3, b.l1.i3, Word(true, b.l1, NORMAL));
          ZeroOutPage(b.l1);
          Write(b.l1, b.l3.i1, Word(true, b.l2, TABLE));
        }
      } else if level == 2 {
        var w := Read(parent, b.l3.i1);
        if !w.valid {
          Write(parent, b.l3.i1, Word(true, TMP2, TABLE));
          MapPageForTableH(TMP2, b, 3);
          Write(b.l3, b.l2.i3, Word(true, b.l2, NORMAL));
          ZeroOutPage(b.l2);
          Write(b.l2, b.l3.i2, Word(true, b.l3, TABLE));
        }
      } else {
        var w := Read(parent, b.l3.i2);
        if !w.valid {
          Write(parent, b.l3.i2, Word(true, TMP3, TABLE));
          Write(TMP3, b.l3.i3, Word(true, b.l3, NORMAL));
          ZeroOutPage(b.l3);
          Write(b.l3, b.l3.i3, Word(true, b.l3, NORMAL));
          Write(b.l3, b.table.i3, Word(true, b.table, NORMAL));
        }
      }
    }

    // The returned page is the first of the block, whatever happens to its mapping.
    method MapPageForPagetable() returns (page: Page)
      requires Valid() && State().cur + 4 <= PAGES
      modifies this`ram, this`stuck, this`astray, this`currentFree, this`free
      ensures Valid() && State() == old(AllocTable(State())) && page == PageOf(old(State().cur))
    {
      hide ZeroPage, Store, Load, MapForTable, PageOf, Num, BlockAt, PallocContinuous, AlignUp;
      page := PageOf(currentFree / 4096);
      if stuck {
        return;
      }
      NeverSkips(currentFree, 4);
      AlignedPage(free);
      AlignedPage(free + 4);
      var start := PallocContinuousBlock(4);
      var b := BlockAt(start / 4096);
      var w0 := Read(ROOT, b.table.i0);
      if stuck {
        return;
      }
      if !w0.valid {
        MapPageForTableH(ROOT, b, 1);
        Write(ROOT, b.table.i0, Word(true, b.l1, TABLE));
        ZeroOutPage(TMP1);
        ZeroOutPage(TMP2);
        ZeroOutPage(TMP3);
        return;
      }
      var w1 := Read(w0.frame, b.table.i1);
      if stuck {
        return;
      }
      if !w1.valid {
        MapPageForTableH(w0.frame, b, 2);
        Write(w0.frame, b.table.i1, Word(true, b.l2, TABLE));
        ZeroOutPage(TMP1);
        ZeroOutPage(TMP2);
        return;
      }
      var w2 := Read(w1.frame, b.table.i2);
      if stuck {
        return;
      }
      if !w2.valid {
        MapPageForTableH(w1.frame, b, 3);
        Write(w1.frame, b.table.i2, Word(true, b.l3, TABLE));
        ZeroOutPage(TMP1);
        return;
      }
      var w3 := Read(w2.frame, b.table.i3);
      if stuck {
        return;
      }
      if !w3.valid {
        Write(w2.frame, b.table.i3, Word(true, b.table, NORMAL));
      } else {
        stuck := true;   // the C function ends without a return statement
      }
    }

    // Fill an empty slot, then follow it.
    method Descend(table: Page, i: Index) returns (next: Page)
      requires Valid() && State().cur + 4 <= PAGES
      modifies this`ram, this`stuck, this`astray, this`currentFree, this`free
      ensures Valid() && (State(), next) == old(M.Descend(State(), table, i))
    {
      hide Store, Load, AllocTable, PageOf, Num;
      var w := Read(table, i);
      if !stuck && !w.valid {
        var page := MapPageForPagetable();
        Write(table, i, Word(true, page, TABLE));
      }
      w := Read(table, i);
      next := w.frame;
    }

    method MmuMap4kb(va: Page, pa: Page, k: Kind)
      requires Valid() && State().cur + 12 <= PAGES
      modifies this`ram, this`stuck, this`astray, this`currentFree, this`free
      ensures Valid() && State() == old(MapPage(State(), va, pa, k))
      ensures old(MapReady(State(), va)) ==>
                (Inv(ram, free) && free < PAGES && MapsTo(old(State()), State(), va, pa, k)
                 <==> Mappable(old(ram), old(free), va))
    {
      hide Store, Load, M.Descend, Inv, MapsTo, Mappable, Allowed, Room;
      MapPromise(State(), va, pa, k);
      var l1 := Descend(ROOT, va.i0);
      var l2 := Descend(l1, va.i1);
      var l3 := Descend(l2, va.i2);
      var w := Read(l3, va.i3);
      if !w.valid {
        Write(l3, va.i3, Word(true, pa, Attr(k)));
      }
    }

    // A size that is not a multiple of the page size is only reported.
    method MapAddr(address: nat, size: nat)
      requires Valid() && address % 4096 == 0 && address / 4096 + size / 4096 <= PAGES
      requires State().cur + 12 * (size / 4096) < PAGES
      modifies this`ram, this`stuck, this`astray, this`currentFree, this`free
      ensures Valid()
      ensures size % 4096 == 0 ==> State() == old(MapRange(State(), address / 4096, size / 4096, Normal))
      ensures size % 4096 != 0 ==> State() == old(State())
    {
      hide MapPage, MapRange, PageOf, Num, AlignUp;
      MapRangeEmpty();
      if size % PAGESIZE > 0 {
        return;
      }
      var leftover, adr := size, address;
      ghost var n, f := size / 4096, address / 4096;
      while leftover > 0
        invariant Valid() && leftover == 4096 * n && adr == 4096 * f && f + n == address / 4096 + size / 4096
        invariant State().cur + 12 * n < PAGES
        invariant MapRange(State(), f, n, Normal) == old(MapRange(State(), address / 4096, size / 4096, Normal))
      {
        AlignedPage(f);
        MapRangeStep(State(), f, n, Normal);
        MmuMap4kb(PageOf(adr / 4096), PageOf(adr / 4096), Normal);
        leftover := leftover - 4096;
        adr := adr + 4096;
        n, f := n - 1, f + 1;
      }
    }

    // The size is a 32-bit number.  If it is not a multiple of the page size, the C loop never ends;
    // that outcome is `ends == false`, after which nothing is left to say about the memory.
    method RegisterDeviceMemory(address: nat, size: nat) returns (ends: bool)
      requires Valid() && size < W32
      requires size % 4096 == 0 ==> address % 4096 == 0 && address / 4096 + size / 4096 <= PAGES
      requires size % 4096 == 0 ==> State().cur + 12 * (size / 4096) < PAGES
      modifies this`ram, this`stuck, this`astray, this`currentFree, this`free
      ensures ends <==> Ends(size)
      ensures ends ==>
                && Valid() && size % 4096 == 0
                && State() == old(MapRange(State(), address / 4096, size / 4096, Device))
    {
      hide MapPage, MapRange, PageOf, Num, AlignUp, Ends;
      EndsExactly(size);
      ends := size % 4096 == 0;
      if !ends {
        return;
      }
      MapRangeEmpty();
      var leftover, adr := size, address;
      ghost var n, f := size / 4096, address / 4096;
      while leftover > 0
        invariant Valid() && leftover == 4096 * n && adr == 4096 * f && f + n == address / 4096 + size / 4096
        invariant State().cur + 12 * n < PAGES
        invariant MapRange(State(), f, n, Device) == old(MapRange(State(), address / 4096, size / 4096, Device))
      {
        AlignedPage(f);
        MapRangeStep(State(), f, n, Device);
        MmuMap4kb(PageOf(adr / 4096), PageOf(adr / 4096), Device);
        leftover := leftover - 4096;
        adr := adr + 4096;
        n, f := n - 1, f + 1;
      }
    }

    // init_mmu, up to the call of map_addr
    method InitTables()
      requires Valid()
      modifies this`ram, this`stuck, this`astray
      ensures Valid() && State() == old(Boot.InitTables(State()))
    {
      hide ZeroPage, Store;
      ZeroOutPage(ROOT);
      ZeroOutPage(INIT1);
      Write(ROOT, ROOT.i0, Word(true, INIT1, TABLE));
      ZeroOutPage(INIT2);
      Write(INIT1, ROOT.i1, Word(true, INIT2, TABLE));
      ZeroOutPage(INIT3);
      Write(INIT2, ROOT.i2, Word(true, INIT3, TABLE));
      Write(INIT3, 0, Word(true, ROOT, NORMAL));
      Write(INIT3, 1, Word(true, INIT1, NORMAL));
      Write(INIT3, 2, Word(true, INIT2, NORMAL));
      Write(INIT3, 3, Word(true, INIT3, NORMAL));
      Write(INIT3, 4, Word(true, TMP1, NORMAL));
      Write(INIT3, 5, Word(true, TMP2, NORMAL));
      Write(INIT3, 6, Word(true, TMP3, NORMAL));
    }

    method InitMmu()
      requires Valid() && Boot.KERNEL_START <= State().cur <= HEAP_END
      modifies this
      ensures Valid() && State() == old(Boot.InitMmu(State()))
      ensures old(Boot.BootReady(State())) ==> (Boot.BootEndsWell(old(free), State()) <==> Boot.BootPlaced(old(free)))
    {
      hide Boot.InitTables, MapRange, PageOf, Num, AlignUp, Boot.BootReady, Boot.BootEndsWell, Boot.BootPlaced;
      BootPromise(State());
      InitTables();
      AlignedPage(free - Boot.KERNEL_START);
      MapAddr(Boot.KERNEL_START * 4096, currentFree - Boot.KERNEL_START * 4096);
      EndsExactly(4096);
      var ends := RegisterDeviceMemory(Boot.UART * 4096, 4096);
      on := true;
    }

    // The address of the block; its pages are n = RoundSize(size) / 4096 from the old current_free on.
    method Kalloc(size: nat) returns (address: nat)
      requires Valid() && State().cur + 13 * (RoundSize(size) / 4096) < PAGES
      modifies this`ram, this`stuck, this`astray, this`currentFree, this`free
      ensures Valid() && address == old(currentFree)
      ensures State() == old(System.Kalloc(State(), RoundSize(size) / 4096))
      ensures var n := RoundSize(size) / 4096;
              old(KallocReady(State(), n)) ==>
                (KallocEndsWell(old(State()), n, State()) <==> FirstGapFree(old(ram), old(free) + n, old(free), n))
    {
      hide MapRange, ZeroPage, PageOf, Num, Store, Inv, KallocEndsWell, FirstGapFree, Gaps;
      KallocPromise(State(), RoundSize(size) / 4096);
      var aligned := RoundSize(size);
      RoundSizeIsNext(size);
      address := PallocPages(aligned);
      MapAddr(address, aligned);
      ghost var mapped := State();
      var clear, i := address / 4096, 0;
      while i < aligned / 4096
        invariant 0 <= i <= aligned / 4096 && Valid()
        invariant ClearRange(State(), clear + i, aligned / 4096 - i) == ClearRange(mapped, clear, aligned / 4096)
      {
        ZeroOutPage(PageOf(clear + i));
        i := i + 1;
      }
    }
  }
}
