/** The bump allocator, in bytes. */
module PageAllocator {
  const PAGESIZE: nat := 0x1000
  const WINDOW: nat := 0x20_0000   // BLOCK_SIZE_L2

  // allign_addr(p, PAGESIZE): adding 4095 and clearing the low 12 bits
  function AlignUp(p: nat): nat {
    (p + (PAGESIZE - 1)) / PAGESIZE * PAGESIZE
  }

  // allign(size)
  function RoundSize(size: nat): nat {
    if size % 4096 > 0 then size + 4096 - size % 4096 else size
  }

  // What an allocation returns, and the new value of current_free.
  datatype Allocation = Allocation(start: nat, next: nat)

  function Palloc(free: nat, size: nat): Allocation {
    Allocation(AlignUp(free), AlignUp(free) + RoundSize(size))
  }

  // The start of the next 2 MB window
  function NextWindow(start: nat): nat { (start + WINDOW) / WINDOW * WINDOW }

  // palloc_continuous_block as written: the space left, a number of bytes, is compared with a
  // number of pages.
  function PallocContinuous(free: nat, pages: nat): Allocation {
    var start := AlignUp(free);
    var left := WINDOW - start % WINDOW;
    if pages > 4096 then Allocation(start, start)
    else if left >= pages then Allocation(start, start + pages * 4096)
    else Allocation(NextWindow(start), NextWindow(start) + pages * 4096)
  }

  // The block lies in the 2 MB window of its first page, so one level 3 table can map it.
  predicate InOneWindow(start: nat, pages: nat) {
    start % WINDOW + pages * 4096 <= WINDOW
  }

  lemma AlignUpIsNext(p: nat)
    ensures AlignUp(p) % 4096 == 0 && p <= AlignUp(p) < p + 4096
    ensures forall q: nat :: q % 4096 == 0 && p <= q ==> AlignUp(p) <= q
  {
    forall q: nat | q % 4096 == 0 && p <= q
      ensures AlignUp(p) <= q
    {
      assert q == 4096 * (q / 4096);
    }
  }

  lemma RoundSizeIsNext(size: nat)
    ensures RoundSize(size) % 4096 == 0 && size <= RoundSize(size) < size + 4096
    ensures RoundSize(size) == AlignUp(size)
  {
  }

  // Byte and page position of an aligned address in its window.
  lemma InWindow(start: nat)
    requires start % 4096 == 0
    ensures start % WINDOW == start / 4096 % 512 * 4096
  {
    var p := start / 4096;
    assert start == 4096 * p;
    assert p == 512 * (p / 512) + p % 512;
    assert start == WINDOW * (p / 512) + p % 512 * 4096;
  }

  // The skip to the next window is never taken, so the block starts at the pointer however little
  // of the window is left.
  lemma NeverSkips(free: nat, pages: nat)
    ensures pages > 4096 ==> PallocContinuous(free, pages) == Allocation(AlignUp(free), AlignUp(free))
    ensures pages <= 4096 ==> PallocContinuous(free, pages) == Allocation(AlignUp(free), AlignUp(free) + pages * 4096)
    ensures InOneWindow(PallocContinuous(free, pages).start, pages) <==> AlignUp(free) / 4096 % 512 + pages <= 512
  {
    AlignUpIsNext(free);
    InWindow(AlignUp(free));
  }

  // Not in the source: the same procedure with the space left counted in pages.
  function PallocContinuousRepaired(free: nat, pages: nat): Allocation {
    var start := AlignUp(free);
    var left := (WINDOW - start % WINDOW) / 4096;
    if pages > 512 then Allocation(start, start)
    else if left >= pages then Allocation(start, start + pages * 4096)
    else Allocation(NextWindow(start), NextWindow(start) + pages * 4096)
  }

  lemma PageMultiple(n: nat)
    ensures (4096 * n) % 4096 == 0
  {
  }

  lemma WindowMultiple(k: nat)
    ensures (k * WINDOW) % WINDOW == 0 && (k * WINDOW) % 4096 == 0
  {
    PageMultiple(512 * k);
  }

  lemma SkipToWindow(start: nat)
    requires start % 4096 == 0
    ensures start < NextWindow(start) <= start + WINDOW
    ensures NextWindow(start) % WINDOW == 0 && NextWindow(start) % 4096 == 0
  {
    var q := start / WINDOW;
    assert start == WINDOW * q + start % WINDOW;
    assert (start + WINDOW) / WINDOW == q + 1;
    WindowMultiple(q + 1);
  }

  // What palloc_continuous_block is meant to do: a block in one window, above everything allocated
  // before, and no further on than necessary.
  lemma RepairedFits(free: nat, pages: nat)
    requires pages <= 512
    ensures var a := PallocContinuousRepaired(free, pages);
            && a.start % 4096 == 0 && free <= a.start && a.next == a.start + pages * 4096
            && InOneWindow(a.start, pages)
            && (InOneWindow(AlignUp(free), pages) ==> a == PallocContinuous(free, pages))
            && (!InOneWindow(AlignUp(free), pages) ==>
                  AlignUp(free) < a.start <= AlignUp(free) + WINDOW && a.start % WINDOW == 0)
  {
    var start := AlignUp(free);
    AlignUpIsNext(free);
    InWindow(start);
    NeverSkips(free, pages);
    SkipToWindow(start);
    hide AlignUp, NextWindow;
  }
}
