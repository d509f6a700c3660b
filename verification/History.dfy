/** What whole runs leave behind: the contents of every block, and where small allocations end up. */
module History {
  import opened Wrappers
  import opened Words
  import opened PageTable
  import opened Machine
  import opened Handover
  import opened Alloc
  import opened Mapping4K
  import opened MapPages
  import opened Exactness
  import opened Ranges
  import opened RangeConditions
  import opened Spoiled
  import opened System
  import opened Runs

  // ---- contents ----

  // A page that holds t, after the writes of a run to page p of block k, and to no other.
  function Written(ops: seq<Op>, k: nat, p: nat, t: Table): Table {
    if ops == [] then t
    else match ops[0]
      case WriteData(r, q, i, w) => Written(ops[1..], k, p, if r == k && q == p then t[i := w] else t)
      case _ => Written(ops[1..], k, p, t)
  }

  // What page p of block k holds before a run; a block that does not exist yet will start with zeros.
  function Initially(s: Sys, k: nat, p: nat): Table {
    if k < |s.regions| && s.regions[k].start + p < PAGES then PageAt(s.m.ram, PageOf(s.regions[k].start + p)) else ZEROS
  }

  // Blocks keep their place.
  lemma {:induction false} RegionsStayPut(s: Sys, ops: seq<Op>)
    requires RunEnabled(s, ops)
    ensures |s.regions| <= |Run(s, ops).regions| && Run(s, ops).regions[..|s.regions|] == s.regions
    decreases |ops|
  {
    hide Gaps, FirstGapFree, Kalloc, MapRange, Store, RoomFor;
    if ops != [] {
      var t := Apply(s, ops[0]);
      RegionsStayPut(t, ops[1..]);
      assert t.regions[..|s.regions|] == s.regions;
      assert Run(t, ops[1..]).regions[..|s.regions|] == Run(t, ops[1..]).regions[..|t.regions|][..|s.regions|];
    }
  }

  ghost predicate InBlock(s: Sys, k: nat, p: nat) {
    k < |s.regions| && p < s.regions[k].pages
  }

  lemma BlockPage(s: Sys, k: nat, p: nat)
    requires SysInv(s) && InBlock(s, k, p)
    ensures s.regions[k].start + p < s.m.cur <= HEAP_END
    ensures Num(PageOf(s.regions[k].start + p)) == s.regions[k].start + p
    ensures InRange(PageOf(s.regions[k].start + p), s.regions[k].start, s.regions[k].pages)
  {
    hide Inv, Settled, Accounted, DataRange;
    CurBounds(s.m);
    assert s.regions[k] in s.regions;
  }

  // Different pages of blocks are different pages.
  lemma PagesDiffer(s: Sys, k: nat, p: nat, l: nat, q: nat)
    requires SysInv(s) && InBlock(s, k, p) && InBlock(s, l, q) && (k != l || p != q)
    ensures PageOf(s.regions[k].start + p) != PageOf(s.regions[l].start + q)
  {
    hide Inv, Settled, Accounted, DataRange, PageOf, Num;
    BlockPage(s, k, p);
    BlockPage(s, l, q);
    if k < l {
      assert s.regions[k].start + s.regions[k].pages <= s.regions[l].start;
    } else if l < k {
      assert s.regions[l].start + s.regions[l].pages <= s.regions[k].start;
    }
  }

  // One step, on the blocks that exist after it.
  lemma StepContents(s: Sys, op: Op, k: nat, p: nat)
    requires SysInv(s) && Enabled(s, op) && SysInv(Apply(s, op)) && InBlock(Apply(s, op), k, p)
    ensures Initially(Apply(s, op), k, p) == Written([op], k, p, Initially(s, k, p))
  {
    hide SysInv, Gaps, FirstGapFree, Kalloc, MapRange, Store, RoomFor, PageOf, ZEROS;
    var t := Apply(s, op);
    BlockPage(t, k, p);
    var page := PageOf(t.regions[k].start + p);
    match op
    case Allocate(n) =>
      AllocateKeeps(s, n);
      if k < |s.regions| {
        assert s.regions[k] in s.regions;
      } else {
        assert InRange(page, s.m.cur, n);
      }
    case MapDevice(first, count) =>
      MapDeviceKeeps(s, first, count);
      assert s.regions[k] in s.regions;
    case WriteData(r, q, i, w) =>
      WriteDataKeeps(s, r, q, i, w);
      if r != k || q != p {
        PagesDiffer(s, k, p, r, q);
      }
  }

  lemma WrittenStep(ops: seq<Op>, k: nat, p: nat, t: Table)
    requires ops != []
    ensures Written(ops, k, p, t) == Written(ops[1..], k, p, Written([ops[0]], k, p, t))
  {
  }

  // No write goes to a block before it exists.
  lemma NotYet(s: Sys, op: Op, k: nat, p: nat, t: Table)
    requires Enabled(s, op) && k >= |s.regions|
    ensures Written([op], k, p, t) == t
  {
    hide Gaps, FirstGapFree, RoomFor;
  }

  lemma HoldsNow(s: Sys, k: nat, p: nat)
    requires InBlock(s, k, p) && s.regions[k].start + p < PAGES
    ensures Initially(s, k, p) == PageAt(s.m.ram, PageOf(s.regions[k].start + p))
    ensures Written([], k, p, Initially(s, k, p)) == Initially(s, k, p)
  {
  }

  lemma NotThere(s: Sys, op: Op, k: nat, p: nat)
    requires Enabled(s, op) && k >= |Apply(s, op).regions|
    ensures Initially(Apply(s, op), k, p) == Written([op], k, p, Initially(s, k, p)) == Initially(s, k, p)
  {
    hide Gaps, FirstGapFree, RoomFor, Kalloc, MapRange, Store;
    NotYet(s, op, k, p, Initially(s, k, p));
  }

  // At the end of a run every page of every block holds what it held before (zeros, if the block was
  // allocated in the run), changed by exactly the writes of the run to that page.
  lemma {:induction false} RunContents(s: Sys, ops: seq<Op>, k: nat, p: nat)
    requires SysInv(s) && RunEnabled(s, ops) && InBlock(Run(s, ops), k, p)
    ensures SysInv(Run(s, ops)) && Run(s, ops).regions[k].start + p < PAGES
    ensures var r := Run(s, ops);
            PageAt(r.m.ram, PageOf(r.regions[k].start + p)) == Written(ops, k, p, Initially(s, k, p))
    decreases |ops|
  {
    hide SysInv, Apply, Gaps, RoomFor, FirstGapFree, Touched, Initially, PageOf, ZEROS, Written;
    RunKeeps(s, ops);
    BlockPage(Run(s, ops), k, p);
    if ops == [] {
      HoldsNow(s, k, p);
    } else {
      var t := Apply(s, ops[0]);
      StepKeeps(s, ops[0]);
      RunContents(t, ops[1..], k, p);
      RegionsStayPut(t, ops[1..]);
      WrittenStep(ops, k, p, Initially(s, k, p));
      if k < |t.regions| {
        assert t.regions[k] == Run(s, ops).regions[k];
        StepContents(s, ops[0], k, p);
      } else {
        NotThere(s, ops[0], k, p);
      }
    }
  }

  // ---- small allocations ----

  // The allocation pointer is in 2 MB window c of the heap, or at its end, and the window has a table.
  ghost predicate Under(s: Sys, c: Index) {
    TableAt(s.m.ram, L3(0, 1, c)).Some? && HEAP_BASE + 512 * c <= s.m.cur <= HEAP_BASE + 512 * (c + 1)
  }

  lemma WindowOf(n: nat, c: Index)
    requires HEAP_BASE + 512 * c <= n < HEAP_BASE + 512 * (c + 1) && n < HEAP_END
    ensures Window(PageOf(n)) == L3(0, 1, c)
  {
    HeapShape(n);
  }

  // Pages of a window that has its table are no gaps.
  lemma {:induction false} OneTable(ram: Ram, cur: nat, c: Index, first: nat, count: nat)
    requires TableAt(ram, L3(0, 1, c)).Some? && cur < PAGES
    requires HEAP_BASE + 512 * c <= first && first + count <= HEAP_BASE + 512 * (c + 1) && first + count <= HEAP_END
    ensures FirstGapFree(ram, cur, first, count) && Gaps(ram, Touched(first, count)) == {}
    decreases count
  {
    hide PageOf, TableAt;
    if count > 0 {
      WindowOf(first, c);
      Ancestors(ram, PageOf(first));
      OneTable(ram, cur, c, first + 1, count - 1);
    }
  }

  // A range that runs from window c into the next one, together with the next free page.
  lemma {:induction false} GapAhead(ram: Ram, cur: nat, c: Index, first: nat, count: nat)
    requires TableAt(ram, L3(0, 1, c)).Some? && c < 127 && TableAt(ram, L3(0, 1, c + 1)) == None
    requires HEAP_BASE + 512 * c <= first <= HEAP_BASE + 512 * (c + 1) < first + count
    requires cur == first + count < HEAP_BASE + 512 * (c + 2)
    ensures !FirstGapFree(ram, cur, first, count)
    decreases count
  {
    hide PageOf, TableAt, Placeable;
    if first == HEAP_BASE + 512 * (c + 1) {
      WindowOf(first, c + 1);
      WindowOf(cur, c + 1);
    } else {
      WindowOf(first, c);
      GapAhead(ram, cur, c, first + 1, count - 1);
    }
  }

  lemma NextBare(ram: Ram, cur: nat, c: Index)
    requires Inv(ram, cur) && c < 127 && cur <= HEAP_BASE + 512 * (c + 1)
    ensures TableAt(ram, L3(0, 1, c + 1)) == None
  {
    hide TableAt, Translate, Num;
  }

  lemma RoomHere(m: Machine, n: nat)
    requires KallocReady(m, n)
    ensures m.cur + n <= HEAP_END
  {
  }

  // Fewer than 512 pages meet the condition of kalloc exactly if they fit into the rest of the window;
  // then they cost no tables.
  lemma SmallExact(s: Sys, c: Index, n: nat)
    requires SysInv(s) && Under(s, c) && 1 <= n < 512 && KallocReady(s.m, n)
    ensures FirstGapFree(s.m.ram, s.m.cur + n, s.m.cur, n) <==> s.m.cur + n <= HEAP_BASE + 512 * (c + 1)
    ensures s.m.cur + n <= HEAP_BASE + 512 * (c + 1) ==> Kalloc(s.m, n).cur == s.m.cur + n
  {
    hide Inv, Gaps, Kalloc, TableAt, Touched, Settled, Accounted, RegionsApart, RegionsBelow, DataRange, FirstGapFree;
    if s.m.cur + n <= HEAP_BASE + 512 * (c + 1) {
      OneTable(s.m.ram, s.m.cur + n, c, s.m.cur, n);
      KallocKeeps(s.m, n);
    } else {
      RoomHere(s.m, n);
      NextBare(s.m.ram, s.m.cur, c);
      GapAhead(s.m.ram, s.m.cur + n, c, s.m.cur, n);
    }
  }

  // Writes, and allocations of fewer than 512 pages.
  predicate Small(ops: seq<Op>) {
    forall op :: op in ops ==> op.WriteData? || (op.Allocate? && op.pages < 512)
  }

  lemma ReadyHere(s: Sys, n: nat)
    requires SysInv(s) && Enabled(s, Allocate(n))
    ensures KallocReady(s.m, n)
  {
    hide Inv, Gaps, FirstGapFree;
  }

  lemma NoPages(m: Machine)
    requires m.cur < PAGES
    ensures Kalloc(m, 0) == m
  {
  }

  lemma AllocateUnder(s: Sys, n: nat, c: Index)
    requires SysInv(s) && Under(s, c) && Enabled(s, Allocate(n)) && n < 512
    ensures HEAP_BASE + 512 * c <= Kalloc(s.m, n).cur <= HEAP_BASE + 512 * (c + 1)
  {
    hide SysInv, Gaps, Kalloc, TableAt, FirstGapFree, RoomFor, PageOf;
    ReadyHere(s, n);
    if n > 0 {
      SmallExact(s, c, n);
    } else {
      NoPages(s.m);
    }
  }

  lemma StepUnder(s: Sys, op: Op, c: Index)
    requires SysInv(s) && Under(s, c) && Enabled(s, op) && Small([op])
    ensures Under(Apply(s, op), c)
  {
    hide SysInv, Gaps, Kalloc, Store, TableAt, FirstGapFree, RoomFor, PageOf, Translate;
    assert op in [op];
    StepKeeps(s, op);
    assert TableAt(Apply(s, op).m.ram, L3(0, 1, c)).Some?;
    if op.Allocate? {
      AllocateUnder(s, op.pages, c);
    }
  }

  lemma SmallParts(ops: seq<Op>)
    requires ops != [] && Small(ops)
    ensures Small([ops[0]]) && Small(ops[1..])
  {
    assert ops[0] in ops;
    assert forall op :: op in ops[1..] ==> op in ops;
  }

  // Without device mappings, small allocations never get past the end of the window in which they began.
  lemma {:induction false} SmallRunStays(s: Sys, ops: seq<Op>, c: Index)
    requires SysInv(s) && Under(s, c) && RunEnabled(s, ops) && Small(ops)
    ensures Under(Run(s, ops), c)
    decreases |ops|
  {
    hide SysInv, Under, Apply, Gaps, RoomFor, FirstGapFree, Touched;
    if ops != [] {
      SmallParts(ops);
      StepKeeps(s, ops[0]);
      StepUnder(s, ops[0], c);
      SmallRunStays(Apply(s, ops[0]), ops[1..], c);
    }
  }
}
