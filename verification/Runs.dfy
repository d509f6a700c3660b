/** Whole runs: boot, then any sequence of allocations, device mappings and writes to allocated memory. */
module Runs {
  import opened Wrappers
  import opened Words
  import opened PageTable
  import opened Machine
  import opened Handover
  import opened Alloc
  import opened Mapping4K
  import opened MapPages
  import opened Exactness
  import opened Ranges
  import opened RangeConditions
  import opened UpperExactness
  import opened System

  datatype Region = Region(start: nat, pages: nat)

  // The machine, the blocks that kalloc has handed out and the device ranges that were registered.
  datatype Sys = Sys(m: Machine, regions: seq<Region>, devices: seq<Region>)

  datatype Op =
    | Allocate(pages: nat)                                        // kalloc
    | MapDevice(first: nat, count: nat)                           // register_device_memory
    | WriteData(region: nat, page: nat, i: Index, w: Word)        // a store to memory obtained from kalloc

  ghost predicate Registered(devices: seq<Region>, v: Page) {
    exists d :: d in devices && InRange(v, d.start, d.pages)
  }

  // Nothing is mapped but heap pages in use, as normal memory, and registered pages, as device
  // memory, all of them to themselves.
  ghost predicate Accounted(ram: Ram, cur: nat, devices: seq<Region>) {
    forall v :: Translate(ram, v).Some? ==>
           || (Mapped(ram, v) && HEAP_BASE <= Num(v) < cur)
           || (Translate(ram, v) == Some(Mapping(v, DEVICE)) && Registered(devices, v))
  }

  // Blocks never overlap: each starts after the end of every earlier one.
  ghost predicate RegionsApart(rs: seq<Region>) {
    forall i, j :: 0 <= i < j < |rs| ==> rs[i].start + rs[i].pages <= rs[j].start
  }

  ghost predicate RegionsBelow(rs: seq<Region>, cur: nat) {
    forall r :: r in rs ==> HEAP_BASE + 7 <= r.start && r.start + r.pages <= cur
  }

  ghost predicate SysInv(s: Sys) {
    && !s.m.stuck && !s.m.astray && Inv(s.m.ram, s.m.cur) && s.m.cur < PAGES && Settled(s.m.ram, s.m.cur)
    && RegionsApart(s.regions) && RegionsBelow(s.regions, s.m.cur)
    && (forall r :: r in s.regions ==> DataRange(s.m.ram, r.start, r.pages))
    && Accounted(s.m.ram, s.m.cur, s.devices)
  }

  // What the callers must respect: the heap does not run out, device ranges lie outside the heap's
  // gigabyte, writes go to allocated memory; and, for kalloc, the exact condition of KallocExact.
  ghost predicate Enabled(s: Sys, op: Op) {
    match op
    case Allocate(n) =>
      RoomFor(s.m, n) && s.m.cur + 13 * n + 12 < PAGES && FirstGapFree(s.m.ram, s.m.cur + n, s.m.cur, n)
    case MapDevice(first, count) =>
      && first + count <= PAGES && OutsideHeapGigabyte(first, count)
      && s.m.cur + 12 * count < PAGES && s.m.cur + 4 * |Gaps(s.m.ram, Touched(first, count))| <= HEAP_END
    case WriteData(r, p, _, _) => r < |s.regions| && p < s.regions[r].pages && s.regions[r].start + p < PAGES
  }

  function Apply(s: Sys, op: Op): Sys
    requires match op
             case Allocate(n) => s.m.cur + 13 * n < PAGES
             case MapDevice(first, count) => first + count <= PAGES && s.m.cur + 12 * count < PAGES
             case WriteData(r, p, _, _) => r < |s.regions| && s.regions[r].start + p < PAGES
  {
    match op
    case Allocate(n) => Sys(Kalloc(s.m, n), s.regions + [Region(s.m.cur, n)], s.devices)
    case MapDevice(first, count) =>
      Sys(MapRange(s.m, first, count, Device), s.regions, s.devices + [Region(first, count)])
    case WriteData(r, p, i, w) => Sys(Store(s.m, PageOf(s.regions[r].start + p), i, w), s.regions, s.devices)
  }

  lemma DataGrows(before: Ram, cur: nat, after: Ram, cur': nat, first: nat, count: nat)
    requires DataRange(before, first, count) && Grows(before, cur, after, cur') && first + count <= cur
    ensures DataRange(after, first, count)
  {
    hide Translate, TableAt;
    forall p | InRange(p, first, count)
      ensures Mapped(after, p) && Unreachable(after, p)
    {
      assert Mapped(before, p) && Unreachable(before, p);
      forall q
        ensures TableAt(after, q) != Some(p)
      {
        assert TableAt(before, q) != Some(p);
      }
    }
  }

  // The contents of the pages of a range stay.
  ghost predicate Untouched(before: Ram, after: Ram, first: nat, count: nat) {
    forall p :: InRange(p, first, count) ==> PageAt(after, p) == PageAt(before, p)
  }

  lemma SparesData(before: Ram, cur: nat, after: Ram, cur': nat, first: nat, count: nat)
    requires OthersSpared(before, cur, after, cur') && DataRange(before, first, count) && first + count <= cur
    requires HEAP_BASE + 7 <= first
    ensures Untouched(before, after, first, count)
  {
    hide Translate, TableAt;
  }

  // In every state that runs reach, the next block can be placed, so a single mapping fails only if
  // the page shares its missing window with that block.
  lemma MapExactInRuns(s: Sys, va: Page, pa: Page, k: Kind)
    requires SysInv(s) && MapReady(s.m, va)
    ensures Placeable(s.m.ram, s.m.cur)
    ensures MapGood(s.m, va, pa, k) <==>
            TableAt(s.m.ram, Window(va)).Some? || Window(va) != Window(PageOf(s.m.cur))
  {
    hide Inv, MapGood, PageOf, Num, Settled, Placeable, Accounted, Room, Allowed, TableAt, Translate;
    SettledPlaceable(s.m.ram, s.m.cur);
    MapExact(s.m, va, pa, k);
  }

  // ---- what is mapped ----

  lemma AccountedHeap(before: Ram, c0: nat, after: Ram, c1: nat, first: nat, count: nat, devices: seq<Region>)
    requires Accounted(before, c0, devices) && HEAP_BASE <= first && first + count <= c1 && c0 <= c1
    requires OnlyOwnPagesOutside(before, c0, after, c1, first, count) && HEAP_BASE <= c0
    requires forall v :: InRange(v, first, count) ==> Mapped(after, v)
    ensures Accounted(after, c1, devices)
  {
    hide Translate, Num, Registered;
    forall v | Translate(after, v).Some?
      ensures (Mapped(after, v) && HEAP_BASE <= Num(v) < c1) ||
              (Translate(after, v) == Some(Mapping(v, DEVICE)) && Registered(devices, v))
    {
      if !InRange(v, first, count) && Translate(after, v) == Translate(before, v) {
        assert Translate(before, v).Some?;
      }
    }
  }

  lemma OneRegistered(ds: seq<Region>, i: nat, v: Page)
    requires i < |ds| && InRange(v, ds[i].start, ds[i].pages)
    ensures Registered(ds, v)
  {
    assert ds[i] in ds;
  }

  lemma MoreRegistered(ds: seq<Region>, d: Region, v: Page)
    ensures Registered(ds, v) ==> Registered(ds + [d], v)
  {
    if Registered(ds, v) {
      var e :| e in ds && InRange(v, e.start, e.pages);
      assert e in ds + [d];
    }
  }

  // Every page of the range is device memory, mapped to itself.
  ghost predicate RangeDevice(ram: Ram, first: nat, count: nat) {
    forall v :: InRange(v, first, count) ==> Translate(ram, v) == Some(Mapping(v, DEVICE))
  }

  lemma AccountedDevice(before: Ram, c0: nat, after: Ram, c1: nat, first: nat, count: nat, devices: seq<Region>)
    requires Accounted(before, c0, devices) && OutsideHeapGigabyte(first, count)
    requires OnlyOwnPagesOutside(before, c0, after, c1, first, count) && HEAP_BASE <= c0 <= c1 && c0 <= HEAP_END
    requires RangeTranslated(before, after, first, count, Device)
    ensures Accounted(after, c1, devices + [Region(first, count)]) && RangeDevice(after, first, count)
  {
    hide Translate, Num, Registered;
    var ds := devices + [Region(first, count)];
    forall v | InRange(v, first, count)
      ensures Translate(after, v) == Some(Mapping(v, DEVICE)) && Registered(ds, v)
    {
      OneRegistered(ds, |devices|, v);
      assert Translate(before, v).Some? ==> Translate(before, v) == Some(Mapping(v, DEVICE));
    }
    forall v | Translate(after, v).Some?
      ensures (Mapped(after, v) && HEAP_BASE <= Num(v) < c1) ||
              (Translate(after, v) == Some(Mapping(v, DEVICE)) && Registered(ds, v))
    {
      if !InRange(v, first, count) && Translate(after, v) == Translate(before, v) {
        assert Translate(before, v).Some?;
        MoreRegistered(devices, Region(first, count), v);
      }
    }
  }

  // ---- kalloc ----

  lemma AccountedPalloc(ram: Ram, cur: nat, n: nat, devices: seq<Region>)
    requires Accounted(ram, cur, devices)
    ensures Accounted(ram, cur + n, devices)
  {
    hide Translate, Num, Registered;
  }

  // Tables and translations that exist stay as they are.
  ghost predicate AddsOnly(m: Machine, r: Machine) {
    && (forall q :: TableAt(m.ram, q).Some? ==> TableAt(r.ram, q) == TableAt(m.ram, q))
    && (forall v :: Translate(m.ram, v).Some? ==> Translate(r.ram, v) == Translate(m.ram, v))
  }

  lemma AddsOnlyLater(m: Machine, n: nat, r: Machine)
    requires Grows(m.ram, m.cur + n, r.ram, r.cur)
    ensures AddsOnly(m, r)
  {
  }

  lemma RegionBelow(rs: seq<Region>, cur: nat, r: Region)
    requires RegionsBelow(rs, cur) && r in rs
    ensures HEAP_BASE + 7 <= r.start && r.start + r.pages <= cur
  {
  }

  lemma RegionsGrow(rs: seq<Region>, cur: nat, n: nat, cur': nat)
    requires RegionsApart(rs) && RegionsBelow(rs, cur) && HEAP_BASE + 7 <= cur && cur + n <= cur'
    ensures RegionsApart(rs + [Region(cur, n)]) && RegionsBelow(rs + [Region(cur, n)], cur')
  {
    var ts := rs + [Region(cur, n)];
    forall i, j | 0 <= i < j < |ts|
      ensures ts[i].start + ts[i].pages <= ts[j].start
    {
      if j == |rs| {
        assert rs[i] in rs;
      }
    }
  }

  lemma LastIndex(c: nat)
    requires 0 < c < PAGES && c % 512 > 3
    ensures PageOf(c - 1).i3 + 1 < 512
  {
  }

  lemma SettledAfterKalloc(m: Machine, r: Machine, n: nat)
    requires m.cur + n < PAGES && r.cur < PAGES && Settled(m.ram, m.cur) && Grows(m.ram, m.cur + n, r.ram, r.cur)
    requires DataRange(r.ram, m.cur, n) && (r.cur == m.cur + n || Advanced(m.cur + n, r.ram, r.cur))
    ensures Settled(r.ram, r.cur)
  {
    hide PageOf;
    if r.cur == m.cur + n && n > 0 && r.cur % 512 > 3 {
      var last := PageOf(r.cur - 1);
      assert InRange(last, m.cur, n);
      assert Mapped(r.ram, last);
      LastIndex(r.cur);
      SameWindow(last, PageOf(r.cur), 1);
    }
  }

  lemma AllocateKeeps(s: Sys, n: nat)
    requires SysInv(s) && Enabled(s, Allocate(n))
    ensures var t := Apply(s, Allocate(n));
            && SysInv(t) && t.m.on == s.m.on && AddsOnly(s.m, t.m)
            && DataRange(t.m.ram, s.m.cur, n) && ZeroRange(t.m.ram, s.m.cur, n)
            && (forall r :: r in s.regions ==> Untouched(s.m.ram, t.m.ram, r.start, r.pages))
  {
    hide Inv, FirstGapFree, Gaps, Kalloc, Num, PageOf, TableAt, Grows, Settled, OthersSpared, OnlyOwnPagesOutside;
    hide ZeroRange, Untouched, RegionsApart, RegionsBelow, Advanced, Accounted, Translate;
    var t := Apply(s, Allocate(n));
    KallocKeeps(s.m, n);
    CurBounds(s.m);
    CurBounds(t.m);
    SettledAfterKalloc(s.m, t.m, n);
    RegionsGrow(s.regions, s.m.cur, n, t.m.cur);
    forall r | r in t.regions
      ensures DataRange(t.m.ram, r.start, r.pages)
    {
      if r in s.regions {
        RegionBelow(s.regions, s.m.cur, r);
        DataGrows(s.m.ram, s.m.cur + n, t.m.ram, t.m.cur, r.start, r.pages);
      }
    }
    forall r | r in s.regions
      ensures Untouched(s.m.ram, t.m.ram, r.start, r.pages)
    {
      RegionBelow(s.regions, s.m.cur, r);
      SparesData(s.m.ram, s.m.cur, t.m.ram, t.m.cur, r.start, r.pages);
    }
    AddsOnlyLater(s.m, n, t.m);
    AccountedPalloc(s.m.ram, s.m.cur, n, s.devices);
    AccountedHeap(s.m.ram, s.m.cur + n, t.m.ram, t.m.cur, s.m.cur, n, s.devices);
  }

  // The condition on allocations is exact: without it the call faults or leaves a broken tree.
  lemma AllocateExact(s: Sys, n: nat)
    requires SysInv(s) && KallocReady(s.m, n)
    ensures SysInv(Apply(s, Allocate(n))) <==> FirstGapFree(s.m.ram, s.m.cur + n, s.m.cur, n)
  {
    hide Inv, FirstGapFree, Gaps, Kalloc, KallocEndsWell, Translate, TableAt, Settled, Accounted, Untouched, PageOf;
    hide RegionsApart, RegionsBelow, DataRange, ZeroRange, Num;
    if FirstGapFree(s.m.ram, s.m.cur + n, s.m.cur, n) {
      AllocateKeeps(s, n);
    } else {
      KallocExact(s.m, n);
    }
  }

  // ---- register_device_memory ----

  lemma SettledAfterRange(m: Machine, r: Machine)
    requires m.cur < PAGES && r.cur < PAGES && Settled(m.ram, m.cur) && Grows(m.ram, m.cur, r.ram, r.cur)
    requires r.cur == m.cur || Advanced(m.cur, r.ram, r.cur)
    ensures Settled(r.ram, r.cur)
  {
  }

  lemma RegionsStay(rs: seq<Region>, cur: nat, cur': nat)
    requires RegionsBelow(rs, cur) && cur <= cur'
    ensures RegionsBelow(rs, cur')
  {
  }

  lemma MapDeviceKeeps(s: Sys, first: nat, count: nat)
    requires SysInv(s) && Enabled(s, MapDevice(first, count))
    ensures var t := Apply(s, MapDevice(first, count));
            && SysInv(t) && t.m.on == s.m.on && AddsOnly(s.m, t.m)
            && RangeDevice(t.m.ram, first, count)
            && (forall r :: r in s.regions ==> Untouched(s.m.ram, t.m.ram, r.start, r.pages))
  {
    hide Inv, RangeMappable, Gaps, MapRange, Num, PageOf, TableAt, Grows, Settled, OthersSpared, OnlyOwnPagesOutside;
    hide DataRange, Untouched, RegionsApart, RegionsBelow, Advanced, RangeTranslated, RangeTables, Accounted;
    hide RangeDevice;
    var t := Apply(s, MapDevice(first, count));
    CurBounds(s.m);
    DeviceMappable(s.m, first, count, Device);
    RangeKeeps(s.m, first, count, Device);
    CurBounds(t.m);
    SettledAfterRange(s.m, t.m);
    RegionsStay(s.regions, s.m.cur, t.m.cur);
    forall r | r in s.regions
      ensures DataRange(t.m.ram, r.start, r.pages) && Untouched(s.m.ram, t.m.ram, r.start, r.pages)
    {
      RegionBelow(s.regions, s.m.cur, r);
      DataGrows(s.m.ram, s.m.cur, t.m.ram, t.m.cur, r.start, r.pages);
      SparesData(s.m.ram, s.m.cur, t.m.ram, t.m.cur, r.start, r.pages);
    }
    AddsOnlyLater(s.m, 0, t.m);
    AccountedDevice(s.m.ram, s.m.cur, t.m.ram, t.m.cur, first, count, s.devices);
  }

  // ---- writes to allocated memory ----

  lemma WriteEffect(m: Machine, page: Page, i: Index, w: Word)
    requires !m.stuck && Inv(m.ram, m.cur) && Mapped(m.ram, page) && Unreachable(m.ram, page) && Num(page) < m.cur
    ensures var t := Store(m, page, i, w);
            && !t.stuck && t.astray == m.astray && Inv(t.ram, t.cur) && SameTree(m.ram, t.ram)
            && OnlyPage(m.ram, t.ram, page) && PageAt(t.ram, page) == PageAt(m.ram, page)[i := w]
  {
    hide Inv;
    var t := Store(m, page, i, w);
    FrameOnly(m.ram, t.ram, page);
    InvSameTree(m.ram, t.ram, m.cur);
  }

  lemma SettledSameTree(m: Machine, t: Machine)
    requires m.cur < PAGES && t.cur == m.cur && Settled(m.ram, m.cur) && SameTree(m.ram, t.ram)
    ensures Settled(t.ram, t.cur)
  {
  }

  lemma AccountedSameTree(m: Machine, t: Machine, devices: seq<Region>)
    requires t.cur == m.cur && SameTree(m.ram, t.ram) && Accounted(m.ram, m.cur, devices)
    ensures Accounted(t.ram, t.cur, devices)
  {
    hide Translate, TableAt, Num, Registered;
  }

  lemma WriteDataKeeps(s: Sys, k: nat, p: nat, i: Index, w: Word)
    requires SysInv(s) && Enabled(s, WriteData(k, p, i, w))
    ensures var t := Apply(s, WriteData(k, p, i, w));
            var page := PageOf(s.regions[k].start + p);
            && SysInv(t) && t.m.on == s.m.on && SameTree(s.m.ram, t.m.ram)
            && OnlyPage(s.m.ram, t.m.ram, page) && PageAt(t.m.ram, page) == PageAt(s.m.ram, page)[i := w]
  {
    hide Inv, PageOf, TableAt, Translate, Settled, RegionsApart, RegionsBelow;
    var r := s.regions[k];
    var page := PageOf(r.start + p);
    assert r in s.regions;
    assert InRange(page, r.start, r.pages);
    RegionBelow(s.regions, s.m.cur, r);
    WriteEffect(s.m, page, i, w);
    var t := Store(s.m, page, i, w);
    SettledSameTree(s.m, t);
    AccountedSameTree(s.m, t, s.devices);
    hide Num;
    forall o | o in s.regions
      ensures DataRange(t.ram, o.start, o.pages)
    {
      assert DataRange(s.m.ram, o.start, o.pages);
    }
  }

  // ---- runs ----

  ghost predicate RunEnabled(s: Sys, ops: seq<Op>)
    decreases |ops|
  {
    ops == [] || (Enabled(s, ops[0]) && RunEnabled(Apply(s, ops[0]), ops[1..]))
  }

  ghost function Run(s: Sys, ops: seq<Op>): Sys
    requires RunEnabled(s, ops)
    decreases |ops|
  {
    if ops == [] then s else Run(Apply(s, ops[0]), ops[1..])
  }

  // The device ranges that a run registers.
  function Registrations(ops: seq<Op>): seq<Region> {
    if ops == [] then []
    else (if ops[0].MapDevice? then [Region(ops[0].first, ops[0].count)] else []) + Registrations(ops[1..])
  }

  lemma StepKeeps(s: Sys, op: Op)
    requires SysInv(s) && Enabled(s, op)
    ensures SysInv(Apply(s, op)) && Apply(s, op).m.on == s.m.on && AddsOnly(s.m, Apply(s, op).m)
  {
    hide SysInv, Enabled, Untouched, DataRange, ZeroRange, RangeDevice, TableAt, Translate;
    match op
    case Allocate(n) => AllocateKeeps(s, n);
    case MapDevice(first, count) => MapDeviceKeeps(s, first, count);
    case WriteData(k, p, i, w) => WriteDataKeeps(s, k, p, i, w);
  }

  lemma {:induction false} RunDevices(s: Sys, ops: seq<Op>)
    requires RunEnabled(s, ops)
    ensures Run(s, ops).devices == s.devices + Registrations(ops)
    decreases |ops|
  {
    hide Gaps, FirstGapFree, Kalloc, MapRange, Store, RoomFor;
    if ops != [] {
      var t := Apply(s, ops[0]);
      RunDevices(t, ops[1..]);
      var d := if ops[0].MapDevice? then [Region(ops[0].first, ops[0].count)] else [];
      assert t.devices == s.devices + d;
      assert (s.devices + d) + Registrations(ops[1..]) == s.devices + (d + Registrations(ops[1..]));
    }
  }

  lemma {:induction false} RunKeeps(s: Sys, ops: seq<Op>)
    requires SysInv(s) && RunEnabled(s, ops)
    ensures SysInv(Run(s, ops)) && Run(s, ops).m.on == s.m.on && AddsOnly(s.m, Run(s, ops).m)
    ensures Run(s, ops).devices == s.devices + Registrations(ops)
    decreases |ops|
  {
    hide SysInv, Apply, TableAt, Translate, Gaps, FirstGapFree, Registrations;
    RunDevices(s, ops);
    if ops != [] {
      StepKeeps(s, ops[0]);
      RunKeeps(Apply(s, ops[0]), ops[1..]);
    }
  }
}
