/** What a prefetchable register's memory looks like once alloc_bar_memory has asked for its mapping. */
module BarMemory {
  import opened Wrappers
  import opened Arithmetic
  import opened Words
  import opened PageTable
  import opened Machine
  import opened MapPages
  import opened Ranges
  import opened RangeConditions
  import opened Runs
  import opened Handover
  import Bars
  import DeviceLoop

  lemma Extent(k: nat)
    requires 12 <= k <= 31
    ensures var first := Bars.Window(Pow2(k)) / 4096;
            var count := Pow2(k) / 4096;
            && Bars.Window(Pow2(k)) == 4096 * first && Pow2(k) == 4096 * count
            && 0x800_0000 <= first && count < 0x10_0000 && first + count < PAGES
  {
    hide Pow2;
    Bars.AcceptedExactly(k);
    Bars.Pow2Values();
    Bars.Grows(k, 32);
    Bars.MappedSize(k);
  }

  // The pages of a register of up to 2 GB.
  function Area(k: nat): (r: Region)
    requires 12 <= k <= 31
    ensures Bars.Window(Pow2(k)) == 4096 * r.start && Pow2(k) == 4096 * r.pages
    ensures 0x800_0000 <= r.start && r.pages < 0x10_0000 && r.start + r.pages < PAGES
  {
    Extent(k);
    Region(Bars.Window(Pow2(k)) / 4096, Pow2(k) / 4096)
  }

  // The heap has the tables that the request needs.
  ghost predicate RoomForArea(s: Sys, k: nat) {
    12 <= k <= 31 ==> s.m.cur + 4 * |Gaps(s.m.ram, Touched(Area(k).start, Area(k).pages))| <= HEAP_END
  }

  // The address is one of the 48-bit address space, and is mapped to itself as device memory.
  ghost predicate Reached(ram: Ram, x: nat) {
    x / 4096 < PAGES && Translate(ram, PageOf(x / 4096)) == Some(Mapping(PageOf(x / 4096), DEVICE))
  }

  // register_device_memory with a request whose loop ends; a size of 0 is no turn.
  ghost predicate Servable(s: Sys, r: Bars.Request) {
    r.size == 0 || (r.size % 4096 == 0 && Enabled(s, MapDevice(r.address / 4096, r.size / 4096)))
  }

  ghost function Serve(s: Sys, r: Bars.Request): Sys
    requires Servable(s, r)
  {
    if r.size == 0 then s else Apply(s, MapDevice(r.address / 4096, r.size / 4096))
  }

  // alloc_bar_memory returns an address at which every byte of the register can be reached.
  ghost predicate Usable(s: Sys, size: nat) {
    match Bars.Placement(size)
    case Placed(a, request) =>
      Servable(s, request) && forall x: nat :: a <= x < a + size ==> Reached(Serve(s, request).m.ram, x)
    case _ => false
  }

  // With enough heap for the tables, every byte of a register of 4 KB to 2 GB is mapped to itself as
  // device memory, whatever ran before.
  lemma PrefetchableMapped(s: Sys, k: nat)
    requires SysInv(s) && 12 <= k <= 31 && RoomForArea(s, k)
    ensures var r := Area(k);
            Enabled(s, MapDevice(r.start, r.pages)) &&
            var t := Apply(s, MapDevice(r.start, r.pages));
            && SysInv(t) && AddsOnly(s.m, t.m)
            && forall x: nat :: 4096 * r.start <= x < 4096 * (r.start + r.pages) ==> Reached(t.m.ram, x)
  {
    hide Gaps, Translate, TableAt, PageOf, Num, MapRange, Touched, Area;
    var r := Area(k);
    CurBounds(s.m);
    MapDeviceKeeps(s, r.start, r.pages);
    var t := Apply(s, MapDevice(r.start, r.pages));
    forall x: nat | 4096 * r.start <= x < 4096 * (r.start + r.pages)
      ensures Reached(t.m.ram, x)
    {
      assert InRange(PageOf(x / 4096), r.start, r.pages);
    }
  }

  // The request of alloc_bar_memory is for exactly these pages.
  lemma RequestIsArea(k: nat)
    requires 12 <= k <= 31
    ensures var r := Bars.Request(Bars.Window(Pow2(k)), Pow2(k));
            && Bars.Placement(Pow2(k)) == Bars.Placed(r.address, r)
            && r.address / 4096 == Area(k).start && r.size / 4096 == Area(k).pages > 0
            && r.size % 4096 == 0
  {
    hide Pow2, Bars.Window;
    Bars.AcceptedExactly(k);
    Bars.PlacedExactly(k);
    Bars.MappedSize(k);
    var r := Area(k);
  }

  // An address of the window that no range was registered for is not mapped.
  lemma Unreached(s: Sys, x: nat)
    requires SysInv(s) && Bars.PREFETCHABLE_BASE <= x
    requires x / 4096 < PAGES ==> !Registered(s.devices, PageOf(x / 4096))
    ensures !Reached(s.m.ram, x)
  {
    hide Translate, PageOf, Inv, RegionsApart, RegionsBelow;
    CurBounds(s.m);
  }

  lemma WindowStart(k: nat)
    requires 4 <= k <= 63 && Bars.Accepted(Pow2(k))
    ensures Bars.PREFETCHABLE_BASE <= Bars.Window(Pow2(k))
  {
    hide Pow2;
    Bars.AcceptedExactly(k);
    Bars.Pow2Window();
  }

  // For an admitted register that no range was registered for: alloc_bar_memory makes all of it usable
  // exactly if it has from 4 KB to 2 GB.  For smaller ones it never returns.  For larger ones the
  // 32-bit size it asks for is 0, so it returns an address at which nothing is mapped.
  lemma RegisterUsable(s: Sys, k: nat)
    requires SysInv(s) && 4 <= k <= 63 && Bars.Accepted(Pow2(k)) && RoomForArea(s, k)
    requires var a := Bars.Window(Pow2(k)); a / 4096 < PAGES ==> !Registered(s.devices, PageOf(a / 4096))
    ensures Usable(s, Pow2(k)) <==> 12 <= k <= 31
    ensures k >= 32 ==>
              var a := Bars.Window(Pow2(k));
              Bars.Placement(Pow2(k)) == Bars.Placed(a, Bars.Request(a, 0)) && !Reached(s.m.ram, a)
  {
    hide Gaps, Translate, TableAt, PageOf, Num, MapRange, Touched, Area, Pow2, Bars.Window, SysInv, Reached;
    hide DeviceLoop.Ends, Registered;
    Bars.PlacedExactly(k);
    if 12 <= k <= 31 {
      RequestIsArea(k);
      PrefetchableMapped(s, k);
    } else if k >= 32 {
      Bars.MappedSize(k);
      WindowStart(k);
      var a := Bars.Window(Pow2(k));
      Unreached(s, a);
      assert !Reached(Serve(s, Bars.Request(a, 0)).m.ram, a);
    }
  }
}
