/**
  Configuration space addressing (ECAM) and the mapping of the whole window as device memory.
*/
module Ecam {
  import opened Wrappers
  import opened Words
  import opened PageTable
  import opened Machine
  import opened Handover
  import opened MapPages
  import opened Ranges
  import opened RangeConditions
  import opened Runs
  import opened Boot

  const ECAM_BASE: nat := 0x40_1000_0000
  const ECAM_SIZE: nat := 0x1000_0000

  const FIRST: nat := ECAM_BASE / 4096
  const COUNT: nat := ECAM_SIZE / 4096

  datatype Coordinates = Coordinates(bus: nat, device: nat, fn: nat, offset: nat)

  predicate InSpace(c: Coordinates) {
    c.bus < 256 && c.device < 32 && c.fn < 8 && c.offset < 4096
  }

  function EcamPtr(c: Coordinates): nat {
    ECAM_BASE + c.bus * 0x10_0000 + c.device * 0x8000 + c.fn * 0x1000 + c.offset
  }

  function CoordinatesOf(address: nat): Coordinates
    requires ECAM_BASE <= address
  {
    var o := address - ECAM_BASE;
    Coordinates(o / 0x10_0000, o / 0x8000 % 32, o / 0x1000 % 8, o % 0x1000)
  }

  lemma Digits(b: nat, d: nat, f: nat, o: nat)
    requires d < 32 && f < 8 && o < 4096
    ensures var n := b * 0x10_0000 + d * 0x8000 + f * 0x1000 + o;
            n / 0x10_0000 == b && n / 0x8000 % 32 == d && n / 0x1000 % 8 == f && n % 0x1000 == o
  {
    var n := b * 0x10_0000 + d * 0x8000 + f * 0x1000 + o;
    assert n / 0x1000 == b * 256 + d * 8 + f;
    assert n / 0x8000 == b * 32 + d;
  }

  // Coordinates and addresses of the 256 MB window at 0x4010000000 correspond one to one: the bus is bits
  // 20 to 27 of the offset, the device bits 15 to 19, the function bits 12 to 14.
  lemma EcamBijection(c: Coordinates, address: nat)
    ensures InSpace(c) ==>
              var o := EcamPtr(c) - 0x40_1000_0000;
              && 0 <= o < 0x1000_0000 && o / 0x10_0000 == c.bus && o / 0x8000 % 32 == c.device
              && o / 0x1000 % 8 == c.fn && o % 0x1000 == c.offset
    ensures InSpace(c) ==> ECAM_BASE <= EcamPtr(c) < ECAM_BASE + ECAM_SIZE && CoordinatesOf(EcamPtr(c)) == c
    ensures ECAM_BASE <= address < ECAM_BASE + ECAM_SIZE ==>
              InSpace(CoordinatesOf(address)) && EcamPtr(CoordinatesOf(address)) == address
  {
    if InSpace(c) {
      Digits(c.bus, c.device, c.fn, c.offset);
    }
    if ECAM_BASE <= address < ECAM_BASE + ECAM_SIZE {
      var o := address - ECAM_BASE;
      var f := o / 0x1000;
      var d := o / 0x8000;
      assert o == 0x1000 * f + o % 0x1000;
      assert d == f / 8 && f == 8 * d + f % 8;
      assert o / 0x10_0000 == d / 32 && d == 32 * (d / 32) + d % 32;
    }
  }

  // The tables that the window needs: one for its gigabyte and one for each of its 128 2 MB windows.
  lemma EcamGaps(ram: Ram)
    requires TableAt(ram, L2(0, 1)).Some?
    ensures |Gaps(ram, Touched(FIRST, COUNT))| <= 129
  {
    hide TableAt, PageOf, Num, Touched;
    Ancestors(ram, Pg(0, 1, 0, 0));
    TouchedGigabyte(FIRST, COUNT, 0, 256, 128, 256);
    var windows := Windows(0, 256, 128, 128);
    var all := windows + {L2(0, 256)};
    forall p | p in Gaps(ram, Touched(FIRST, COUNT))
      ensures p in all
    {
    }
    Smaller(Gaps(ram, Touched(FIRST, COUNT)), all);
  }

  // init_pci_driver, on any reachable state with 129 blocks of heap left: afterwards every
  // configuration address is mapped to itself as device memory.
  lemma InitPciKeeps(s: Sys)
    requires SysInv(s) && s.m.cur + 4 * 129 <= HEAP_END
    ensures Enabled(s, MapDevice(FIRST, COUNT))
    ensures var t := Apply(s, MapDevice(FIRST, COUNT));
            && SysInv(t) && t.m.on == s.m.on && AddsOnly(s.m, t.m)
            && forall c :: InSpace(c) ==>
                    Translate(t.m.ram, PageOf(EcamPtr(c) / 4096)) == Some(Mapping(PageOf(EcamPtr(c) / 4096), DEVICE))
  {
    hide Gaps, Translate, TableAt, PageOf, Num, MapRange, Touched;
    EcamGaps(s.m.ram);
    MapDeviceKeeps(s, FIRST, COUNT);
    var t := Apply(s, MapDevice(FIRST, COUNT));
    forall c | InSpace(c)
      ensures Translate(t.m.ram, PageOf(EcamPtr(c) / 4096)) == Some(Mapping(PageOf(EcamPtr(c) / 4096), DEVICE))
    {
      EcamBijection(c, 0);
      assert InRange(PageOf(EcamPtr(c) / 4096), FIRST, COUNT);
    }
  }

  // The same after boot and any run, with no other condition than the room for the tables.
  lemma InitPciFromBoot(m: Machine, ops: seq<Op>)
    requires BootReady(m) && BootPlaced(m.cur)
    requires RunEnabled(Booted(InitMmu(m)), ops) && Run(Booted(InitMmu(m)), ops).m.cur + 4 * 129 <= HEAP_END
    ensures var s := Run(Booted(InitMmu(m)), ops);
            Enabled(s, MapDevice(FIRST, COUNT)) &&
            var t := Apply(s, MapDevice(FIRST, COUNT));
            && SysInv(t) && t.m.on && AddsOnly(InitMmu(m), t.m)
            && forall x :: 0x40_1000_0000 <= x < 0x40_2000_0000 ==>
                    Translate(t.m.ram, PageOf(x / 4096)) == Some(Mapping(PageOf(x / 4096), DEVICE))
  {
    hide SysInv, InitMmu, RunEnabled, Run, Enabled, Apply, PageOf, Num, Translate, TableAt, EcamPtr;
    BootRunKeeps(m, ops);
    var s := Run(Booted(InitMmu(m)), ops);
    InitPciKeeps(s);
    var t := Apply(s, MapDevice(FIRST, COUNT));
    forall x | 0x40_1000_0000 <= x < 0x40_2000_0000
      ensures Translate(t.m.ram, PageOf(x / 4096)) == Some(Mapping(PageOf(x / 4096), DEVICE))
    {
      EcamBijection(CoordinatesOf(x), x);
    }
  }
}
