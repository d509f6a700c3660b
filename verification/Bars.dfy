/** Base address registers: sizing by writing ones, and the placement of a prefetchable 64-bit one. */
module Bars {
  import opened Wrappers
  import opened Arithmetic
  import opened DeviceLoop

  // What the hardware lets software change in a register: the bits from `unit` on; the low bits
  // read as the hard-wired type flags.
  datatype Wiring = Wiring(unit: nat, flags: nat)

  function Keep(h: Wiring, w: nat): nat {
    if h.unit == 0 then h.flags else w / h.unit * h.unit + h.flags
  }

  // A 32-bit memory register of size 2^k; k = 32 is a register that is not implemented.
  predicate Memory32(h: Wiring, k: nat) {
    4 <= k <= 32 && h.unit == Pow2(k) && (h.flags == 0 || h.flags == 8)
  }

  // A pair of registers holding a 64-bit memory address of size 2^k.
  predicate Memory64(lo: Wiring, hi: Wiring, k: nat) {
    && 4 <= k <= 63 && (lo.flags == 4 || lo.flags == 12) && hi.flags == 0
    && lo.unit == Pow2(if k < 32 then k else 32) && hi.unit == Pow2(if k < 32 then 0 else k - 32)
  }

  // ~(register & 0xFFFFFFF0) + 1 after a write of all ones
  function Probe32(h: Wiring): int {
    W32 - 1 - Keep(h, W32 - 1) / 16 * 16 + 1
  }

  function Probe64(lo: Wiring, hi: Wiring): int {
    (W64 - 1 - (Keep(hi, W32 - 1) * W32 + Keep(lo, W32 - 1) / 16 * 16) + 1) % W64
  }

  lemma Pow2Step(k: nat)
    requires k > 0
    ensures Pow2(k) == 2 * Pow2(k - 1)
  {
  }

  lemma Double(x: nat, y: nat)
    ensures 2 * (x * y) == (2 * x) * y
  {
  }

  lemma {:induction false} Pow2Sum(i: nat, j: nat)
    ensures Pow2(i + j) == Pow2(i) * Pow2(j)
  {
    if i > 0 {
      Pow2Sum(i - 1, j);
      Pow2Step(i);
      Pow2Step(i + j);
      hide Pow2;
      Double(Pow2(i - 1), Pow2(j));
    }
  }

  lemma Pow2Small()
    ensures Pow2(0) == 1 && Pow2(1) == 2 && Pow2(4) == 16 && Pow2(8) == 256
  {
  }

  lemma Pow2Values()
    ensures Pow2(12) == 4096 && Pow2(32) == W32
    ensures Pow2(64) == W64
  {
    hide Pow2;
    Pow2Small();
    Pow2Sum(4, 8);
    Pow2Sum(8, 8);
    Pow2Sum(16, 16);
    Pow2Sum(32, 32);
  }

  lemma TopMultiple(s: nat, t: nat)
    requires s > 0 && t > 0
    ensures s <= s * t && (s * t - 1) / s * s == s * t - s
  {
    assert s * t - 1 == s * (t - 1) + (s - 1);
    Remainder(s, t - 1, s - 1);
    assert (s * t - 1) / s == t - 1;
    assert (t - 1) * s == s * t - s;
  }

  // The largest multiple of 2^k below 2^n is 2^n - 2^k.
  lemma AllOnes(k: nat, n: nat)
    requires k <= n
    ensures Pow2(k) <= Pow2(n) && (Pow2(n) - 1) / Pow2(k) * Pow2(k) == Pow2(n) - Pow2(k)
  {
    hide Pow2;
    Pow2Sum(k, n - k);
    TopMultiple(Pow2(k), Pow2(n - k));
  }

  lemma Times16(q: nat, t: nat, flags: nat)
    requires flags < 16
    ensures (q * (16 * t) + flags) / 16 * 16 == q * (16 * t) && (q * (16 * t) + flags) % 16 == flags
  {
    assert q * (16 * t) == 16 * (q * t);
    Remainder(16, q * t, flags);
  }

  // A multiple of 16 with flags added: masking the flags gives the multiple back.
  lemma MaskFlags(k: nat, q: nat, flags: nat)
    requires 4 <= k && flags < 16
    ensures (q * Pow2(k) + flags) / 16 * 16 == q * Pow2(k) && (q * Pow2(k) + flags) % 16 == flags
  {
    hide Pow2;
    Pow2Sum(4, k - 4);
    Pow2Small();
    Times16(q, Pow2(k - 4), flags);
  }

  lemma Sizing32(h: Wiring, k: nat)
    requires Memory32(h, k)
    ensures Probe32(h) == Pow2(k)
  {
    hide Pow2;
    Pow2Values();
    AllOnes(k, 32);
    MaskFlags(k, (W32 - 1) / Pow2(k), h.flags);
  }

  lemma Sizing64(lo: Wiring, hi: Wiring, k: nat)
    requires Memory64(lo, hi, k)
    ensures Probe64(lo, hi) == Pow2(k)
  {
    hide Pow2;
    Pow2Values();
    AllOnes(k, 63);
    Pow2Sum(1, 63);
    Pow2Small();
    var j := if k < 32 then k else 32;
    AllOnes(j, 32);
    MaskFlags(j, (W32 - 1) / Pow2(j), lo.flags);
    if k >= 32 {
      AllOnes(k - 32, 32);
      Pow2Sum(k - 32, 32);
    }
    assert Keep(hi, W32 - 1) * W32 + Keep(lo, W32 - 1) / 16 * 16 == W64 - Pow2(k);
  }

  lemma LowBits(v: nat)
    ensures v % 16 % 8 == v % 8
  {
  }

  // The low bits of a register tell its kind, so a memory register takes the branch made for it.
  lemma FlagBits(h: Wiring, k: nat, v: nat)
    requires 4 <= k && h.unit == Pow2(k) && h.flags < 16 && Keep(h, v) == v
    ensures v % 16 == h.flags && v % 8 == h.flags % 8
  {
    hide Pow2;
    MaskFlags(k, v / Pow2(k), h.flags);
    LowBits(v);
  }

  lemma Sizes(h: Wiring, v: nat)
    requires Keep(h, v) == v
    ensures forall k: nat :: Memory32(h, k) ==> v % 8 == 0 && Probe32(h) == Pow2(k)
  {
    hide Pow2, Probe32, Keep;
    forall k: nat | Memory32(h, k)
      ensures v % 8 == 0 && Probe32(h) == Pow2(k)
    {
      Sizing32(h, k);
      FlagBits(h, k, v);
    }
  }

  lemma SizesOfPair(lo: Wiring, hi: Wiring, v: nat)
    requires Keep(lo, v) == v
    ensures forall k: nat :: Memory64(lo, hi, k) ==> v % 8 == 4 && Probe64(lo, hi) == Pow2(k)
  {
    hide Pow2, Probe64, Keep;
    forall k: nat | Memory64(lo, hi, k)
      ensures v % 8 == 4 && Probe64(lo, hi) == Pow2(k)
    {
      Sizing64(lo, hi, k);
      FlagBits(lo, if k < 32 then k else 32, v);
    }
  }

  lemma Probes32(h: Wiring)
    ensures Probe32(h) == W32 - 1 - Keep(h, W32 - 1) / 16 * 16 + 1
  {
  }

  lemma Probes64(lo: Wiring, hi: Wiring)
    ensures Probe64(lo, hi) == (W64 - 1 - (Keep(hi, W32 - 1) * W32 + Keep(lo, W32 - 1) / 16 * 16) + 1) % W64
  {
  }

  // ---- placing a register in the host's prefetchable window ----

  const PREFETCHABLE_BASE: nat := 0x80_0000_0000
  const PREFETCHABLE_SIZE: nat := 0x80_0000_0000

  datatype Request = Request(address: nat, size: nat)

  function Window(size: nat): nat { (PREFETCHABLE_BASE + size) % W64 }

  // How alloc_bar_memory ends: no address; inside register_device_memory, for ever; or with an address
  // and both registers programmed.
  datatype Outcome =
    | Refused
    | Hangs(request: Request)
    | Placed(address: nat, request: Request)

  // The bounds check, in 64-bit arithmetic
  predicate Accepted(size: nat) {
    (PREFETCHABLE_BASE + size + size) % W64 < PREFETCHABLE_BASE + PREFETCHABLE_SIZE
  }

  // The request goes to register_device_memory, whose size is a 32-bit number.
  ghost function Placement(size: nat): Outcome {
    var request := Request(Window(size), size % W32);
    if !Accepted(size) then Refused
    else if !Ends(request.size) then Hangs(request)
    else Placed(request.address, request)
  }

  lemma Grows(i: nat, j: nat)
    requires i < j
    ensures 2 * Pow2(i) <= Pow2(j)
  {
    hide Pow2;
    Pow2Sum(1, i);
    Pow2Small();
    AllOnes(1 + i, j);
  }

  lemma Pow2Seven()
    ensures Pow2(7) == 128
  {
    assert Pow2(4) == 16;
  }

  lemma Pow2Window()
    ensures Pow2(38) * 2 == Pow2(39) == PREFETCHABLE_BASE && Pow2(63) * 2 == W64
    ensures Pow2(7) == 128 && Pow2(39) == 128 * W32
  {
    hide Pow2;
    Pow2Values();
    Pow2Small();
    Pow2Sum(1, 38);
    Pow2Sum(1, 63);
    Pow2Sum(7, 32);
    Pow2Seven();
  }

  // The bounds check admits registers of up to 128 GB, which then lie inside the window; it also
  // admits 2^63, where the sum wraps around to the start of the window.
  lemma AcceptedExactly(k: nat)
    requires 4 <= k <= 63
    ensures Accepted(Pow2(k)) <==> k <= 37 || k == 63
    ensures k <= 37 ==> Window(Pow2(k)) == PREFETCHABLE_BASE + Pow2(k)
                        && Window(Pow2(k)) + Pow2(k) < PREFETCHABLE_BASE + PREFETCHABLE_SIZE
  {
    hide Pow2;
    Pow2Window();
    if k <= 37 {
      Grows(k, 38);
    } else if k <= 62 {
      AllOnes(38, k);
      Grows(k, 63);
    }
  }

  // The size that reaches register_device_memory: registers from 4 GB on are not mapped at all, and
  // those below 4 KB make its loop endless.
  lemma MappedSize(k: nat)
    requires 4 <= k <= 63
    ensures Pow2(k) % W32 == if k < 32 then Pow2(k) else 0
    ensures Pow2(k) % W32 % 4096 == 0 <==> k >= 12
  {
    hide Pow2;
    Pow2Values();
    if k < 12 {
      Grows(k, 12);
      Grows(k, 32);
    } else {
      Pow2Sum(12, k - 12);
      Remainder(4096, Pow2(k - 12), 0);
      if k < 32 {
        Grows(k, 32);
      } else {
        Pow2Sum(32, k - 32);
        Remainder(W32, Pow2(k - 32), 0);
      }
    }
  }

  // An address is returned exactly for the admitted registers of at least one page.
  lemma PlacedExactly(k: nat)
    requires 4 <= k <= 63
    ensures var o := Placement(Pow2(k));
            && (o.Refused? <==> !Accepted(Pow2(k)))
            && (o.Hangs? <==> Accepted(Pow2(k)) && k < 12)
            && (o.Placed? <==> Accepted(Pow2(k)) && k >= 12)
  {
    hide Pow2, Window, Accepted, Ends;
    MappedSize(k);
    EndsExactly(Pow2(k) % W32);
  }

  lemma KeepMultiple(h: Wiring, q: nat, x: nat)
    requires h.unit > 0 && x == h.unit * q
    ensures Keep(h, x) == x + h.flags
  {
    Remainder(h.unit, q, 0);
  }

  // A register of 2^63 bytes decodes 2^63, because the returned address is not a multiple of its size.
  lemma DecodesElsewhere(lo: Wiring, hi: Wiring)
    requires Memory64(lo, hi, 63)
    ensures var a := Window(Pow2(63));
            && a % Pow2(63) == PREFETCHABLE_BASE
            && Keep(hi, a / W32) * W32 + Keep(lo, a % W32) == a + lo.flags - PREFETCHABLE_BASE
  {
    hide Pow2;
    Pow2Window();
    Pow2Values();
    Pow2Sum(31, 32);
    Remainder(Pow2(63), 1, PREFETCHABLE_BASE);
    Remainder(W32, 128 + Pow2(31), 0);
    Remainder(Pow2(31), 1, 128);
    KeepMultiple(lo, 0, 0);
  }

  lemma NextMultiple(s: nat, t: nat, x: nat)
    requires s > 0 && x == s * t
    ensures x + s == s * (t + 1) && (x + s) % s == 0
  {
    assert x + s == s * (t + 1) + 0;
    Remainder(s, t + 1, 0);
  }

  lemma Aligned(k: nat)
    requires 4 <= k <= 37
    ensures Window(Pow2(k)) % Pow2(k) == 0
  {
    hide Pow2;
    AcceptedExactly(k);
    Pow2Window();
    Pow2Sum(k, 39 - k);
    NextMultiple(Pow2(k), Pow2(39 - k), PREFETCHABLE_BASE);
    hide *;
  }

  lemma DecodesLow(lo: Wiring, hi: Wiring, k: nat)
    requires Memory64(lo, hi, k) && k < 32
    ensures var a := Window(Pow2(k)); Keep(hi, a / W32) * W32 + Keep(lo, a % W32) == a + lo.flags
  {
    hide Pow2, Keep;
    AcceptedExactly(k);
    Pow2Values();
    Pow2Small();
    Grows(k, 32);
    Remainder(W32, 128, Pow2(k));
    KeepMultiple(lo, 1, Pow2(k));
    KeepMultiple(hi, 128, 128);
  }

  lemma HighWords(k: nat)
    requires 32 <= k <= 37
    ensures var a := Window(Pow2(k)); var u := Pow2(k - 32);
            && a == W32 * (128 + u) && a / W32 == 128 + u && a % W32 == 0
            && 128 + u == u * (Pow2(39 - k) + 1)
  {
    hide Pow2;
    AcceptedExactly(k);
    Pow2Values();
    Pow2Window();
    var u := Pow2(k - 32);
    Pow2Sum(k - 32, 32);
    Pow2Sum(k - 32, 39 - k);
    Remainder(W32, 128 + u, 0);
    NextMultiple(u, Pow2(39 - k), 128);
  }

  lemma DecodesHigh(lo: Wiring, hi: Wiring, k: nat)
    requires Memory64(lo, hi, k) && 32 <= k <= 37
    ensures var a := Window(Pow2(k)); Keep(hi, a / W32) * W32 + Keep(lo, a % W32) == a + lo.flags
  {
    hide Pow2, Keep, Window;
    Pow2Values();
    HighWords(k);
    KeepMultiple(lo, 0, 0);
    KeepMultiple(hi, Pow2(39 - k) + 1, 128 + Pow2(k - 32));
  }

  // An address is returned, and it is the one that the register then decodes, naturally aligned, if and
  // only if the register has from 2^12 to 2^37 bytes.  The other admitted sizes are smaller ones, and 2^63.
  lemma DecodesThere(lo: Wiring, hi: Wiring, k: nat)
    requires Memory64(lo, hi, k) && Accepted(Pow2(k))
    ensures var a := Window(Pow2(k));
            && (a % Pow2(k) == 0 <==> k <= 37)
            && (Keep(hi, a / W32) * W32 + Keep(lo, a % W32) == a + lo.flags <==> k <= 37)
    ensures var o := Placement(Pow2(k));
            (&& o.Placed? && o.address % Pow2(k) == 0
             && Keep(hi, o.address / W32) * W32 + Keep(lo, o.address % W32) == o.address + lo.flags)
            <==> 12 <= k <= 37
  {
    hide Pow2, Keep, Window, Accepted, Ends;
    AcceptedExactly(k);
    PlacedExactly(k);
    if k == 63 {
      DecodesElsewhere(lo, hi);
      return;
    }
    Aligned(k);
    if k < 32 {
      DecodesLow(lo, hi, k);
    } else {
      DecodesHigh(lo, hi, k);
    }
  }

  // The smallest register is legal and admitted, but its request starts 16 bytes into a page and is
  // 16 bytes long, so the call of register_device_memory never ends.
  lemma SmallestHangs(n: nat)
    ensures Pow2(4) == 16 && Accepted(16) && Window(16) % 4096 == 16
    ensures Placement(16) == Hangs(Request(Window(16), 16)) && !EndsAfter(16, n)
  {
    PlacedExactly(4);
    EndsExactly(16);
    LoopEnds(16, n);
  }

  // ---- the registers of one function, as the driver reads and writes them ----

  class Registers {
    const wiring: seq<Wiring>    // of the six base address registers
    var bar: seq<nat>
    var command: nat             // 16 bits; bits 0 and 1 switch address decoding on
    ghost var exposed: nat       // number of writes to a base address register while decoding was on

    ghost predicate Valid()
      reads this
    {
      && |wiring| == |bar| == 6 && command < 0x1_0000
      && forall i :: 0 <= i < 6 ==> bar[i] < W32 && wiring[i].unit > 0 && Keep(wiring[i], bar[i]) == bar[i]
    }

    constructor (wiring: seq<Wiring>, bar: seq<nat>, command: nat)
      requires |wiring| == |bar| == 6 && command < 0x1_0000
      requires forall i :: 0 <= i < 6 ==> bar[i] < W32 && wiring[i].unit > 0 && Keep(wiring[i], bar[i]) == bar[i]
      ensures Valid() && this.wiring == wiring && this.bar == bar && this.command == command && exposed == 0
    {
      this.wiring := wiring;
      this.bar := bar;
      this.command := command;
      exposed := 0;
    }

    method WriteBar(i: nat, w: nat)
      requires |wiring| == |bar| == 6 && i < 6
      modifies this`bar, this`exposed
      ensures bar == old(bar)[i := Keep(wiring[i], w)]
      ensures exposed == old(exposed) + if command % 4 == 0 then 0 else 1
    {
      bar := bar[i := Keep(wiring[i], w)];
      exposed := exposed + if command % 4 == 0 then 0 else 1;
    }

    // The size is what the probes read back; every register holds its old value again, and address
    // decoding was off whenever a base address register was written.
    method BarSize(index: nat) returns (size: int)
      requires Valid() && index < 6 && (bar[index] % 8 == 4 ==> index < 5)
      modifies this
      ensures Valid() && bar == old(bar) && command == old(command) && exposed == old(exposed)
      ensures bar[index] % 8 == 0 ==> size == Probe32(wiring[index])
      ensures bar[index] % 8 == 4 ==> size == Probe64(wiring[index], wiring[index + 1])
      ensures bar[index] % 8 != 0 && bar[index] % 8 != 4 ==> size == 0
      ensures forall k: nat :: Memory32(wiring[index], k) ==> size == Pow2(k)
      ensures index < 5 ==> forall k: nat :: Memory64(wiring[index], wiring[index + 1], k) ==> size == Pow2(k)
    {
      hide Keep, Memory32, Memory64, Pow2, Probe32, Probe64;
      Sizes(wiring[index], bar[index]);
      if index < 5 {
        SizesOfPair(wiring[index], wiring[index + 1], bar[index]);
      }
      var commandBefore := command;
      command := command / 4 * 4;
      if bar[index] % 8 == 0 {
        var before := bar[index];
        WriteBar(index, W32 - 1);
        size := W32 - 1 - bar[index] / 16 * 16 + 1;
        assert size == Probe32(wiring[index]) by { Probes32(wiring[index]); }
        WriteBar(index, before);
      } else if bar[index] % 8 == 4 {
        var before1, before2 := bar[index], bar[index + 1];
        WriteBar(index, W32 - 1);
        WriteBar(index + 1, W32 - 1);
        size := (W64 - 1 - (bar[index + 1] * W32 + bar[index] / 16 * 16) + 1) % W64;
        assert size == Probe64(wiring[index], wiring[index + 1]) by { Probes64(wiring[index], wiring[index + 1]); }
        WriteBar(index, before1);
        WriteBar(index + 1, before2);
        command := commandBefore;
      } else {
        size := 0;
      }
      command := commandBefore;
    }

    // alloc_bar_memory for a prefetchable 64-bit register.  The registers are written after the call of
    // register_device_memory, so they stay as they were if that never ends.
    method AllocPrefetchable(index: nat, ghost k: nat) returns (outcome: Outcome)
      requires Valid() && index < 5 && bar[index] % 16 == 12
      requires Memory64(wiring[index], wiring[index + 1], k)
      modifies this
      ensures command == old(command) && |bar| == 6
      ensures forall i :: 0 <= i < 6 && i != index && i != index + 1 ==> bar[i] == old(bar[i])
      ensures outcome == Placement(Pow2(k))
      ensures outcome.Placed? <==> Accepted(Pow2(k)) && k >= 12
      ensures outcome.Placed? ==>
                var a := Window(Pow2(k));
                && outcome == Placed(a, Request(a, Pow2(k) % W32))
                && bar[index] == Keep(wiring[index], a % W32) && bar[index + 1] == Keep(wiring[index + 1], a / W32)
      ensures !outcome.Placed? ==> bar == old(bar)
    {
      PlacedExactly(k);
      hide Keep, Memory64, Pow2, Probe32, Probe64, Ends;
      var size := BarSize(index);
      if (PREFETCHABLE_BASE + size + size) % W64 < PREFETCHABLE_BASE + PREFETCHABLE_SIZE {
        var v := (PREFETCHABLE_BASE + size) % W64;
        var request := Request(v, size % W32);
        EndsExactly(request.size);
        if request.size % 4096 != 0 {
          return Hangs(request);
        }
        WriteBar(index, v % W32);
        WriteBar(index + 1, v / W32);
        outcome := Placed(v, request);
      } else {
        outcome := Refused;
      }
    }
  }
}
