/**
  map_addr and register_device_memory: identity-mapping a range page by page.
*/
module Ranges {
  import opened Wrappers
  import opened Words
  import opened PageTable
  import opened Machine
  import opened Handover
  import opened Alloc
  import opened Mapping4K
  import opened MapPages

  // The loop of map_addr (k = Normal) and register_device_memory (k = Device), in pages.
  function MapRange(m: Machine, first: nat, count: nat, k: Kind): (r: Machine)
    requires first + count <= PAGES && m.cur + 12 * count < PAGES
    ensures m.cur <= r.cur <= m.cur + 12 * count && r.on == m.on && (m.astray ==> r.astray)
    decreases count
  {
    if count == 0 then m
    else MapRange(MapPage(m, PageOf(first), PageOf(first), k), first + 1, count - 1, k)
  }

  predicate InRange(p: Page, first: nat, count: nat) {
    first <= Num(p) < first + count
  }

  // ---- the tables a range needs ----

  function PathsOf(va: Page): set<Path> { {L1(va.i0), L2(va.i0, va.i1), Window(va)} }

  // One path per 512 GB, 1 GB and 2 MB window that the range touches.
  function Touched(first: nat, count: nat): set<Path>
    requires first + count <= PAGES
    decreases count
  {
    if count == 0 then {} else PathsOf(PageOf(first)) + Touched(first + 1, count - 1)
  }

  function Gaps(ram: Ram, s: set<Path>): set<Path> { set p | p in s && Gap(ram, p) }

  lemma AddGap(ram: Ram, s: set<Path>, p: Path)
    requires p !in s
    ensures |Gaps(ram, s + {p})| == |Gaps(ram, s)| + if TableAt(ram, p).Some? then 0 else 1
  {
    hide TableAt;
    assert Gaps(ram, s + {p}) == Gaps(ram, s) + if Gap(ram, p) then {p} else {};
  }

  lemma GapCount(ram: Ram, va: Page)
    ensures |Gaps(ram, PathsOf(va))| == MissingLevels(ram, va)
  {
    hide TableAt;
    var a, b, c := L1(va.i0), L2(va.i0, va.i1), Window(va);
    AddGap(ram, {}, a);
    AddGap(ram, {a}, b);
    AddGap(ram, {a, b}, c);
    assert PathsOf(va) == {a, b} + {c} && {a, b} == {a} + {b} && {a} == {} + {a};
  }

  lemma {:induction false} Smaller(s: set<Path>, t: set<Path>)
    requires s <= t
    ensures |s| <= |t|
  {
    if s != {} {
      var p :| p in s;
      Smaller(s - {p}, t - {p});
    }
  }

  // After a page is mapped its three tables are no gaps any more, and no gap has appeared.
  lemma GapsSpent(before: Ram, cur: nat, after: Ram, cur': nat, va: Page, rest: set<Path>)
    requires Grows(before, cur, after, cur') && TableAt(after, Window(va)).Some?
    ensures |Gaps(before, PathsOf(va) + rest)| >= MissingLevels(before, va) + |Gaps(after, rest)|
  {
    GapCount(before, va);
    Ancestors(after, va);
    var s, t := Gaps(before, PathsOf(va)), Gaps(after, rest);
    assert s !! t;
    assert s + t <= Gaps(before, PathsOf(va) + rest) by {
      forall p | p in t
        ensures p in Gaps(before, PathsOf(va) + rest)
      {
        GapsShrink(before, cur, after, cur', p);
      }
    }
    Smaller(s + t, Gaps(before, PathsOf(va) + rest));
    assert |s + t| == |s| + |t|;
  }

  // ---- ranges inside one gigabyte ----

  lemma PageInGigabyte(n: nat, a: Index, b: Index, lo: nat, hi: nat)
    requires a * 0x800_0000 + b * 0x4_0000 + lo * 512 <= n < a * 0x800_0000 + b * 0x4_0000 + hi * 512 && hi <= 512
    ensures n < PAGES && PageOf(n).i0 == a && PageOf(n).i1 == b && lo <= PageOf(n).i2 < hi
  {
    var p := PageOf(n);
    assert p.i0 == a;
    assert p.i1 == b;
  }

  function Windows(a: Index, b: Index, lo: nat, n: nat): (s: set<Path>)
    requires lo + n <= 512
    ensures |s| == n && forall p :: p in s <==> p.L3? && p.a == a && p.b == b && lo <= p.c < lo + n
  {
    if n == 0 then {} else Windows(a, b, lo, n - 1) + {L3(a, b, lo + n - 1)}
  }

  lemma {:induction false} TouchedGigabyte(first: nat, count: nat, a: Index, b: Index, lo: nat, hi: nat)
    requires a * 0x800_0000 + b * 0x4_0000 + lo * 512 <= first && hi <= 512
    requires first + count <= a * 0x800_0000 + b * 0x4_0000 + hi * 512 <= PAGES
    ensures forall p :: p in Touched(first, count) ==>
              p == L1(a) || p == L2(a, b) || (p.L3? && p.a == a && p.b == b && lo <= p.c < hi)
    decreases count
  {
    hide PageOf;
    if count > 0 {
      PageInGigabyte(first, a, b, lo, hi);
      TouchedGigabyte(first + 1, count - 1, a, b, lo, hi);
    }
  }

  // ---- mapping a whole range ----

  // The condition, page by page, under which the loop succeeds.
  ghost predicate RangeMappable(m: Machine, first: nat, count: nat, k: Kind)
    requires first + count <= PAGES && m.cur + 12 * count < PAGES
    decreases count
  {
    count == 0 ||
    (Mappable(m.ram, m.cur, PageOf(first)) &&
     RangeMappable(MapPage(m, PageOf(first), PageOf(first), k), first + 1, count - 1, k))
  }

  ghost predicate RangeTranslated(before: Ram, after: Ram, first: nat, count: nat, k: Kind) {
    forall v :: InRange(v, first, count) ==>
           Translate(after, v) ==
           if Translate(before, v).Some? then Translate(before, v) else Some(Mapping(v, Attr(k)))
  }

  ghost predicate RangeTables(after: Ram, first: nat, count: nat) {
    forall v :: InRange(v, first, count) ==> TableAt(after, Window(v)).Some?
  }

  ghost predicate OnlyOwnPagesOutside(before: Ram, cur: nat, after: Ram, cur': nat, first: nat, count: nat) {
    forall v :: !InRange(v, first, count) && Translate(after, v) != Translate(before, v) ==>
           cur <= Num(v) < cur' && Mapped(after, v)
  }

  ghost predicate RangeMapsTo(m: Machine, r: Machine, first: nat, count: nat, k: Kind)
    requires m.cur < PAGES && r.cur < PAGES
  {
    && !r.stuck && r.on == m.on && r.astray == m.astray && Grows(m.ram, m.cur, r.ram, r.cur)
    && RangeTranslated(m.ram, r.ram, first, count, k) && RangeTables(r.ram, first, count)
    && OnlyOwnPagesOutside(m.ram, m.cur, r.ram, r.cur, first, count)
    && OthersSpared(m.ram, m.cur, r.ram, r.cur)
    && (r.cur == m.cur || Advanced(m.cur, r.ram, r.cur))
  }

  // The range keeps clear of the unallocated heap.
  predicate RangeAllowed(cur: nat, first: nat, count: nat) {
    first + count <= cur || HEAP_END <= first || first + count <= HEAP_BASE
  }

  lemma MapsToParts(m: Machine, r: Machine, va: Page, pa: Page, k: Kind)
    requires m.cur < PAGES && r.cur < PAGES && MapsTo(m, r, va, pa, k)
    ensures !r.stuck && r.on == m.on && Grows(m.ram, m.cur, r.ram, r.cur) && TableAt(r.ram, Window(va)).Some?
    ensures m.cur <= r.cur <= m.cur + 4 * MissingLevels(m.ram, va) && (r.cur - m.cur) % 4 == 0
  {
  }

  // The same for any successful call, however it came about.
  lemma PageCost(m: Machine, n: Machine, first: nat, count: nat, k: Kind)
    requires 0 < count && first + count <= PAGES && m.cur < PAGES && n.cur < PAGES
    requires MapsTo(m, n, PageOf(first), PageOf(first), k)
    ensures !n.stuck && n.on == m.on && Grows(m.ram, m.cur, n.ram, n.cur) && m.cur <= n.cur && (n.cur - m.cur) % 4 == 0
    ensures n.cur + 4 * |Gaps(n.ram, Touched(first + 1, count - 1))| <= m.cur + 4 * |Gaps(m.ram, Touched(first, count))|
  {
    hide MapsTo, Num, PageOf, Gaps, TableAt, Grows, MissingLevels, Translate;
    MapsToParts(m, n, PageOf(first), PageOf(first), k);
    GapsSpent(m.ram, m.cur, n.ram, n.cur, PageOf(first), Touched(first + 1, count - 1));
  }

  lemma StepRoom(m: Machine, first: nat, count: nat)
    requires 0 < count && first + count <= PAGES && m.cur + 4 * |Gaps(m.ram, Touched(first, count))| <= HEAP_END
    ensures Room(m.ram, m.cur, PageOf(first))
  {
    var va := PageOf(first);
    GapCount(m.ram, va);
    Smaller(Gaps(m.ram, PathsOf(va)), Gaps(m.ram, Touched(first, count)));
  }

  // One turn of the loop: the page is mapped, and the tables it cost are no gaps any more.
  lemma OnePage(m: Machine, first: nat, count: nat, k: Kind)
    requires 0 < count && first + count <= PAGES && m.cur + 12 * count < PAGES
    requires !m.stuck && Inv(m.ram, m.cur)
    requires Allowed(m.cur, PageOf(first)) && Mappable(m.ram, m.cur, PageOf(first))
    requires m.cur + 4 * |Gaps(m.ram, Touched(first, count))| <= HEAP_END
    ensures var va := PageOf(first);
            var n := MapPage(m, va, va, k);
            && Inv(n.ram, n.cur) && MapsTo(m, n, va, va, k) && !n.stuck && n.on == m.on
            && Grows(m.ram, m.cur, n.ram, n.cur) && m.cur <= n.cur && (n.cur - m.cur) % 4 == 0
            && n.cur + 4 * |Gaps(n.ram, Touched(first + 1, count - 1))| <=
                m.cur + 4 * |Gaps(m.ram, Touched(first, count))|
  {
    hide Inv, MapPage, MapsTo, Mappable, Num, PageOf, Gaps, TableAt, Grows, Room, Allowed, MissingLevels, Translate;
    var va := PageOf(first);
    StepRoom(m, first, count);
    MapKeeps(m, va, va, k);
    PageCost(m, MapPage(m, va, va, k), first, count, k);
  }

  lemma EmptyRange(m: Machine, first: nat, k: Kind)
    requires !m.stuck && m.cur < PAGES
    ensures RangeMapsTo(m, m, first, 0, k)
  {
  }

  lemma AllowedFirst(ram: Ram, cur: nat, first: nat, count: nat)
    requires 0 < count && first + count <= PAGES && Inv(ram, cur) && RangeAllowed(cur, first, count)
    ensures Allowed(cur, PageOf(first)) && HEAP_BASE <= cur
  {
  }

  lemma AllowedRest(cur: nat, cur': nat, first: nat, count: nat)
    requires 0 < count && cur <= cur' && RangeAllowed(cur, first, count)
    ensures RangeAllowed(cur', first + 1, count - 1)
  {
  }

  lemma NotFirst(v: Page, first: nat, count: nat)
    requires 0 < count && first + count <= PAGES && InRange(v, first, count) && v != PageOf(first)
    ensures InRange(v, first + 1, count - 1)
  {
    if Num(v) == first {
      NumInjective(v, PageOf(first));
    }
  }

  lemma JoinTranslated(m: Ram, c0: nat, n: Ram, c1: nat, r: Ram, c2: nat, first: nat, count: nat, k: Kind)
    requires 0 < count && first + count <= PAGES
    requires var va := PageOf(first);
             Translate(n, va) == if Translate(m, va).Some? then Translate(m, va) else Some(Mapping(va, Attr(k)))
    requires OnlyOwnPagesBut(m, c0, n, c1, PageOf(first)) && Grows(n, c1, r, c2)
    requires RangeTranslated(n, r, first + 1, count - 1, k)
    requires RangeAllowed(c0, first, count) && HEAP_BASE <= c0 && c1 <= HEAP_END
    ensures RangeTranslated(m, r, first, count, k)
  {
    hide Translate, TableAt, PageOf;
    var va := PageOf(first);
    forall v | InRange(v, first, count)
      ensures Translate(r, v) == if Translate(m, v).Some? then Translate(m, v) else Some(Mapping(v, Attr(k)))
    {
      if v == va {
      } else {
        NotFirst(v, first, count);
        assert Translate(n, v) == Translate(m, v);
      }
    }
  }

  lemma JoinTables(n: Ram, c1: nat, r: Ram, c2: nat, first: nat, count: nat)
    requires 0 < count && first + count <= PAGES
    requires TableAt(n, Window(PageOf(first))).Some? && Grows(n, c1, r, c2) && RangeTables(r, first + 1, count - 1)
    ensures RangeTables(r, first, count)
  {
    hide Translate, TableAt, PageOf;
    forall v | InRange(v, first, count)
      ensures TableAt(r, Window(v)).Some?
    {
      if v != PageOf(first) {
        NotFirst(v, first, count);
      }
    }
  }

  lemma JoinOutside(m: Ram, c0: nat, n: Ram, c1: nat, r: Ram, c2: nat, first: nat, count: nat)
    requires 0 < count && first + count <= PAGES && c0 <= c1 <= c2
    requires OnlyOwnPagesBut(m, c0, n, c1, PageOf(first)) && OnlyOwnPagesOutside(n, c1, r, c2, first + 1, count - 1)
    requires Grows(n, c1, r, c2)
    ensures OnlyOwnPagesOutside(m, c0, r, c2, first, count)
  {
    hide Translate, TableAt, PageOf;
    forall v | !InRange(v, first, count) && Translate(r, v) != Translate(m, v)
      ensures c0 <= Num(v) < c2 && Mapped(r, v)
    {
      assert v != PageOf(first);
      if Translate(n, v) != Translate(m, v) {
        assert Mapped(n, v);
      }
    }
  }

  lemma RangeJoin(m: Machine, n: Machine, r: Machine, first: nat, count: nat, k: Kind)
    requires 0 < count && first + count <= PAGES && m.cur < PAGES && n.cur < PAGES && r.cur < PAGES
    requires MapsTo(m, n, PageOf(first), PageOf(first), k) && RangeMapsTo(n, r, first + 1, count - 1, k)
    requires RangeAllowed(m.cur, first, count) && n.cur <= r.cur <= HEAP_END && HEAP_BASE <= m.cur
    ensures RangeMapsTo(m, r, first, count, k)
  {
    hide Grows, OthersSpared, OnlyOwnPagesBut, OnlyOwnPagesOutside, RangeTranslated, RangeTables, PageOf;
    hide Translate, TableAt, Settled;
    GrowsTrans(m.ram, m.cur, n.ram, n.cur, r.ram, r.cur);
    SparedTrans(m.ram, m.cur, n.ram, n.cur, r.ram, r.cur);
    JoinTranslated(m.ram, m.cur, n.ram, n.cur, r.ram, r.cur, first, count, k);
    JoinTables(n.ram, n.cur, r.ram, r.cur, first, count);
    JoinOutside(m.ram, m.cur, n.ram, n.cur, r.ram, r.cur, first, count);
    if n.cur != m.cur {
      AdvancedGrows(m.cur, n.ram, n.cur, r.ram, r.cur);
    }
  }

  lemma {:induction false} RangeKeeps(m: Machine, first: nat, count: nat, k: Kind)
    requires first + count <= PAGES && m.cur + 12 * count < PAGES
    requires !m.stuck && Inv(m.ram, m.cur) && RangeAllowed(m.cur, first, count)
    requires m.cur + 4 * |Gaps(m.ram, Touched(first, count))| <= HEAP_END
    requires RangeMappable(m, first, count, k)
    ensures var r := MapRange(m, first, count, k);
            && Inv(r.ram, r.cur) && RangeMapsTo(m, r, first, count, k)
            && (r.cur - m.cur) % 4 == 0
            && r.cur <= m.cur + 4 * |Gaps(m.ram, Touched(first, count))|
    decreases count
  {
    hide Inv, MapPage, MapsTo, RangeMapsTo, Mappable, Num, PageOf, Gaps, TableAt, Grows, Touched, RangeAllowed;
    if count == 0 {
      EmptyRange(m, first, k);
    } else {
      var n := MapPage(m, PageOf(first), PageOf(first), k);
      AllowedFirst(m.ram, m.cur, first, count);
      OnePage(m, first, count, k);
      AllowedRest(m.cur, n.cur, first, count);
      RangeKeeps(n, first + 1, count - 1, k);
      RangeJoin(m, n, MapRange(n, first + 1, count - 1, k), first, count, k);
    }
  }
}
