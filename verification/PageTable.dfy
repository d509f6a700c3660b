/**
  The four-level translation tree as the hardware walks it, and what single table writes do to it.
*/
module PageTable {
  import opened Wrappers
  import opened Words

  function Blank(n: nat): (s: seq<Word>)
    ensures |s| == n
    ensures forall i :: 0 <= i < n ==> s[i] == ZERO
  {
    seq(n, i => ZERO)
  }

  type Table = s: seq<Word> | |s| == 512 witness Blank(512)
  type Ram = map<Page, Table>

  const ZEROS: Table := Blank(512)

  function PageAt(ram: Ram, p: Page): Table {
    if p in ram then ram[p] else ZEROS
  }

  function Get(ram: Ram, p: Page, i: Index): Word {
    PageAt(ram, p)[i]
  }

  function Put(ram: Ram, p: Page, i: Index, w: Word): Ram {
    ram[p := PageAt(ram, p)[i := w]]
  }

  // Addresses fixed by the linker script.
  const ROOT := Pg(0, 1, 0, 0)
  const INIT1 := Pg(0, 1, 0, 1)
  const INIT2 := Pg(0, 1, 0, 2)
  const INIT3 := Pg(0, 1, 0, 3)
  const TMP1 := Pg(0, 1, 0, 4)
  const TMP2 := Pg(0, 1, 0, 5)
  const TMP3 := Pg(0, 1, 0, 6)

  // The position of a table in the tree: the indices walked to reach it.
  datatype Path = Root | L1(a: Index) | L2(a: Index, b: Index) | L3(a: Index, b: Index, c: Index)

  function Follow(ram: Ram, t: Option<Page>, i: Index): Option<Page> {
    match t
    case None => None
    case Some(p) => if Get(ram, p, i).valid then Some(Get(ram, p, i).frame) else None
  }

  function T1(ram: Ram, a: Index): Option<Page> { Follow(ram, Some(ROOT), a) }
  function T2(ram: Ram, a: Index, b: Index): Option<Page> { Follow(ram, T1(ram, a), b) }
  function T3(ram: Ram, a: Index, b: Index, c: Index): Option<Page> { Follow(ram, T2(ram, a, b), c) }

  function TableAt(ram: Ram, q: Path): Option<Page> {
    match q
    case Root => Some(ROOT)
    case L1(a) => T1(ram, a)
    case L2(a, b) => T2(ram, a, b)
    case L3(a, b, c) => T3(ram, a, b, c)
  }

  datatype Mapping = Mapping(frame: Page, attr: nat)

  function Leaf(w: Word): Option<Mapping> {
    if w.valid then Some(Mapping(w.frame, w.attr)) else None
  }

  function Translate(ram: Ram, va: Page): Option<Mapping> {
    match T3(ram, va.i0, va.i1, va.i2)
    case None => None
    case Some(t) => Leaf(Get(ram, t, va.i3))
  }

  // Every reachable table sits in exactly one slot of the tree.
  ghost predicate Tree(ram: Ram) {
    forall p, q :: TableAt(ram, p).Some? && TableAt(ram, p) == TableAt(ram, q) ==> p == q
  }

  ghost predicate Unreachable(ram: Ram, p: Page) {
    forall q :: TableAt(ram, q) != Some(p)
  }

  function Child(p: Path, i: Index): Path
    requires !p.L3?
  {
    match p
    case Root => L1(i)
    case L1(a) => L2(a, i)
    case L2(a, b) => L3(a, b, i)
  }

  function Window(va: Page): Path { L3(va.i0, va.i1, va.i2) }

  // The walk cannot tell `after` from `before`, except in slot `i` of the table at `p`.
  ghost predicate SameTables(before: Ram, after: Ram, p: Path, i: Index) {
    forall q, j: Index :: TableAt(before, q).Some? && !(q == p && i == j) ==>
                     Get(after, TableAt(before, q).value, j) == Get(before, TableAt(before, q).value, j)
  }

  // One step of the walk across a link.
  lemma WalkLink(before: Ram, after: Ram, p: Path, i: Index, n: Page, q: Path, j: Index)
    requires !p.L3? && TableAt(before, p).Some? && !q.L3?
    requires SameTables(before, after, p, i)
    requires Get(after, TableAt(before, p).value, i).valid && Get(after, TableAt(before, p).value, i).frame == n
    requires p.L2? || (!Get(before, TableAt(before, p).value, i).valid && PageAt(after, n) == ZEROS)
    requires TableAt(after, q) == if q == Child(p, i) then Some(n) else TableAt(before, q)
    ensures TableAt(after, Child(q, j)) == if Child(q, j) == Child(p, i) then Some(n) else TableAt(before, Child(q, j))
  {
    assert TableAt(before, Child(q, j)) == Follow(before, TableAt(before, q), j);
    assert TableAt(after, Child(q, j)) == Follow(after, TableAt(after, q), j);
    if q == Child(p, i) {
      assert TableAt(before, q) == Follow(before, TableAt(before, p), i);
    }
  }

  // Linking a table: exactly one path appears (or, in a level 2 table, is redirected), and exactly
  // the translations of its 2 MB window can change.
  lemma LinkEffect(before: Ram, after: Ram, p: Path, i: Index, n: Page)
    requires !p.L3? && TableAt(before, p).Some?
    requires SameTables(before, after, p, i)
    requires Get(after, TableAt(before, p).value, i).valid && Get(after, TableAt(before, p).value, i).frame == n
    requires p.L2? || (!Get(before, TableAt(before, p).value, i).valid && PageAt(after, n) == ZEROS)
    ensures forall q :: TableAt(after, q) == if q == Child(p, i) then Some(n) else TableAt(before, q)
    ensures forall va :: Translate(after, va) ==
                         if p.L2? && Window(va) == Child(p, i) then Leaf(Get(after, n, va.i3))
                             else Translate(before, va)
  {
    var t := TableAt(before, p).value;
    forall q
      ensures TableAt(after, q) == if q == Child(p, i) then Some(n) else TableAt(before, q)
    {
      match q
      case Root =>
      case L1(a) => WalkLink(before, after, p, i, n, Root, a);
      case L2(a, b) =>
        WalkLink(before, after, p, i, n, Root, a);
        WalkLink(before, after, p, i, n, L1(a), b);
      case L3(a, b, c) =>
        WalkLink(before, after, p, i, n, Root, a);
        WalkLink(before, after, p, i, n, L1(a), b);
        WalkLink(before, after, p, i, n, L2(a, b), c);
    }
    forall va
      ensures Translate(after, va) ==
              if p.L2? && Window(va) == Child(p, i) then Leaf(Get(after, n, va.i3)) else Translate(before, va)
    {
      assert TableAt(before, Window(va)) == T3(before, va.i0, va.i1, va.i2);
      assert TableAt(after, Window(va)) == T3(after, va.i0, va.i1, va.i2);
    }
  }

  // Table t hangs at path p and nowhere else.
  ghost predicate OnlyAt(ram: Ram, t: Page, p: Path) {
    TableAt(ram, p) == Some(t) && forall q :: TableAt(ram, q) == Some(t) ==> q == p
  }

  // A write to one word of one page changes no other slot of the tree.
  ghost predicate OnlyPage(before: Ram, after: Ram, p: Page) {
    forall q :: q != p ==> PageAt(after, q) == PageAt(before, q)
  }

  lemma OneSlot(before: Ram, after: Ram, t: Page, p: Path, i: Index, w: Word)
    requires OnlyAt(before, t, p) && OnlyPage(before, after, t)
    requires PageAt(after, t) == PageAt(before, t)[i := w]
    ensures SameTables(before, after, p, i)
  {
  }

  // Linking a page that was in no table's place keeps the tree a tree.
  lemma TreeGrows(before: Ram, after: Ram, p: Path, n: Page)
    requires Tree(before) && Unreachable(before, n)
    requires forall q :: TableAt(after, q) == if q == p then Some(n) else TableAt(before, q)
    ensures Tree(after)
  {
    forall q, r | TableAt(after, q).Some? && TableAt(after, q) == TableAt(after, r)
      ensures q == r
    {
      assert TableAt(before, q) != Some(n) && TableAt(before, r) != Some(n);
    }
  }

  lemma WalkSame(before: Ram, after: Ram, va: Page, q: Path, j: Index)
    requires SameTables(before, after, Window(va), va.i3) && !q.L3?
    requires TableAt(after, q) == TableAt(before, q)
    ensures TableAt(after, Child(q, j)) == TableAt(before, Child(q, j))
  {
    assert TableAt(before, Child(q, j)) == Follow(before, TableAt(before, q), j);
    assert TableAt(after, Child(q, j)) == Follow(after, TableAt(after, q), j);
  }

  // Writing a leaf: no table moves, and exactly one translation changes.
  lemma LeafEffect(before: Ram, after: Ram, va: Page)
    requires TableAt(before, Window(va)).Some?
    requires SameTables(before, after, Window(va), va.i3)
    ensures forall q :: TableAt(after, q) == TableAt(before, q)
    ensures forall v :: Translate(after, v) ==
                        if v == va then Leaf(Get(after, TableAt(before, Window(va)).value, va.i3))
                            else Translate(before, v)
  {
    forall q
      ensures TableAt(after, q) == TableAt(before, q)
    {
      match q
      case Root =>
      case L1(a) => WalkSame(before, after, va, Root, a);
      case L2(a, b) =>
        WalkSame(before, after, va, Root, a);
        WalkSame(before, after, va, L1(a), b);
      case L3(a, b, c) =>
        WalkSame(before, after, va, Root, a);
        WalkSame(before, after, va, L1(a), b);
        WalkSame(before, after, va, L2(a, b), c);
    }
    forall v
      ensures Translate(after, v) ==
              if v == va then Leaf(Get(after, TableAt(before, Window(va)).value, va.i3)) else Translate(before, v)
    {
      assert TableAt(before, Window(v)) == T3(before, v.i0, v.i1, v.i2);
      assert TableAt(after, Window(v)) == T3(after, v.i0, v.i1, v.i2);
      if Window(v) == Window(va) && v != va {
        assert v.i3 != va.i3;
      }
    }
  }

  // Writes that miss every reachable table are invisible to the walk.
  lemma FrameEffect(before: Ram, after: Ram)
    requires forall q, j: Index :: TableAt(before, q).Some? ==>
                              Get(after, TableAt(before, q).value, j) == Get(before, TableAt(before, q).value, j)
    ensures forall q :: TableAt(after, q) == TableAt(before, q)
    ensures forall v :: Translate(after, v) == Translate(before, v)
  {
    var va := Pg(0, 0, 0, 0);
    forall q
      ensures TableAt(after, q) == TableAt(before, q)
    {
      match q
      case Root =>
      case L1(a) => WalkSame(before, after, va, Root, a);
      case L2(a, b) =>
        WalkSame(before, after, va, Root, a);
        WalkSame(before, after, va, L1(a), b);
      case L3(a, b, c) =>
        WalkSame(before, after, va, Root, a);
        WalkSame(before, after, va, L1(a), b);
        WalkSame(before, after, va, L2(a, b), c);
    }
    forall v
      ensures Translate(after, v) == Translate(before, v)
    {
      assert TableAt(before, Window(v)) == T3(before, v.i0, v.i1, v.i2);
      assert TableAt(after, Window(v)) == T3(after, v.i0, v.i1, v.i2);
    }
  }

  lemma FrameOnly(before: Ram, after: Ram, p: Page)
    requires Unreachable(before, p) && OnlyPage(before, after, p)
    ensures forall q :: TableAt(after, q) == TableAt(before, q)
    ensures forall v :: Translate(after, v) == Translate(before, v)
  {
    FrameEffect(before, after);
  }

  lemma WalkShrinks(before: Ram, after: Ram, f: Page, i: Index, q: Path, j: Index)
    requires OnlyPage(before, after, f) && PageAt(after, f) == PageAt(before, f)[i := ZERO] && !q.L3?
    requires TableAt(after, q) == TableAt(before, q) || TableAt(after, q) == None
    ensures TableAt(after, Child(q, j)) == TableAt(before, Child(q, j)) || TableAt(after, Child(q, j)) == None
  {
    assert TableAt(before, Child(q, j)) == Follow(before, TableAt(before, q), j);
    assert TableAt(after, Child(q, j)) == Follow(after, TableAt(after, q), j);
  }

  // A store of zero can only take tables and translations away.
  lemma ZeroShrinks(before: Ram, after: Ram, f: Page, i: Index)
    requires OnlyPage(before, after, f) && PageAt(after, f) == PageAt(before, f)[i := ZERO]
    ensures forall q :: TableAt(after, q) == TableAt(before, q) || TableAt(after, q) == None
    ensures forall v :: Translate(after, v) == Translate(before, v) || Translate(after, v) == None
  {
    forall q
      ensures TableAt(after, q) == TableAt(before, q) || TableAt(after, q) == None
    {
      match q
      case Root =>
      case L1(a) => WalkShrinks(before, after, f, i, Root, a);
      case L2(a, b) =>
        WalkShrinks(before, after, f, i, Root, a);
        WalkShrinks(before, after, f, i, L1(a), b);
      case L3(a, b, c) =>
        WalkShrinks(before, after, f, i, Root, a);
        WalkShrinks(before, after, f, i, L1(a), b);
        WalkShrinks(before, after, f, i, L2(a, b), c);
    }
    forall v
      ensures Translate(after, v) == Translate(before, v) || Translate(after, v) == None
    {
      assert TableAt(before, Window(v)) == T3(before, v.i0, v.i1, v.i2);
      assert TableAt(after, Window(v)) == T3(after, v.i0, v.i1, v.i2);
    }
  }
}
