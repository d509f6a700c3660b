/**
  Addresses and table words.

  A 48-bit address is kept as the four 9-bit indices that the table walk extracts from it (the
  12-bit page offset is always zero here), and a 64-bit table word as its bit fields.  `Num`
  and `Encode` give the numbers back; both are bijections.
*/
module Words {
  const PAGES: nat := 0x10_0000_0000   // 4 KB pages in the 48-bit address space

  type Index = i: nat | i < 512

  datatype Page = Pg(i0: Index, i1: Index, i2: Index, i3: Index)

  function Num(p: Page): (n: nat)
    ensures n < PAGES
  {
    p.i0 * 0x800_0000 + p.i1 * 0x4_0000 + p.i2 * 512 + p.i3
  }

  // The shifts and masks `(va >> 39) & 0x1FF` ... `(va >> 12) & 0x1FF` on the address n * 4096.
  function PageOf(n: nat): (p: Page)
    requires n < PAGES
    ensures Num(p) == n
  {
    var w := n / 512;
    var g := w / 512;
    Pg(g / 512, g % 512, w % 512, n % 512)
  }

  lemma NumInjective(p: Page, q: Page)
    requires Num(p) == Num(q)
    ensures p == q
  {
    assert p.i0 == q.i0;
    assert p.i1 == q.i1;
    assert p.i2 == q.i2;
  }

  // Pages that lie `k` further on but still in the same 2 MB window differ only in the last index.
  lemma SameWindow(p: Page, q: Page, k: nat)
    requires Num(q) == Num(p) + k && p.i3 + k < 512
    ensures q == p.(i3 := p.i3 + k)
  {
    NumInjective(q, p.(i3 := p.i3 + k));
  }

  // A translation-table word: bit 0, bits 12..47, and all remaining bits (1..11 low, 48..63 high).
  datatype Word = Word(valid: bool, frame: Page, attr: nat)

  const ZERO := Word(false, Pg(0, 0, 0, 0), 0)

  const TABLE: nat := 1           // PAGETABLEATTRIBUTES without bit 0
  const NORMAL: nat := 0x381      // PAGEATTRIBUTESFORNORMALMEMORY without bit 0
  const DEVICE: nat := 0x30383    // PAGEATTRIBUTESFORDEVICEMEMORY without bit 0

  // The 64-bit number with bit 0 = b, bits 1..11 = lo, bits 12..47 = f and bits 48..63 = hi.
  function Pack(b: nat, lo: nat, f: nat, hi: nat): nat {
    b + 2 * (lo + 2048 * (f + PAGES * hi))
  }

  lemma Fields(x: nat, b: nat, lo: nat, f: nat, hi: nat)
    requires b < 2 && lo < 2048 && f < PAGES
    ensures x == Pack(b, lo, f, hi) <==>
            x % 2 == b && x / 2 % 2048 == lo && x / 2 / 2048 % PAGES == f && x / 2 / 2048 / PAGES == hi
  {
    var y := x / 2;
    var z := y / 2048;
    assert x == 2 * y + x % 2;
    assert y == 2048 * z + y % 2048;
    assert z == PAGES * (z / PAGES) + z % PAGES;
  }

  function Encode(w: Word): nat {
    Pack(if w.valid then 1 else 0, w.attr % 2048, Num(w.frame), w.attr / 2048)
  }

  function Decode(x: nat): Word {
    Word(x % 2 == 1, PageOf(x / 2 / 2048 % PAGES), x / 2 % 2048 + x / 2 / 2048 / PAGES * 2048)
  }

  lemma DecodeEncode(w: Word)
    ensures Decode(Encode(w)) == w
  {
    Fields(Encode(w), if w.valid then 1 else 0, w.attr % 2048, Num(w.frame), w.attr / 2048);
    NumInjective(w.frame, PageOf(Num(w.frame)));
  }

  lemma EncodeDecode(x: nat)
    ensures Encode(Decode(x)) == x
  {
    var b, lo, f, hi := x % 2, x / 2 % 2048, x / 2 / 2048 % PAGES, x / 2 / 2048 / PAGES;
    Fields(x, b, lo, f, hi);
    assert (lo + hi * 2048) % 2048 == lo && (lo + hi * 2048) / 2048 == hi;
    assert Decode(x) == Word(b == 1, PageOf(f), lo + hi * 2048);
  }

  // `attributes | address` for the three attribute constants of mmu.h.
  lemma AttributeWords(f: Page)
    ensures Encode(Word(true, f, TABLE)) == 0x3 + 4096 * Num(f)
    ensures Encode(Word(true, f, NORMAL)) == 0x703 + 4096 * Num(f)
    ensures Encode(Word(true, f, DEVICE)) == 0x60_0000_0000_0000 + 0x707 + 4096 * Num(f)
    ensures Encode(ZERO) == 0
  {
    assert DEVICE % 2048 == 0x383 && DEVICE / 2048 == 0x60;
  }
}
