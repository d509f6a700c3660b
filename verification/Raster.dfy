/** Drawing text into the frame buffer. */
module Raster {
  import opened Arithmetic

  const WIDTH: nat := 1280
  const HEIGHT: nat := 800

  datatype Color = Color(b: nat, g: nat, r: nat, a: nat)

  const BLACK := Color(0, 0, 0, 255)
  const WHITE := Color(255, 255, 255, 255)

  // For each of the 128 characters, eight rows of eight bits; bit 0 is the leftmost pixel.
  type Font = f: seq<seq<nat>> | |f| == 128 && forall c :: 0 <= c < 128 ==> |f[c]| == 8
    witness seq(128, c => seq(8, r => 0))

  function Shift(v: nat, n: nat): nat {
    if n == 0 then v else Shift(v / 2, n - 1)
  }

  // Shifting to the right is dividing by a power of two.
  lemma {:induction false} ShiftDivides(v: nat, n: nat)
    ensures Shift(v, n) == v / Pow2(n)
  {
    if n > 0 {
      ShiftDivides(v / 2, n - 1);
      DivideTwice(v, 2, Pow2(n - 1));
    }
  }

  predicate Ascii(text: string) { forall i :: 0 <= i < |text| ==> text[i] as nat < 128 }

  // The bit of a glyph, scaled by s, that the pixel (dx, dy) shows.
  function GlyphBit(glyph: seq<nat>, s: nat, dx: nat, dy: nat): nat {
    if s > 0 && dy / s < |glyph| then Shift(glyph[dy / s], dx / s) % 2 else 0
  }

  // Whether the pixel (dx, dy) of a character drawn at scale s is in the foreground.
  predicate Ink(font: Font, c: char, s: nat, dx: nat, dy: nat) {
    c as nat < 128 && GlyphBit(font[c as nat], s, dx, dy) == 1
  }

  // Inside a character's cell, row and column of the glyph are in range.
  lemma GlyphRow(s: nat, d: nat)
    requires d < 8 * s
    ensures 0 <= d / s < 8
  {
    assert d == s * (d / s) + d % s;
    Multiples(s, d / s - 7);
    Multiples(s, d / s);
  }

  lemma CellEnd(s: nat, d: nat)
    requires s > 0
    ensures d < 8 * s <==> d / s < 8
  {
    if d < 8 * s {
      GlyphRow(s, d);
    } else {
      assert d == s * (d / s) + d % s;
      Multiples(s, d / s - 8);
    }
  }

  // The pixel is in the foreground when bit dx / s of row dy / s of the glyph is set.
  lemma InkIsBit(font: Font, c: char, s: nat, dx: nat, dy: nat)
    requires c as nat < 128 && s > 0 && dx < 8 * s && dy < 8 * s
    ensures dy / s < 8
    ensures Ink(font, c, s, dx, dy) <==> font[c as nat][dy / s] / Pow2(dx / s) % 2 == 1
  {
    hide Shift, Pow2;
    GlyphRow(s, dy);
    ShiftDivides(font[c as nat][dy / s], dx / s);
  }

  predicate OnScreen(x: int, y: int) { 0 <= x < WIDTH && 0 <= y < HEIGHT }

  // The strip of n characters at scale s with its upper left corner at (x, y).
  predicate InStrip(x: int, y: int, n: nat, s: nat, px: int, py: int) {
    s > 0 && x <= px && (px - x) / (8 * s) < n && y <= py < y + 8 * s
  }

  // The color of the pixel (dx, dy) of the strip.
  function TextColor(font: Font, text: string, s: nat, c: Color, dx: int, dy: int): Color {
    if s == 0 || dx < 0 || dy < 0 then BLACK
    else
      var w: nat := 8 * s;
      var i: int, rest: int := dx / w, dx % w;
      if 0 <= i < |text| && 0 <= rest && Ink(font, text[i], s, rest, dy) then c else BLACK
  }

  // The i-th character of a strip covers the pixels with quotient i.
  lemma InCell(x: int, i: nat, w: nat, px: int)
    requires w > 0
    ensures x + i * w <= px < x + i * w + w <==> x <= px && (px - x) / w == i
    ensures x + i * w <= px < x + i * w + w ==> px - (x + i * w) == (px - x) % w
  {
    if x + i * w <= px < x + i * w + w {
      Remainder(w, i, px - (x + i * w));
      assert w * i == i * w;
    }
  }

  // A strip ends where its last character does.
  lemma StripWidth(x: int, y: int, n: nat, s: nat, px: int, py: int)
    requires s > 0
    ensures InStrip(x, y, n, s, px, py) <==> x <= px < x + 8 * s * n && y <= py < y + 8 * s
  {
    if x <= px {
      var w, d := 8 * s, px - x;
      assert d == w * (d / w) + d % w;
      assert w * (d / w - n) == w * (d / w) - w * n;
      Multiples(w, d / w - n);
    }
  }

  lemma FitsOnScreen(x: nat, i: nat, s: nat, n: nat)
    requires i < n && x + 8 * s * n <= WIDTH
    ensures x + i * s * 8 + 8 * s <= WIDTH && i * s * 8 == i * (8 * s)
  {
    assert 8 * s * (n - 1 - i) >= 0;
  }

  lemma EmptyStrip(x: int, y: int, s: nat)
    ensures forall px: int, py: int :: !InStrip(x, y, 0, s, px, py)
  {
    forall px: int, py: int
      ensures !InStrip(x, y, 0, s, px, py)
    {
      if s > 0 {
        StripWidth(x, y, 0, s, px, py);
      }
    }
  }

  // Drawing the i-th character of a strip extends it by one cell.
  lemma NextCell(font: Font, text: string, x: int, y: int, i: nat, c: Color, s: nat)
    requires s > 0 && i < |text|
    ensures forall px: int, py: int :: InStrip(x, y, i + 1, s, px, py) <==>
              InStrip(x, y, i, s, px, py) || (x + i * s * 8 <= px < x + i * s * 8 + 8 * s && y <= py < y + 8 * s)
    ensures forall px: int, py: int :: x + i * s * 8 <= px < x + i * s * 8 + 8 * s && y <= py < y + 8 * s ==>
              !InStrip(x, y, i, s, px, py) &&
              TextColor(font, text, s, c, px - x, py - y) ==
              if Ink(font, text[i], s, px - (x + i * s * 8), py - y) then c else BLACK
  {
    hide Ink;
    assert i * s * 8 == i * (8 * s);
    forall px: int, py: int
      ensures InStrip(x, y, i + 1, s, px, py) <==>
              InStrip(x, y, i, s, px, py) || (x + i * s * 8 <= px < x + i * s * 8 + 8 * s && y <= py < y + 8 * s)
    {
      InCell(x, i, 8 * s, px);
    }
    forall px: int, py: int | x + i * s * 8 <= px < x + i * s * 8 + 8 * s && y <= py < y + 8 * s
      ensures !InStrip(x, y, i, s, px, py)
      ensures TextColor(font, text, s, c, px - x, py - y) ==
              if Ink(font, text[i], s, px - (x + i * s * 8), py - y) then c else BLACK
    {
      InCell(x, i, 8 * s, px);
    }
  }

  // A cell that shows a letter shows the bits of its glyph.
  lemma InBits(screen: Screen, x: nat, y: nat, l: char, c: Color, size: nat)
    requires screen.Valid() && l as nat < 128 && size > 0
    requires forall px, py :: OnScreen(px, py) && x <= px < x + 8 * size && y <= py < y + 8 * size ==>
               screen.At(px, py) == if Ink(screen.font, l, size, px - x, py - y) then c else BLACK
    ensures forall px, py :: OnScreen(px, py) && x <= px < x + 8 * size && y <= py < y + 8 * size ==>
              (GlyphRow(size, px - x);
               GlyphRow(size, py - y);
               screen.At(px, py) ==
               if screen.font[l as nat][(py - y) / size] / Pow2((px - x) / size) % 2 == 1
               then c else Color(0, 0, 0, 255))
  {
    hide Ink, Pow2;
    forall px, py | OnScreen(px, py) && x <= px < x + 8 * size && y <= py < y + 8 * size
      ensures (GlyphRow(size, px - x);
               GlyphRow(size, py - y);
               screen.At(px, py) ==
               if screen.font[l as nat][(py - y) / size] / Pow2((px - x) / size) % 2 == 1
               then c else Color(0, 0, 0, 255))
    {
      InkIsBit(screen.font, l, size, px - x, py - y);
    }
  }

  // Where a pixel of a strip lies: in which character, and in which column and row of its glyph.
  lemma StripPlace(x: int, y: int, n: nat, s: nat, px: int, py: int)
    requires InStrip(x, y, n, s, px, py)
    ensures s > 0 && x <= px && y <= py < y + 8 * s
    ensures 0 <= (px - x) / (8 * s) < n && 0 <= (px - x) % (8 * s) < 8 * s
    ensures 0 <= (px - x) % (8 * s) / s < 8 && 0 <= (py - y) / s < 8
  {
    var d := px - x;
    assert d == (8 * s) * (d / (8 * s)) + d % (8 * s);
    Multiples(8 * s, d / (8 * s));
    GlyphRow(s, d % (8 * s));
    GlyphRow(s, py - y);
  }

  // A strip that shows a text shows the bits of its glyphs.
  lemma TextInBits(screen: Screen, x: nat, y: nat, text: string, c: Color, size: nat)
    requires screen.Valid() && Ascii(text)
    requires forall px, py :: OnScreen(px, py) && InStrip(x, y, |text|, size, px, py) ==>
               screen.At(px, py) == TextColor(screen.font, text, size, c, px - x, py - y)
    ensures forall px, py :: OnScreen(px, py) && InStrip(x, y, |text|, size, px, py) ==>
              (StripPlace(x, y, |text|, size, px, py);
               var j, i := px - x, py - y;
               screen.At(px, py) ==
               if screen.font[text[j / (8 * size)] as nat][i / size] / Pow2(j % (8 * size) / size) % 2 == 1
               then c else Color(0, 0, 0, 255))
  {
    hide Ink, Pow2, InStrip, TextColor;
    forall px, py | OnScreen(px, py) && InStrip(x, y, |text|, size, px, py)
      ensures (StripPlace(x, y, |text|, size, px, py);
               var j, i := px - x, py - y;
               screen.At(px, py) ==
               if screen.font[text[j / (8 * size)] as nat][i / size] / Pow2(j % (8 * size) / size) % 2 == 1
               then c else Color(0, 0, 0, 255))
    {
      StripPlace(x, y, |text|, size, px, py);
      TextBit(screen.font, text, size, c, px - x, py - y);
    }
  }

  lemma TextBit(font: Font, text: string, s: nat, c: Color, dx: int, dy: int)
    requires Ascii(text) && s > 0 && 0 <= dx && 0 <= dy < 8 * s
    requires 0 <= dx / (8 * s) < |text| && 0 <= dx % (8 * s) < 8 * s && 0 <= dx % (8 * s) / s < 8 && 0 <= dy / s < 8
    ensures TextColor(font, text, s, c, dx, dy) ==
            if font[text[dx / (8 * s)] as nat][dy / s] / Pow2(dx % (8 * s) / s) % 2 == 1 then c else Color(0, 0, 0, 255)
  {
    hide Ink, Pow2;
    InkIsBit(font, text[dx / (8 * s)], s, dx % (8 * s), dy);
  }

  class Screen {
    const font: Font
    const display: array<Color>

    ghost predicate Valid() { display.Length == WIDTH * HEIGHT }

    constructor (font: Font)
      ensures Valid() && this.font == font && fresh(display)
    {
      this.font := font;
      display := new Color[WIDTH * HEIGHT](_ => Color(0, 0, 0, 0));
    }

    ghost function At(x: int, y: int): Color
      requires Valid() && OnScreen(x, y)
      reads display
    {
      display[y * WIDTH + x]
    }

    method DrawPixel(x: int, y: int, c: Color)
      requires Valid() && OnScreen(x, y)
      modifies display
      ensures display[..] == old(display[..])[y * 1280 + x := c]
      ensures forall px, py :: OnScreen(px, py) ==> At(px, py) == if px == x && py == y then c else old(At(px, py))
    {
      display[y * WIDTH + x] := c;
    }

    method DrawLetter(x: nat, y: nat, l: char, c: Color, size: nat)
      requires Valid() && l as nat < 128 && size > 0 && x + 8 * size <= WIDTH && y + 8 * size <= HEIGHT
      modifies display
      ensures forall px, py :: OnScreen(px, py) ==>
                At(px, py) == if x <= px < x + 8 * size && y <= py < y + 8 * size
                              then if Ink(font, l, size, px - x, py - y) then c else BLACK
                              else old(At(px, py))
      // in bits of the font: bit 0 of row 0 is the upper left pixel
      ensures forall px, py :: OnScreen(px, py) && x <= px < x + 8 * size && y <= py < y + 8 * size ==>
                (GlyphRow(size, px - x);
                 GlyphRow(size, py - y);
                 At(px, py) ==
                 if font[l as nat][(py - y) / size] / Pow2((px - x) / size) % 2 == 1 then c else Color(0, 0, 0, 255))
    {
      hide GlyphBit, Pow2;
      var letter := font[l as nat];
      var i := 0;
      while i < 8 * size
        invariant 0 <= i <= 8 * size
        invariant forall px, py :: OnScreen(px, py) ==>
                    At(px, py) == if x <= px < x + 8 * size && y <= py < y + i
                                  then if Ink(font, l, size, px - x, py - y) then c else BLACK
                                  else old(At(px, py))
      {
        assert i / size < |letter| by { GlyphRow(size, i); }
        var j := 0;
        while j < 8 * size
          invariant 0 <= j <= 8 * size
          invariant forall px, py :: OnScreen(px, py) ==>
                      At(px, py) == if (x <= px < x + 8 * size && y <= py < y + i) || (x <= px < x + j && py == y + i)
                                    then if Ink(font, l, size, px - x, py - y) then c else BLACK
                                    else old(At(px, py))
        {
          var bit := GlyphBit(letter, size, j, i);
          if bit == 1 {
            DrawPixel(x + j, y + i, c);
          } else {
            DrawPixel(x + j, y + i, BLACK);
          }
          j := j + 1;
        }
        i := i + 1;
      }
      InBits(this, x, y, l, c, size);
    }

    // Every pixel of the strip shows its part of its character; every other pixel stays.
    method DrawText(x: nat, y: nat, text: string, c: Color, size: nat)
      requires Valid() && Ascii(text) && size > 0 && x + 8 * size * |text| <= WIDTH && y + 8 * size <= HEIGHT
      modifies display
      ensures forall px, py :: OnScreen(px, py) ==>
                At(px, py) == if InStrip(x, y, |text|, size, px, py) then TextColor(font, text, size, c, px - x, py - y)
                              else old(At(px, py))
      // in bits of the font: quotient and remainder by the cell's width give the character and its column
      ensures forall px, py :: OnScreen(px, py) && InStrip(x, y, |text|, size, px, py) ==>
                (StripPlace(x, y, |text|, size, px, py);
                 var j, i := px - x, py - y;
                 At(px, py) ==
                 if font[text[j / (8 * size)] as nat][i / size] / Pow2(j % (8 * size) / size) % 2 == 1
                 then c else Color(0, 0, 0, 255))
    {
      hide Ink, InStrip, TextColor, Pow2;
      EmptyStrip(x, y, size);
      var i := 0;
      while i < |text|
        invariant 0 <= i <= |text|
        invariant forall px, py :: OnScreen(px, py) ==>
                    At(px, py) == if InStrip(x, y, i, size, px, py) then TextColor(font, text, size, c, px - x, py - y)
                                  else old(At(px, py))
      {
        FitsOnScreen(x, i, size, |text|);
        DrawLetter(x + i * size * 8, y, text[i], c, size);
        NextCell(font, text, x, y, i, c, size);
        i := i + 1;
      }
      TextInBits(this, x, y, text, c, size);
    }

    method ClearScreen()
      requires Valid()
      modifies display
      ensures forall px, py :: OnScreen(px, py) ==> At(px, py) == BLACK
    {
      var i := 0;
      while i < WIDTH
        invariant 0 <= i <= WIDTH
        invariant forall px, py :: OnScreen(px, py) && px < i ==> At(px, py) == BLACK
      {
        var j := 0;
        while j < HEIGHT
          invariant 0 <= j <= HEIGHT
          invariant forall px, py :: OnScreen(px, py) && (px < i || (px == i && py < j)) ==> At(px, py) == BLACK
        {
          DrawPixel(i, j, BLACK);
          j := j + 1;
        }
        i := i + 1;
      }
    }
  }
}
