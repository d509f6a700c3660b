/** The terminal itself: formatting into the ring and redrawing the screen. */
module Terminals {
  import opened Arithmetic
  import opened Formatting
  import opened Numerals
  import opened Raster
  import opened TerminalRing

  const MAX_TEXT_LENGTH: nat := 80
  const SCALE: nat := 2

  // The color of a pixel when `rows` are drawn below each other, 32 pixels apart, on black.
  function ScreenColor(font: Font, rows: seq<string>, px: int, py: int): Color {
    if 0 <= py && py / 32 < |rows| && py % 32 < 16 then TextColor(font, rows[py / 32], SCALE, WHITE, px, py % 32)
    else BLACK
  }

  // The row holds the line and its terminator; what follows may be left over from an older line.
  predicate Holds(row: string, line: string) {
    |line| < |row| && row[..|line|] == line && row[|line|] == NUL
  }

  // The line that a call leaves in its row; an empty format writes nothing, so the old text stays.
  function Line(row: string, fom: string, args: seq<Arg>): string
    requires WellFormed(fom, args)
  {
    if fom == "" then CString(row) else Output(fom, args, MAX_TEXT_LENGTH)
  }

  lemma LineHeld(row: string, fom: string, args: seq<Arg>)
    requires WellFormed(fom, args) && Ascii(Output(fom, args, MAX_TEXT_LENGTH))
    requires |row| == MAX_TEXT_LENGTH && Ascii(row) && NUL in row
    ensures var after := BufferAfter(row, fom, args, MAX_TEXT_LENGTH);
            Holds(after, Line(row, fom, args)) && Ascii(after) && NUL in after
  {
    hide CString, Render;
    if fom == "" {
      CStringIs(row);
    } else {
      var n := |Output(fom, args, MAX_TEXT_LENGTH)|;
      assert BufferAfter(row, fom, args, MAX_TEXT_LENGTH)[n] == NUL;
    }
  }

  // What the ring holds after the calls that wrote `lines`: the latest forty of them.
  ghost predicate RingHolds(rows: seq<string>, lines: seq<string>) {
    && |rows| == 40
    && (forall k :: 0 <= k < 40 ==> |rows[k]| == MAX_TEXT_LENGTH && Ascii(rows[k]) && NUL in rows[k])
    && (forall n :: 0 <= n < |lines| <= n + 40 ==> Holds(rows[n % 40], lines[n]))
  }

  lemma RowsDiffer(n: nat, m: nat)
    requires n < m < n + 40
    ensures n % 40 != m % 40
  {
  }

  lemma RingGrows(rows: seq<string>, lines: seq<string>, row: string, line: string)
    requires RingHolds(rows, lines) && |row| == MAX_TEXT_LENGTH && Ascii(row) && NUL in row && Holds(row, line)
    ensures RingHolds(rows[|lines| % 40 := row], lines + [line])
  {
    hide Holds;
    var m := |lines|;
    forall n | 0 <= n < m + 1 <= n + 40
      ensures Holds(rows[m % 40 := row][n % 40], (lines + [line])[n])
    {
      if n < m {
        RowsDiffer(n, m);
      }
    }
  }

  function RowOf(n: nat, i: nat): (k: nat)
    requires i < Shown(n)
    ensures k < 40
  {
    RowDrawn(n, i);
    (n - Shown(n) + i) % 40
  }

  // The rows of the latest calls, oldest first.
  function Latest(rows: seq<string>, n: nat): seq<string>
    requires |rows| == 40
  {
    seq(Shown(n), i requires 0 <= i < Shown(n) => rows[RowOf(n, i)])
  }

  // The i-th row shown is the one that call number n - Shown(n) + i wrote, if that line is still there.
  lemma LatestLines(rows: seq<string>, lines: seq<string>, i: nat)
    requires RingHolds(rows, lines) && i < Shown(|lines|)
    ensures Shown(|lines|) <= |lines|
    ensures Holds(Latest(rows, |lines|)[i], lines[|lines| - Shown(|lines|) + i])
  {
    RowDrawn(|lines|, i);
  }

  lemma NoRows(font: Font)
    ensures forall px: int, py: int :: ScreenColor(font, [], px, py) == BLACK
  {
  }

  // Drawing one more row below the others.
  lemma NextRow(font: Font, rows: seq<string>, i: nat, px: int, py: int)
    requires i < |rows| && |rows[i]| == MAX_TEXT_LENGTH && OnScreen(px, py)
    ensures ScreenColor(font, rows[..i + 1], px, py) ==
            if InStrip(0, i * 4 * 8, MAX_TEXT_LENGTH, SCALE, px, py)
            then TextColor(font, rows[i], SCALE, WHITE, px - 0, py - i * 4 * 8)
            else ScreenColor(font, rows[..i], px, py)
  {
    hide TextColor;
    StripWidth(0, i * 4 * 8, MAX_TEXT_LENGTH, SCALE, px, py);
    hide InStrip;
    if i * 32 <= py < i * 32 + 32 {
      assert py / 32 == i;
    }
  }

  lemma RowShape(rows: seq<string>, lines: seq<string>, k: nat)
    requires RingHolds(rows, lines) && k < 40
    ensures |rows| == 40 && |rows[k]| == MAX_TEXT_LENGTH && Ascii(rows[k]) && NUL in rows[k]
  {
  }

  // The screen in numbers: rows of 80 characters, 32 pixels apart, each character 16 pixels wide and high.
  lemma PixelInNumbers(font: Font, rows: seq<string>, x: nat, y: nat)
    requires x < 1280 && forall i :: 0 <= i < |rows| ==> |rows[i]| == 80 && Ascii(rows[i])
    ensures ScreenColor(font, rows, x, y) ==
            if y / 32 < |rows| && y % 32 < 16 && x / 16 < |rows[y / 32]| && rows[y / 32][x / 16] as nat < 128
               && font[rows[y / 32][x / 16] as nat][y % 32 / 2] / Pow2(x % 16 / 2) % 2 == 1
            then Color(255, 255, 255, 255) else Color(0, 0, 0, 255)
  {
    hide Ink, Pow2, TextColor;
    if y / 32 < |rows| && y % 32 < 16 {
      TextBit(font, rows[y / 32], 2, WHITE, x, y % 32);
    }
  }

  lemma ScreenInNumbers(screen: Screen, rows: seq<string>)
    requires screen.Valid() && forall i :: 0 <= i < |rows| ==> |rows[i]| == 80 && Ascii(rows[i])
    requires forall px, py :: OnScreen(px, py) ==> screen.At(px, py) == ScreenColor(screen.font, rows, px, py)
    ensures forall k :: 0 <= k < 1280 * 800 ==>
              var x, y := k % 1280, k / 1280;
              screen.display[k] ==
              if y / 32 < |rows| && y % 32 < 16 && x / 16 < |rows[y / 32]| && rows[y / 32][x / 16] as nat < 128
                 && screen.font[rows[y / 32][x / 16] as nat][y % 32 / 2] / Pow2(x % 16 / 2) % 2 == 1
              then Color(255, 255, 255, 255) else Color(0, 0, 0, 255)
  {
    hide ScreenColor, Pow2;
    forall k | 0 <= k < 1280 * 800
      ensures var x, y := k % 1280, k / 1280;
              screen.display[k] ==
              if y / 32 < |rows| && y % 32 < 16 && x / 16 < |rows[y / 32]| && rows[y / 32][x / 16] as nat < 128
                 && screen.font[rows[y / 32][x / 16] as nat][y % 32 / 2] / Pow2(x % 16 / 2) % 2 == 1
              then Color(255, 255, 255, 255) else Color(0, 0, 0, 255)
    {
      assert screen.display[k] == screen.At(k % 1280, k / 1280);
      PixelInNumbers(screen.font, rows, k % 1280, k / 1280);
    }
  }

  lemma LatestShape(rows: seq<string>, lines: seq<string>)
    requires RingHolds(rows, lines)
    ensures forall i :: 0 <= i < Shown(|lines|) ==>
              |Latest(rows, |lines|)[i]| == 80 && Ascii(Latest(rows, |lines|)[i])
  {
  }

  class Terminal {
    const screen: Screen
    const rows: seq<array<char>>   // circular_buffer
    var head: int
    var tail: int
    ghost var lines: seq<string>   // what each call so far wrote

    ghost function Contents(): seq<string>
      reads rows
    {
      seq(|rows|, i requires 0 <= i < |rows| reads rows => rows[i][..])
    }

    ghost predicate Valid()
      reads this, rows
    {
      && screen.Valid() && |rows| == 40 && RingHolds(Contents(), lines)
      && (forall i, j :: 0 <= i < j < 40 ==> rows[i] != rows[j])
      && Ring(head, tail) == After(|lines|)
    }

    constructor (screen: Screen)
      requires screen.Valid()
      ensures Valid() && this.screen == screen && lines == []
    {
      var rs: seq<array<char>> := [];
      while |rs| < 40
        invariant |rs| <= 40
        invariant forall i :: 0 <= i < |rs| ==> fresh(rs[i]) && rs[i].Length == MAX_TEXT_LENGTH && rs[i][0] == NUL
        invariant forall i :: 0 <= i < |rs| ==> Ascii(rs[i][..])
        invariant forall i, j :: 0 <= i < j < |rs| ==> rs[i] != rs[j]
      {
        var row := new char[MAX_TEXT_LENGTH](_ => NUL);
        rs := rs + [row];
      }
      this.screen := screen;
      rows := rs;
      head, tail := 0, 0;
      lines := [];
    }

    // The call of format_string.
    method WriteLine(fom: string, args: seq<Arg>)
      requires Valid() && WellFormed(fom, args) && Ascii(Output(fom, args, MAX_TEXT_LENGTH))
      modifies this`lines, rows
      ensures 0 <= head < 40 && lines == old(lines) + [Line(old(rows[head][..]), fom, args)]
      ensures RingHolds(Contents(), lines)
    {
      hide RingHolds, After;
      AfterCalls(|lines|);
      RowShape(Contents(), lines, head);
      assert Contents()[head] == rows[head][..];
      LineHeld(rows[head][..], fom, args);
      ghost var line := Line(rows[head][..], fom, args);
      FormatString(fom, args, rows[head], MAX_TEXT_LENGTH);
      assert Contents() == old(Contents())[head := rows[head][..]];
      RingGrows(old(Contents()), lines, rows[head][..], line);
      lines := lines + [line];
    }

    // The redraw loop.
    method Redraw()
      requires Valid() && forall px, py :: OnScreen(px, py) ==> screen.At(px, py) == BLACK
      modifies screen.display
      ensures forall px, py :: OnScreen(px, py) ==>
                screen.At(px, py) == ScreenColor(screen.font, Latest(Contents(), |lines|), px, py)
      ensures forall k :: 0 <= k < 1280 * 800 ==>
                var x, y, shown := k % 1280, k / 1280, Latest(Contents(), |lines|);
                screen.display[k] ==
                if y / 32 < |shown| && y % 32 < 16 && x / 16 < |shown[y / 32]| && shown[y / 32][x / 16] as nat < 128
                   && screen.font[shown[y / 32][x / 16] as nat][y % 32 / 2] / Pow2(x % 16 / 2) % 2 == 1
                then Color(255, 255, 255, 255) else Color(0, 0, 0, 255)
    {
      hide RingHolds, After, ScreenColor, TextColor, InStrip, Rem, Pow2;
      ghost var n, latest := |lines|, Latest(Contents(), |lines|);
      RowDrawn(n, 0);
      NoRows(screen.font);
      assert latest[..0] == [];
      var i := 0;
      while i < Rem(head - tail, 40)
        invariant 0 <= i <= Shown(n) == |latest| && Contents() == old(Contents())
        invariant i < Rem(head - tail, 40) <==> i < Shown(n)
        invariant forall px, py :: OnScreen(px, py) ==>
            screen.At(px, py) == ScreenColor(screen.font, latest[..i], px, py)
      {
        RowDrawn(n, i);
        RowShape(Contents(), lines, RowOf(n, i));
        screen.DrawText(0, i * 4 * 8, rows[Rem(tail + i, 40)][..], WHITE, SCALE);
        forall px, py | OnScreen(px, py)
          ensures screen.At(px, py) == ScreenColor(screen.font, latest[..i + 1], px, py)
        {
          NextRow(screen.font, latest, i, px, py);
        }
        i := i + 1;
        RowDrawn(n, i);
      }
      assert latest[..Shown(n)] == latest;
      LatestShape(Contents(), lines);
      ScreenInNumbers(screen, latest);
    }

    // After a call, the new line is in the ring, and every pixel of the screen shows its part of the
    // lines of the latest calls, or nothing.
    method Printf(fom: string, args: seq<Arg>)
      requires Valid() && WellFormed(fom, args) && Ascii(Output(fom, args, MAX_TEXT_LENGTH))
      modifies this, rows, screen.display
      ensures Valid() && 0 <= old(head) < 40 && lines == old(lines) + [Line(old(rows[head][..]), fom, args)]
      ensures forall px, py :: OnScreen(px, py) ==>
                screen.At(px, py) == ScreenColor(screen.font, Latest(Contents(), |lines|), px, py)
      // the same on the frame buffer, row by row from the top
      ensures forall k :: 0 <= k < 1280 * 800 ==>
                var x, y, shown := k % 1280, k / 1280, Latest(Contents(), |lines|);
                screen.display[k] ==
                if y / 32 < |shown| && y % 32 < 16 && x / 16 < |shown[y / 32]| && shown[y / 32][x / 16] as nat < 128
                   && screen.font[shown[y / 32][x / 16] as nat][y % 32 / 2] / Pow2(x % 16 / 2) % 2 == 1
                then Color(255, 255, 255, 255) else Color(0, 0, 0, 255)
    {
      hide RingHolds, Rem, Output, ScreenColor, Pow2;
      screen.ClearScreen();
      WriteLine(fom, args);
      head := Rem(head + 1, 40);
      if Rem(head - tail, 40) > 20 {
        if Rem(head - tail, 40) > 21 {
          // left as it is
        } else {
          tail := Rem(tail + 1, 20);
        }
      }
      Redraw();
    }
  }
}
