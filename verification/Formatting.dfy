/** format_string against an ideal formatter without buffer limits. */
module Formatting {
  import opened Arithmetic
  import opened Numerals

  // The variable arguments.
  datatype Arg = Text(s: string) | Int(v: int) | Pointer(a: nat)

  // A C string ends at its first NUL.
  function At(s: string, i: nat): char { if i < |s| then s[i] else NUL }

  function CString(s: string): (r: string)
    ensures |r| <= |s|
  {
    if s == "" || s[0] == NUL then "" else [s[0]] + CString(s[1..])
  }

  predicate NoNul(s: string) { forall i :: 0 <= i < |s| ==> s[i] != NUL }

  // The conversions that take an argument, and the argument each takes.
  predicate Takes(c: char) { c == 's' || c == 'c' || c == 'u' || c == 'x' || c == 'p' }

  predicate Suits(c: char, a: Arg) {
    match c
    case 's' => a.Text?
    case 'p' => a.Pointer? && a.a < W64
    case _ => a.Int? && -INT_MAX - 1 <= a.v <= INT_MAX
  }

  // What a conversion yields, with room for all of it.
  function Converted(c: char, a: Arg): string
    requires Suits(c, a)
  {
    match c
    case 's' => CString(a.s)
    case 'c' => if a.v == 0 then "" else [(a.v % 256) as char]
    case 'u' => Decimal(a.v)
    case 'x' => Hex(a.v % W32, 8)
    case 'p' => Hex(a.a, 16)
    case _ => ""
  }

  // No NUL, no lone '%' at the end, and a suitable argument for each conversion.
  predicate WellFormed(fmt: string, args: seq<Arg>) {
    if fmt == "" then true
    else if fmt[0] == NUL then false
    else if fmt[0] != '%' then WellFormed(fmt[1..], args)
    else if |fmt| == 1 || fmt[1] == NUL then false
    else if Takes(fmt[1]) then |args| > 0 && Suits(fmt[1], args[0]) && WellFormed(fmt[2..], args[1..])
    else WellFormed(fmt[2..], args)
  }

  function Render(fmt: string, args: seq<Arg>): string
    requires WellFormed(fmt, args)
  {
    if fmt == "" then ""
    else if fmt[0] != '%' then [fmt[0]] + Render(fmt[1..], args)
    else if Takes(fmt[1]) then Converted(fmt[1], args[0]) + Render(fmt[2..], args[1..])
    else if fmt[1] == '%' then "%" + Render(fmt[2..], args)
    else Render(fmt[2..], args)
  }

  function Min(a: int, b: int): int { if a <= b then a else b }

  lemma {:induction false} CStringFrom(s: string, n: nat)
    requires n <= |s| && NoNul(s[..n])
    ensures n <= |CString(s)| && CString(s)[..n] == s[..n]
    ensures At(s, n) == NUL ==> |CString(s)| == n
    ensures At(s, n) != NUL ==> |CString(s)| > n
  {
    if n > 0 {
      assert s[0] == s[..n][0];
      assert s[1..][..n - 1] == s[..n][1..];
      CStringFrom(s[1..], n - 1);
      assert s[..n] == [s[0]] + s[1..][..n - 1];
    }
  }

  // The loops that copy an argument into the output: up to the argument's end, the end of the
  // output buffer, or `limit` characters.
  method Copy(text: string, limit: nat, output: array<char>, start: nat, max: nat) returns (end: nat)
    requires start < max <= output.Length && |CString(text)| <= limit
    modifies output
    ensures end == Min(start + |CString(text)|, max - 1)
    ensures output[..start] == old(output[..start]) && output[start..end] == CString(text)[..end - start]
    ensures forall j :: end <= j < output.Length ==> output[j] == old(output[j])
  {
    hide CString;
    end := start;
    var i := 0;
    while At(text, i) != NUL && end < max - 1 && i < limit
      invariant start <= end <= max - 1 && i == end - start <= |text|
      invariant forall j :: 0 <= j < i ==> text[j] != NUL && output[start + j] == text[j]
      invariant forall j :: 0 <= j < start || end <= j < output.Length ==> output[j] == old(output[j])
      decreases max - end
    {
      output[end] := text[i];
      end := end + 1;
      i := i + 1;
    }
    CStringFrom(text, i);
    assert output[start..end] == text[..i];
  }

  // The text that a buffer holds after a number was printed into it.
  lemma Printed(buf: string, text: string)
    requires |text| < |buf| && buf[..|text|] == text && NoNul(text) && buf[|text|] == NUL
    ensures CString(buf) == text
  {
    CStringFrom(buf, |text|);
    assert CString(buf)[..|text|] == CString(buf);
  }

  lemma DigitsNotNul(v: int)
    ensures NoNul(Decimal(v))
  {
    if v >= 0 {
      DecimalParses(v);
    }
  }

  lemma HexNoNul(v: nat, n: nat)
    ensures NoNul(Hex(v, n))
  {
    HexNotNul(v, n);
  }

  // Written so far: all of the rendering that fits.
  ghost predicate SoFar(full: string, written: string, rest: string, max: nat) {
    if |written| < max - 1 then full == written + rest else |written| == max - 1 && written <= full
  }

  // A number of `size` bytes in hexadecimal, through a buffer on the stack.
  method ConvertHex(value: nat, size: nat, output: array<char>, start: nat, max: nat) returns (end: nat)
    requires (size == 4 || size == 8) && value < Pow16(2 * size) && start < max <= output.Length
    modifies output
    ensures end == Min(start + 2 * size + 2, max - 1)
    ensures output[..start] == old(output[..start]) && output[start..end] == Hex(value, 2 * size)[..end - start]
    ensures forall j :: end <= j < output.Length ==> output[j] == old(output[j])
  {
    hide CString, HexDigits, Pow16;
    var param := new char[2 * size + 3];
    HexNoNul(value, 2 * size);
    IntToHexString(value, size, param);
    Printed(param[..], Hex(value, 2 * size));
    end := Copy(param[..], 2 * size + 2, output, start, max);
  }

  method ConvertInt(value: int, output: array<char>, start: nat, max: nat) returns (end: nat)
    requires value <= INT_MAX && start < max <= output.Length
    modifies output
    ensures end == Min(start + |Decimal(value)|, max - 1)
    ensures output[..start] == old(output[..start]) && output[start..end] == Decimal(value)[..end - start]
    ensures forall j :: end <= j < output.Length ==> output[j] == old(output[j])
  {
    hide CString, Decimal;
    var param := new char[11];
    DigitsNotNul(value);
    IntToStr(value, param);
    Printed(param[..], Decimal(value));
    end := Copy(param[..], 10, output, start, max);
  }

  lemma Widths()
    ensures Pow16(8) == W32 && Pow16(16) == W64
  {
    assert Pow16(4) == 0x1_0000;
    assert Pow16(8) == W32;
    assert Pow16(12) == 0x1_0000_0000_0000;
  }

  // One conversion with its argument.
  method Convert(c: char, a: Arg, output: array<char>, start: nat, max: nat) returns (end: nat)
    requires Takes(c) && Suits(c, a) && start < max - 1 && max <= output.Length
    modifies output
    ensures end == Min(start + |Converted(c, a)|, max - 1)
    ensures output[..start] == old(output[..start]) && output[start..end] == Converted(c, a)[..end - start]
    ensures forall j :: end <= j < output.Length ==> output[j] == old(output[j])
  {
    hide CString, Decimal, HexDigits, Pow16;
    Widths();
    if c == 's' {
      end := Copy(a.s, |a.s|, output, start, max);
    } else if c == 'c' {
      end := start;
      if a.v != 0 && end < max - 1 {
        output[end] := (a.v % 256) as char;
        end := end + 1;
      }
    } else if c == 'u' {
      end := ConvertInt(a.v, output, start, max);
    } else if c == 'x' {
      end := ConvertHex(a.v % W32, 4, output, start, max);
    } else {
      end := ConvertHex(a.a, 8, output, start, max);
    }
  }

  // ---- one item of the format: a plain character, or '%' and the character after it ----

  function ItemLength(fmt: string): (n: nat)
    ensures n > 0
  {
    if At(fmt, 0) == '%' then 2 else 1
  }

  function ItemArgs(fmt: string): nat { if At(fmt, 0) == '%' && Takes(At(fmt, 1)) then 1 else 0 }

  function Item(fmt: string, args: seq<Arg>): string
    requires fmt != "" && WellFormed(fmt, args)
  {
    if fmt[0] != '%' then [fmt[0]]
    else if Takes(fmt[1]) then Converted(fmt[1], args[0])
    else if fmt[1] == '%' then "%"
    else ""
  }

  lemma FirstItem(fmt: string, args: seq<Arg>)
    requires fmt != "" && WellFormed(fmt, args)
    ensures At(fmt, 0) != NUL && ItemLength(fmt) <= |fmt| && ItemArgs(fmt) <= |args|
    ensures WellFormed(fmt[ItemLength(fmt)..], args[ItemArgs(fmt)..])
    ensures Render(fmt, args) == Item(fmt, args) + Render(fmt[ItemLength(fmt)..], args[ItemArgs(fmt)..])
  {
    hide Converted;
    assert args[0..] == args;
  }

  // The body of the loop, up to the terminator.
  method FormatItem(input: string, i: nat, args: seq<Arg>, a: nat, output: array<char>, out: nat, max: nat)
    returns (i': nat, a': nat, out': nat)
    requires i < |input| && a <= |args| && WellFormed(input[i..], args[a..]) && out < max - 1 && max <= output.Length
    modifies output
    ensures i' == i + ItemLength(input[i..]) && a' == a + ItemArgs(input[i..])
    ensures out' == Min(out + |Item(input[i..], args[a..])|, max - 1)
    ensures output[..out] == old(output[..out])
    ensures output[out..out'] == Item(input[i..], args[a..])[..out' - out]
    ensures forall j :: out' <= j < output.Length ==> output[j] == old(output[j])
  {
    hide Converted;
    i', a', out' := i, a, out;
    if input[i'] == '%' {
      i' := i' + 1;
      if Takes(input[i']) {
        assert args[a..][0] == args[a];
        out' := Convert(input[i'], args[a'], output, out', max);
        a' := a' + 1;
      } else if input[i'] == '%' {
        output[out'] := '%';
        out' := out' + 1;
      }
    } else {
      output[out'] := input[i'];
      out' := out' + 1;
    }
    i' := i' + 1;
  }

  lemma SoFarStep(full: string, written: string, piece: string, rest: string, after: string, max: nat)
    requires full == written + (piece + rest) && |written| < max - 1
    requires |after| == Min(|written| + |piece|, max - 1) && after == written + piece[..|after| - |written|]
    ensures SoFar(full, after, rest, max)
  {
    if |after| < max - 1 {
      assert piece[..|after| - |written|] == piece;
    }
  }

  // The text that a call with a non-empty format and room for `max` characters writes.
  function Output(fmt: string, args: seq<Arg>, max: nat): string
    requires WellFormed(fmt, args) && max > 1
  {
    Render(fmt, args)[..Min(max - 1, |Render(fmt, args)|)]
  }

  // What a call leaves in a buffer: after an empty format what was there, otherwise the text, its
  // terminator, and what was behind it.
  function BufferAfter(buf: string, fmt: string, args: seq<Arg>, max: int): (r: string)
    requires WellFormed(fmt, args) && max <= |buf|
    ensures |r| == |buf|
  {
    if fmt == "" || max <= 1 then buf
    else var t := Output(fmt, args, max); t + [NUL] + buf[|t| + 1..]
  }

  lemma NoItem(input: string, i: nat, args: seq<Arg>)
    requires i <= |input| && WellFormed(input[i..], args) && At(input, i) == NUL
    ensures i == |input| && Render(input[i..], args) == ""
  {
  }

  // On any well-formed format: nothing is written if the format is empty or the buffer has no room;
  // otherwise exactly the longest prefix of the rendering that fits, and its terminator.
  method FormatString(input: string, args: seq<Arg>, output: array<char>, max: int)
    requires WellFormed(input, args) && max <= output.Length
    modifies output
    ensures output[..] == BufferAfter(old(output[..]), input, args, max)
  {
    hide WellFormed, Render, Item, ItemLength, ItemArgs;
    var i, out, a := 0, 0, 0;
    ghost var full := Render(input, args);
    assert input[0..] == input && args[0..] == args;
    if input != "" {
      FirstItem(input, args);
    }
    while At(input, i) != NUL && out < max - 1
      invariant 0 <= i <= |input| && 0 <= a <= |args| && 0 <= out && (max > 1 ==> out <= max - 1)
      invariant i == 0 ==> out == 0 && a == 0 && output[..] == old(output[..])
      invariant WellFormed(input[i..], args[a..])
      invariant max > 1 ==> SoFar(full, output[..out], Render(input[i..], args[a..]), max)
      invariant i > 0 ==> max > 1 && output[out] == NUL
      invariant forall j :: out < j < output.Length ==> output[j] == old(output[j])
      decreases |input| - i
    {
      ghost var written, fmt, left := output[..out], input[i..], args[a..];
      FirstItem(fmt, left);
      ghost var i0, a0 := i, a;
      i, a, out := FormatItem(input, i, args, a, output, out, max);
      assert input[i..] == fmt[i - i0..] && args[a..] == left[a - a0..];
      SoFarStep(full, written, Item(fmt, left), Render(input[i..], args[a..]), output[..out], max);
      output[out] := NUL;
    }
    if At(input, i) == NUL {
      NoItem(input, i, args[a..]);
    }
  }

  // ---- formatting formatted text again ----

  lemma {:induction false} PlainRender(t: string)
    requires NoNul(t) && '%' !in t
    ensures WellFormed(t, []) && Render(t, []) == t
  {
    if t != "" {
      PlainRender(t[1..]);
      assert t == [t[0]] + t[1..];
    }
  }

  lemma {:induction false} NeverLonger(t: string)
    requires WellFormed(t, [])
    ensures |Render(t, [])| <= |t|
    ensures '%' in t ==> |Render(t, [])| < |t|
  {
    if t == "" {
    } else if t[0] == '%' {
      NeverLonger(t[2..]);
    } else {
      NeverLonger(t[1..]);
      assert t == [t[0]] + t[1..];
    }
  }

  // A C string is the part up to the first NUL.
  lemma {:induction false} CStringIs(s: string)
    ensures CString(s) == s[..|CString(s)|] && NoNul(CString(s)) && At(s, |CString(s)|) == NUL
  {
    if s != "" && s[0] != NUL {
      CStringIs(s[1..]);
    }
  }

  lemma TextOf(buf: string, text: string)
    requires |text| < |buf| && buf[..|text|] == text && buf[|text|] == NUL
    ensures CString(buf) == CString(text) && (NoNul(text) ==> CString(buf) == text)
  {
    hide CString;
    var n := |CString(text)|;
    CStringIs(text);
    CStringIs(buf);
    CStringFrom(buf, n);
    CStringFrom(text, n);
    assert buf[..n] == text[..n];
    if NoNul(text) {
      CStringFrom(text, |text|);
    }
  }

  lemma AfterText(buf: string, fmt: string, args: seq<Arg>, max: nat)
    requires WellFormed(fmt, args) && fmt != "" && 1 < max <= |buf|
    ensures CString(BufferAfter(buf, fmt, args, max)) == CString(Output(fmt, args, max))
    ensures NoNul(Output(fmt, args, max)) ==> CString(BufferAfter(buf, fmt, args, max)) == Output(fmt, args, max)
  {
    hide CString, Render;
    TextOf(BufferAfter(buf, fmt, args, max), Output(fmt, args, max));
  }

  lemma AsFormat(to: string, t: string, max: nat)
    requires NoNul(t) && |t| < max <= |to|
    ensures WellFormed(t, []) && CString(BufferAfter(to, t, [], max)) == t <==>
            '%' !in t && (t != "" || CString(to) == "")
  {
    hide CString;
    if '%' !in t {
      PlainRender(t);
      assert t[..|t|] == t;
      if t != "" {
        AfterText(to, t, [], max);
      }
    } else if WellFormed(t, []) {
      NeverLonger(t);
      AfterText(to, t, [], max);
      CStringIs(Output(t, [], max));
    }
  }

  lemma StringArgument(t: string)
    requires NoNul(t)
    ensures WellFormed("%s", [Text(t)]) && Render("%s", [Text(t)]) == t
  {
    assert t[..|t|] == t;
    CStringFrom(t, |t|);
    var args := [Text(t)];
    assert "%s"[2..] == "" && args[1..] == [];
    assert Render("%s", args) == CString(t) + Render("", []);
    assert Render("", []) == "";
  }

  // Text t that a call left in a buffer.  Passed on as the argument of "%s" it arrives unchanged in
  // any buffer.  Passed on as a format it arrives unchanged in buffer `to` exactly if it holds no '%'
  // and, should it be empty, `to` held no text before, because an empty format writes nothing.
  lemma SecondPass(from: string, to: string, fmt: string, args: seq<Arg>, max: nat)
    requires WellFormed(fmt, args) && fmt != "" && 1 < max <= |from| && max <= |to|
    ensures var t := CString(BufferAfter(from, fmt, args, max));
            && WellFormed("%s", [Text(t)]) && CString(BufferAfter(to, "%s", [Text(t)], max)) == t
            && (WellFormed(t, []) && CString(BufferAfter(to, t, [], max)) == t <==>
                '%' !in t && (t != "" || CString(to) == ""))
  {
    hide CString, BufferAfter;
    var t := CString(BufferAfter(from, fmt, args, max));
    AfterText(from, fmt, args, max);
    CStringIs(Output(fmt, args, max));
    StringArgument(t);
    assert t[..|t|] == t;
    AfterText(to, "%s", [Text(t)], max);
    AsFormat(to, t, max);
  }

  lemma JunkText(b: string)
    requires b != "" && b[0] == 'x'
    ensures CString(b) != ""
  {
  }

  // So the text survives as a format in every buffer exactly if it is not empty and holds no '%'.
  lemma SecondPassAnywhere(from: string, fmt: string, args: seq<Arg>, max: nat)
    requires WellFormed(fmt, args) && fmt != "" && 1 < max <= |from|
    ensures var t := CString(BufferAfter(from, fmt, args, max));
            (WellFormed(t, []) && forall to: string :: max <= |to| ==> CString(BufferAfter(to, t, [], max)) == t)
            <==> t != "" && '%' !in t
  {
    hide CString, BufferAfter;
    var t := CString(BufferAfter(from, fmt, args, max));
    forall to: string | max <= |to|
      ensures WellFormed(t, []) && CString(BufferAfter(to, t, [], max)) == t <==>
              '%' !in t && (t != "" || CString(to) == "")
    {
      SecondPass(from, to, fmt, args, max);
    }
    var junk := seq(max, i => 'x');
    JunkText(junk);
    SecondPass(from, junk, fmt, args, max);
  }

  // An input on which it does not: a negative number prints as nothing, and the empty text as a
  // format leaves the old contents of the buffer.
  lemma NegativeUnsigned(from: string, to: string)
    requires |from| >= 80 && |to| >= 80 && to[0] == 'x'
    ensures WellFormed("%u", [Int(-1)]) && CString(BufferAfter(from, "%u", [Int(-1)], 80)) == ""
    ensures WellFormed("", []) && BufferAfter(to, "", [], 80) == to && CString(to) != ""
  {
    var args := [Int(-1)];
    assert "%u"[2..] == "" && args[1..] == [];
    assert Render("%u", args) == Decimal(-1) + Render("", []);
    AfterText(from, "%u", args, 80);
  }

  // ---- what each conversion leaves in the buffer ----

  lemma SingleItem(fmt: string, args: seq<Arg>)
    requires |fmt| == 2 && fmt[0] == '%' && WellFormed(fmt, args)
    ensures Render(fmt, args) == Item(fmt, args)
  {
    hide Converted;
    FirstItem(fmt, args);
    assert fmt[2..] == "";
    assert Render("", args[ItemArgs(fmt)..]) == "";
  }

  // The whole buffer: the text if there is room for it, otherwise as much of it as leaves room for the
  // terminator.
  lemma Leaves(buf: string, fmt: string, args: seq<Arg>, max: nat)
    requires WellFormed(fmt, args) && fmt != "" && 1 < max <= |buf|
    ensures var t := Render(fmt, args);
            && (|t| < max ==> BufferAfter(buf, fmt, args, max) == t + [NUL] + buf[|t| + 1..])
            && (|t| >= max ==> BufferAfter(buf, fmt, args, max) == t[..max - 1] + [NUL] + buf[max..])
  {
    hide Render;
    assert Render(fmt, args)[..|Render(fmt, args)|] == Render(fmt, args);
  }

  lemma HexText(v: nat, n: nat)
    ensures |Hex(v, n)| == n + 2 && Hex(v, n)[..2] == "0x" && Hex(v, n)[2..] == HexDigits(v, n)
  {
    hide HexDigits;
  }

  lemma Pow16Values()
    ensures Pow16(0) == 1 && Pow16(1) == 0x10 && Pow16(2) == 0x100 && Pow16(3) == 0x1000
    ensures Pow16(4) == 0x1_0000 && Pow16(5) == 0x10_0000 && Pow16(6) == 0x100_0000 && Pow16(7) == 0x1000_0000
  {
    assert Pow16(4) == 0x1_0000;
  }

  lemma EightDigits(w: nat)
    ensures var d := "0123456789abcdef";
            HexDigits(w, 8) ==
            [d[w / 0x1000_0000 % 16], d[w / 0x100_0000 % 16], d[w / 0x10_0000 % 16], d[w / 0x1_0000 % 16],
             d[w / 0x1000 % 16], d[w / 0x100 % 16], d[w / 0x10 % 16], d[w / 1 % 16]]
  {
    hide HexDigits;
    Pow16Values();
    NibbleAt(w, 8, 0, 0x1000_0000);
    NibbleAt(w, 8, 1, 0x100_0000);
    NibbleAt(w, 8, 2, 0x10_0000);
    NibbleAt(w, 8, 3, 0x1_0000);
    NibbleAt(w, 8, 4, 0x1000);
    NibbleAt(w, 8, 5, 0x100);
    NibbleAt(w, 8, 6, 0x10);
    NibbleAt(w, 8, 7, 1);
  }

  lemma HexLeft(buf: string, fmt: string, args: seq<Arg>, max: nat, v: nat, n: nat)
    requires WellFormed(fmt, args) && fmt != "" && Render(fmt, args) == Hex(v, n) && n + 3 <= max <= |buf|
    ensures var b := BufferAfter(buf, fmt, args, max);
            && b == "0x" + HexDigits(v, n) + [NUL] + buf[n + 3..] && |b| == |buf|
            && b[..2] == "0x" && b[2..n + 2] == HexDigits(v, n) && b[n + 2] == NUL && b[n + 3..] == buf[n + 3..]
  {
    hide HexDigits, Render, BufferAfter, WellFormed;
    Leaves(buf, fmt, args, max);
  }

  lemma OneArgument(fmt: string, a: Arg)
    requires |fmt| == 2 && fmt[0] == '%' && Takes(fmt[1]) && Suits(fmt[1], a)
    ensures WellFormed(fmt, [a]) && Item(fmt, [a]) == Converted(fmt[1], a)
  {
    hide Converted;
    assert fmt[2..] == "";
  }

  lemma HexRendered(v: int, w: nat)
    requires -0x8000_0000 <= v < 0x8000_0000 && w == v % 0x1_0000_0000
    ensures WellFormed("%x", [Int(v)]) && Render("%x", [Int(v)]) == Hex(w, 8) && Parse(16, HexDigits(w, 8)) == w
  {
    hide Hex, HexDigits, Pow16;
    OneArgument("%x", Int(v));
    SingleItem("%x", [Int(v)]);
    Widths();
    HexParses(w, 8);
  }

  // "%x" prints the 32 bits of its argument as '0', 'x' and eight digits, the highest ones first.
  lemma PrintsHex(buf: string, v: int, max: nat)
    requires -0x8000_0000 <= v < 0x8000_0000 && 11 <= max <= |buf|
    ensures WellFormed("%x", [Int(v)])
    ensures var w, d := v % 0x1_0000_0000, "0123456789abcdef";
            BufferAfter(buf, "%x", [Int(v)], max) ==
            "0x" + [d[w / 0x1000_0000 % 16], d[w / 0x100_0000 % 16], d[w / 0x10_0000 % 16], d[w / 0x1_0000 % 16],
                    d[w / 0x1000 % 16], d[w / 0x100 % 16], d[w / 0x10 % 16], d[w / 1 % 16]] + [NUL] + buf[11..]
    ensures Parse(16, BufferAfter(buf, "%x", [Int(v)], max)[2..10]) == v % 0x1_0000_0000
  {
    hide Hex, HexDigits, Pow16, BufferAfter, Render, Parse;
    var args, w := [Int(v)], v % 0x1_0000_0000;
    HexRendered(v, w);
    EightDigits(w);
    HexLeft(buf, "%x", args, max, w, 8);
  }

  lemma InTable(v: nat, n: nat)
    ensures forall i :: 0 <= i < n ==> HexDigits(v, n)[i] in "0123456789abcdef"
  {
    hide HexDigits, Pow16;
    forall i | 0 <= i < n
      ensures HexDigits(v, n)[i] in "0123456789abcdef"
    {
      NibbleAt(v, n, i, Pow16(n - 1 - i));
    }
  }

  // "%p" prints the 64 bits of a pointer in the same way with sixteen digits.
  lemma PrintsPointer(buf: string, a: nat, max: nat)
    requires a < 0x1_0000_0000_0000_0000 && 19 <= max <= |buf|
    ensures WellFormed("%p", [Pointer(a)])
    ensures var b := BufferAfter(buf, "%p", [Pointer(a)], max);
            && b[..2] == "0x" && Parse(16, b[2..18]) == a && b[18] == NUL && b[19..] == buf[19..]
            && forall i :: 0 <= i < 16 ==> b[2..18][i] in "0123456789abcdef"
  {
    var args := [Pointer(a)];
    OneArgument("%p", Pointer(a));
    SingleItem("%p", args);
    Widths();
    HexParses(a, 16);
    HexLeft(buf, "%p", args, max, a, 16);
    InTable(a, 16);
  }

  lemma SingleDigit(v: nat)
    ensures v == 0 ==> |Digits(v)| == 1
  {
  }

  // "%u" prints a number that is not negative with decimal digits, no leading zero among them, that
  // read as the number; of a negative one it prints nothing.
  lemma PrintsNumber(buf: string, v: int, max: nat)
    requires -0x8000_0000 <= v < 0x8000_0000 && 11 <= max <= |buf|
    ensures WellFormed("%u", [Int(v)])
    ensures var b := BufferAfter(buf, "%u", [Int(v)], max);
            && (v < 0 ==> b == [NUL] + buf[1..])
            && (v >= 0 ==> exists n ::
                  && 1 <= n <= 10 && Parse(10, b[..n]) == v && (b[0] == '0' ==> n == 1)
                  && (forall i :: 0 <= i < n ==> '0' <= b[i] <= '9')
                  && b[n] == NUL && b[n + 1..] == buf[n + 1..])
  {
    hide Digits, BufferAfter;
    var args := [Int(v)];
    OneArgument("%u", Int(v));
    SingleItem("%u", args);
    if v >= 0 {
      IntDigits(v);
      DecimalParses(v);
    }
    Leaves(buf, "%u", args, max);
    var b := BufferAfter(buf, "%u", args, max);
    if v >= 0 {
      var n := |Digits(v)|;
      assert b[..n] == Digits(v);
      assert b[0] == Digits(v)[0];
      assert forall i :: 0 <= i < n ==> b[i] == Digits(v)[i];
      SingleDigit(v);
    }
  }

  // "%c" prints one character, unless it is given the number 0.
  lemma PrintsChar(buf: string, v: nat, max: nat)
    requires v < 256 && 2 <= max <= |buf|
    ensures WellFormed("%c", [Int(v)])
    ensures BufferAfter(buf, "%c", [Int(v)], max) == if v == 0 then [NUL] + buf[1..] else [v as char, NUL] + buf[2..]
  {
    hide BufferAfter, WellFormed, Render;
    OneArgument("%c", Int(v));
    SingleItem("%c", [Int(v)]);
    Leaves(buf, "%c", [Int(v)], max);
  }

  // "%s" prints its string up to the terminator.
  lemma PrintsString(buf: string, s: string, max: nat)
    requires |CString(s)| < max && 1 < max <= |buf|
    ensures WellFormed("%s", [Text(s)])
    ensures BufferAfter(buf, "%s", [Text(s)], max) == CString(s) + [NUL] + buf[|CString(s)| + 1..]
  {
    hide BufferAfter, WellFormed, Render, CString;
    OneArgument("%s", Text(s));
    SingleItem("%s", [Text(s)]);
    Leaves(buf, "%s", [Text(s)], max);
  }

  // "%%" prints a percent sign; "%" and a character that is no conversion print nothing.
  lemma PrintsNoArgument(buf: string, c: char, max: nat)
    requires c != NUL && !(c == 's' || c == 'c' || c == 'u' || c == 'x' || c == 'p') && 2 <= max <= |buf|
    ensures WellFormed(['%', c], [])
    ensures BufferAfter(buf, ['%', c], [], max) == if c == '%' then ['%', NUL] + buf[2..] else [NUL] + buf[1..]
  {
    hide BufferAfter, Render;
    var fmt := ['%', c];
    assert fmt[2..] == "";
    SingleItem(fmt, []);
    Leaves(buf, fmt, [], max);
  }

  // How many arguments a format takes.
  function Uses(fmt: string): nat {
    if fmt == "" then 0 else
      ItemArgs(fmt) + if ItemLength(fmt) <= |fmt| then Uses(fmt[ItemLength(fmt)..]) else 0
  }

  lemma SameItem(f: string, g: string, a: seq<Arg>, b: seq<Arg>)
    requires f != "" && WellFormed(f, a) && WellFormed(f[ItemLength(f)..] + g, a[ItemArgs(f)..] + b)
    requires ItemArgs(f) <= |a| && ItemLength(f) <= |f|
    ensures WellFormed(f + g, a + b) && Item(f + g, a + b) == Item(f, a)
    ensures ItemLength(f + g) == ItemLength(f) && ItemArgs(f + g) == ItemArgs(f)
    ensures (f + g)[ItemLength(f)..] == f[ItemLength(f)..] + g && (a + b)[ItemArgs(f)..] == a[ItemArgs(f)..] + b
  {
    hide Converted;
    assert (f + g)[ItemLength(f)..] == f[ItemLength(f)..] + g && (a + b)[ItemArgs(f)..] == a[ItemArgs(f)..] + b;
    assert (a + b)[0..] == a + b;
  }

  lemma Regroup(a: string, b: string, c: string)
    ensures a + (b + c) == (a + b) + c
  {
  }

  lemma EmptyFormat(args: seq<Arg>)
    ensures WellFormed("", args) && Render("", args) == ""
  {
  }

  // Formats one after the other print one after the other; with the single conversions above this says
  // what every format prints.
  lemma {:induction false} Appended(f: string, g: string, a: seq<Arg>, b: seq<Arg>)
    requires WellFormed(f, a) && |a| == Uses(f) && WellFormed(g, b)
    ensures WellFormed(f + g, a + b) && Render(f + g, a + b) == Render(f, a) + Render(g, b)
  {
    hide Item, ItemLength, ItemArgs, WellFormed, Render;
    if f == "" {
      assert f + g == g && a + b == b;
      EmptyFormat(a);
    } else {
      var n, k := ItemLength(f), ItemArgs(f);
      FirstItem(f, a);
      Appended(f[n..], g, a[k..], b);
      SameItem(f, g, a, b);
      FirstItem(f + g, a + b);
      Regroup(Item(f, a), Render(f[n..], a[k..]), Render(g, b));
    }
  }
}
