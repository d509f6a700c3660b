/**
  Printing numbers: the loops of int_to_str and of the hexadecimal helpers, and reading the output back.
*/
module Numerals {
  import opened Arithmetic

  const INT_MAX: int := 0x7FFF_FFFF
  const NUL: char := '\0'

  function DigitChar(d: nat): (c: char)
    requires d < 16
  {
    if d < 10 then '0' + d as char else 'a' + (d - 10) as char
  }

  function CharDigit(c: char): (d: nat)
    ensures d < 16
  {
    if '0' <= c <= '9' then (c - '0') as nat
    else if 'a' <= c <= 'f' then (c - 'a') as nat + 10
    else 0
  }

  lemma DigitRoundTrip(d: nat)
    requires d < 16
    ensures CharDigit(DigitChar(d)) == d && DigitChar(d) != NUL
    ensures DigitChar(d) == '0' <==> d == 0
    ensures DigitChar(d) == "0123456789abcdef"[d]
  {
  }

  // The value of a text in base 10 or 16.
  function Parse(base: nat, s: string): nat {
    if s == "" then 0 else Parse(base, s[..|s| - 1]) * base + CharDigit(s[|s| - 1])
  }

  // ---- decimal ----

  function Digits(v: nat): (s: string)
    ensures s != ""
  {
    if v < 10 then [DigitChar(v)] else Digits(v / 10) + [DigitChar(v % 10)]
  }

  // What int_to_str writes: nothing for a negative number.
  function Decimal(v: int): string {
    if v < 0 then "" else Digits(v)
  }

  lemma {:induction false} DecimalParses(v: nat)
    ensures Parse(10, Digits(v)) == v
    ensures Digits(v)[0] == '0' <==> v == 0
    ensures forall i :: 0 <= i < |Digits(v)| ==> '0' <= Digits(v)[i] <= '9'
  {
    DigitRoundTrip(v % 10);
    if v < 10 {
      assert Digits(v)[..0] == "";
      assert Parse(10, "") == 0;
    } else {
      DecimalParses(v / 10);
      assert Digits(v)[..|Digits(v)| - 1] == Digits(v / 10);
    }
  }

  function Pow10(n: nat): (p: nat)
    ensures p > 0
  {
    if n == 0 then 1 else 10 * Pow10(n - 1)
  }

  // The number of digits is the least one that the value fits in.
  lemma {:induction false} DigitCount(v: nat, n: nat)
    ensures 0 < n && v < Pow10(n) ==> |Digits(v)| <= n
    ensures v >= Pow10(n) ==> |Digits(v)| > n
  {
    if v >= 10 && n > 0 {
      var p := Pow10(n - 1);
      assert Pow10(n) == 10 * p;
      assert v < 10 * p <==> v / 10 < p;
      assert |Digits(v)| == |Digits(v / 10)| + 1;
      DigitCount(v / 10, n - 1);
      if n == 1 {
        assert Pow10(0) == 1;
      }
    }
  }

  lemma IntDigits(v: nat)
    requires v <= INT_MAX
    ensures |Digits(v)| <= 10
  {
    assert Pow10(4) == 10000;
    assert Pow10(8) == 100000000;
    assert Pow10(10) == 10000000000;
    DigitCount(v, 10);
  }

  // No other digit string without a leading zero denotes v.
  lemma {:induction false} DecimalUnique(s: string)
    requires s != "" && (s[0] == '0' ==> |s| == 1)
    requires forall i :: 0 <= i < |s| ==> '0' <= s[i] <= '9'
    ensures Digits(Parse(10, s)) == s
  {
    var n := |s| - 1;
    var init, d := s[..n], CharDigit(s[n]);
    assert DigitChar(d) == s[n];
    if n == 0 {
      assert init == "" && Parse(10, init) == 0;
    } else {
      DecimalUnique(init);
      var p := Parse(10, init);
      assert Digits(0) == ['0'] && s[0] == init[0] == Digits(p)[0];
      Remainder(10, p, d);
      assert s == init + [s[n]];
    }
  }

  // One turn of the first loop.
  lemma MoveDigit(v: nat, low: string)
    requires v > 0
    ensures Digits(v) + low == (if v / 10 > 0 then Digits(v / 10) else "") + ([DigitChar(v % 10)] + low)
  {
  }

  lemma DecimalText(value: int)
    requires value <= INT_MAX
    ensures |Decimal(value)| <= 10
    ensures value > 0 ==> Decimal(value) == Digits(value) + ""
    ensures value <= 0 ==> Decimal(value) == if value == 0 then "0" else ""
  {
    if value >= 0 {
      IntDigits(value);
    }
  }

  method IntToStr(value: int, buf: array<char>)
    requires value <= INT_MAX && buf.Length >= 11
    modifies buf
    ensures |Decimal(value)| <= 10 && buf[..|Decimal(value)|] == Decimal(value) && buf[|Decimal(value)|] == NUL
    ensures forall i :: |Decimal(value)| < i < buf.Length ==> buf[i] == old(buf[i])
  {
    ghost var text := Decimal(value);
    DecimalText(value);
    hide Digits, Decimal;
    if value == 0 {
      buf[0] := '0';
      buf[1] := NUL;
      return;
    }
    var tmp := new char[10];
    var len, v := 0, value;
    ghost var low := "";   // the digits collected, in reading order
    while v > 0
      invariant 0 <= len == |low| <= |text| <= 10
      invariant forall j :: 0 <= j < buf.Length ==> buf[j] == old(buf[j])
      invariant v > 0 ==> text == Digits(v) + low
      invariant v <= 0 ==> text == low
      invariant forall i :: 0 <= i < len ==> tmp[i] == low[len - 1 - i]
    {
      MoveDigit(v, low);
      low := [DigitChar(v % 10)] + low;
      assert v / 10 == 0 ==> "" + low == low;
      tmp[len] := '0' + (v % 10) as char;
      len := len + 1;
      v := v / 10;
    }
    var i := 0;
    while i < len
      invariant 0 <= i <= len == |low| <= 10
      invariant forall j :: 0 <= j < len ==> tmp[j] == low[len - 1 - j]
      invariant forall j :: 0 <= j < i ==> buf[j] == low[j]
      invariant forall j :: len <= j < buf.Length ==> buf[j] == old(buf[j])
    {
      buf[i] := tmp[len - 1 - i];
      i := i + 1;
    }
    buf[len] := NUL;
    assert buf[..len] == low;
  }

  // ---- hexadecimal ----

  function Pow16(n: nat): (p: nat)
    ensures p > 0
  {
    if n == 0 then 1 else 16 * Pow16(n - 1)
  }

  // The last n hexadecimal digits of v.
  function HexDigits(v: nat, n: nat): (s: string)
    ensures |s| == n
  {
    if n == 0 then "" else HexDigits(v / 16, n - 1) + [DigitChar(v % 16)]
  }

  // What the helper for a number of n digits writes.
  function Hex(v: nat, n: nat): string { "0x" + HexDigits(v, n) }

  lemma {:induction false} HexParses(v: nat, n: nat)
    requires v < Pow16(n)
    ensures |HexDigits(v, n)| == n && Parse(16, HexDigits(v, n)) == v
  {
    if n > 0 {
      DigitRoundTrip(v % 16);
      HexParses(v / 16, n - 1);
      assert HexDigits(v, n)[..n - 1] == HexDigits(v / 16, n - 1);
    }
  }

  lemma {:induction false} HexNotNul(v: nat, n: nat)
    ensures forall i :: 0 <= i < n ==> HexDigits(v, n)[i] != NUL
  {
    if n > 0 {
      DigitRoundTrip(v % 16);
      HexNotNul(v / 16, n - 1);
    }
  }

  // The i-th digit from the left is the one that shifting by 4 * (n - 1 - i) bits and masking gives.
  lemma {:induction false} HexDigitAt(v: nat, n: nat, i: nat)
    requires i < n
    ensures HexDigits(v, n)[i] == DigitChar(v / Pow16(n - 1 - i) % 16)
  {
    if i < n - 1 {
      HexDigitAt(v / 16, n - 1, i);
      var p := Pow16(n - 2 - i);
      assert Pow16(n - 1 - i) == 16 * p;
      DivideTwice(v, 16, p);
    } else {
      assert v / 1 == v;
    }
  }

  // The same with the power as a number, and the digit as the character of the table in the source.
  lemma NibbleAt(v: nat, n: nat, i: nat, p: nat)
    requires i < n && p == Pow16(n - 1 - i)
    ensures HexDigits(v, n)[i] == "0123456789abcdef"[v / p % 16]
  {
    HexDigitAt(v, n, i);
    DigitRoundTrip(v / p % 16);
  }

  // u8_to_hex, u16_to_hex, u32_to_hex and u64_to_hex: n = 2, 4, 8 and 16
  method ToHex(value: nat, n: nat, buf: array<char>)
    requires buf.Length >= n + 3
    modifies buf
    ensures buf[..n + 2] == Hex(value, n) && buf[n + 2] == NUL
    ensures buf[0] == '0' && buf[1] == 'x' && buf[2..n + 2] == HexDigits(value, n)
    ensures forall i :: n + 2 < i < buf.Length ==> buf[i] == old(buf[i])
  {
    buf[0] := '0';
    buf[1] := 'x';
    var i := 0;
    while i < n
      invariant 0 <= i <= n && buf[0] == '0' && buf[1] == 'x'
      invariant forall j :: 0 <= j < i ==> buf[2 + j] == HexDigits(value, n)[j]
      invariant forall j :: n + 2 < j < buf.Length ==> buf[j] == old(buf[j])
    {
      HexDigitAt(value, n, i);
      buf[2 + i] := DigitChar(value / Pow16(n - 1 - i) % 16);
      i := i + 1;
    }
    buf[n + 2] := NUL;
    forall j | 0 <= j < n + 2
      ensures buf[j] == Hex(value, n)[j]
    {
      if j >= 2 {
        assert buf[2 + (j - 2)] == HexDigits(value, n)[j - 2];
      }
    }
  }

  // int_to_hex_string, for an object of `size` bytes: only four sizes do anything.
  method IntToHexString(value: nat, size: nat, buf: array<char>)
    requires size == 1 || size == 2 || size == 4 || size == 8 ==>
               value < Pow16(2 * size) && buf.Length >= 2 * size + 3
    modifies buf
    ensures size == 1 || size == 2 || size == 4 || size == 8 ==>
              buf[..2 * size + 2] == Hex(value, 2 * size) && buf[2 * size + 2] == NUL
    ensures !(size == 1 || size == 2 || size == 4 || size == 8) ==> buf[..] == old(buf[..])
  {
    if size == 1 {
      ToHex(value, 2, buf);
    } else if size == 2 {
      ToHex(value, 4, buf);
    } else if size == 4 {
      ToHex(value, 8, buf);
    } else if size == 8 {
      ToHex(value, 16, buf);
    }
  }
}
