/** The ring of text lines of the terminal: its two indices after any number of calls. */
module TerminalRing {
  import opened Arithmetic

  // The remainder of C, which has the sign of the dividend.
  function Rem(a: int, b: int): int
    requires b > 0
  {
    if a >= 0 then a % b else -((-a) % b)
  }

  lemma RemSmall(a: int, b: int)
    requires -b < a <= b
    ensures Rem(a, b) == if a == b then 0 else a
  {
    if a == b {
      Remainder(b, 1, 0);
    } else if a >= 0 {
      Remainder(b, 0, a);
    } else {
      Remainder(b, 0, -a);
    }
  }

  datatype Ring = Ring(head: int, tail: int)

  // What one call does to the two indices.
  function Next(r: Ring): Ring {
    var head := Rem(r.head + 1, 40);
    if Rem(head - r.tail, 40) > 20 then
      if Rem(head - r.tail, 40) > 21 then Ring(head, r.tail) else Ring(head, Rem(r.tail + 1, 20))
    else Ring(head, r.tail)
  }

  function After(n: nat): Ring {
    if n == 0 then Ring(0, 0) else Next(After(n - 1))
  }

  function Tail(n: nat): nat { if n <= 20 then 0 else if n < 39 then n - 20 else 19 }

  lemma NextHead(n: nat)
    ensures (n + 1) % 40 == if n % 40 == 39 then 0 else n % 40 + 1
    ensures n < 40 ==> n % 40 == n
  {
  }

  lemma NextRing(n: nat)
    ensures Next(Ring(n % 40, Tail(n))) == Ring((n + 1) % 40, Tail(n + 1))
  {
    hide Rem;
    NextHead(n);
    RemSmall(n % 40 + 1, 40);
    RemSmall((n + 1) % 40 - Tail(n), 40);
    RemSmall(Tail(n) + 1, 20);
  }

  // The indices in closed form: from call 39 on the tail stays at 19.
  lemma {:induction false} AfterCalls(n: nat)
    ensures After(n) == Ring(n % 40, Tail(n))
    ensures After(n).head == n % 40 && After(n).tail == if n <= 20 then 0 else if n < 39 then n - 20 else 19
  {
    hide Next;
    if n > 0 {
      AfterCalls(n - 1);
      NextRing(n - 1);
    }
  }

  // How many lines are drawn after n calls.
  function Shown(n: nat): nat {
    if n <= 20 then n else if n < 40 then 20 else if n % 40 > 19 then n % 40 - 19 else 0
  }

  lemma RowNumber(n: nat, i: nat)
    requires i < Shown(n)
    ensures (n - Shown(n) + i) % 40 == Tail(n) + i
  {
    if n >= 40 {
      var q := n / 40;
      assert n == 40 * q + n % 40;
      assert n - Shown(n) + i == 40 * q + (19 + i);
    } else {
      assert n - Shown(n) + i == Tail(n) + i;
    }
  }

  // The redraw loop shows the rows of the latest calls, oldest first: it takes Shown(n) turns, and
  // the row of turn i is the one that call number n - Shown(n) + i wrote.
  lemma RowDrawn(n: nat, i: nat)
    ensures var r := After(n);
            && (i < Rem(r.head - r.tail, 40) <==> i < Shown(n))
            && (i < Shown(n) ==> 0 <= Rem(r.tail + i, 40) == After(n - Shown(n) + i).head == (n - Shown(n) + i) % 40)
    ensures Shown(n) <= n && Shown(n) <= 20
    ensures Shown(n) == if n <= 20 then n else if n < 40 then 20 else if n % 40 > 19 then n % 40 - 19 else 0
  {
    AfterCalls(n);
    NextHead(n);
    hide After, Rem;
    RemSmall(n % 40 - Tail(n), 40);
    if i < Shown(n) {
      AfterCalls(n - Shown(n) + i);
      RemSmall(Tail(n) + i, 40);
      RowNumber(n, i);
    }
  }
}
