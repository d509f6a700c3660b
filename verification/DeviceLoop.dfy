/**
  The counter of the mapping loops, `leftover`, in 64-bit arithmetic.

  `while(leftover > 0)` with `leftover -= 4096` on an unsigned 64-bit number: a subtraction below
  zero wraps around instead of ending the loop.
*/
module DeviceLoop {
  import opened Arithmetic

  function Subtract(x: nat, y: nat): nat
    requires y <= W64
  {
    if x >= y then x - y else x + W64 - y
  }

  // leftover after n turns
  function Leftover(size: nat, n: nat): nat {
    if n == 0 then size else Subtract(Leftover(size, n - 1), 4096)
  }

  predicate EndsAfter(size: nat, n: nat) {
    Leftover(size, n) == 0 && forall i :: 0 <= i < n ==> Leftover(size, i) != 0
  }

  ghost predicate Ends(size: nat) {
    exists n :: EndsAfter(size, n)
  }

  lemma {:induction false} CountsDown(size: nat, n: nat)
    requires 4096 * n <= size
    ensures Leftover(size, n) == size - 4096 * n
  {
    if n > 0 {
      CountsDown(size, n - 1);
    }
  }

  // 2^64 is a multiple of the page size, so no subtraction changes the remainder.
  lemma {:induction false} KeepsRemainder(size: nat, n: nat)
    requires size < W64
    ensures Leftover(size, n) < W64 && Leftover(size, n) % 4096 == size % 4096
  {
    if n > 0 {
      KeepsRemainder(size, n - 1);
      var x := Leftover(size, n - 1);
      if x < 4096 {
        assert Leftover(size, n) == x + 4096 * 0xF_FFFF_FFFF_FFFF;
      }
    }
  }

  // The loop of register_device_memory ends exactly for multiples of the page size, after one turn
  // for each page.  map_addr returns before its loop for any other size.
  lemma LoopEnds(size: nat, n: nat)
    requires size < W64
    ensures EndsAfter(size, n) <==> size % 4096 == 0 && n == size / 4096
    ensures size % 4096 != 0 ==> Leftover(size, n) % 4096 == size % 4096
  {
    KeepsRemainder(size, n);
    if size % 4096 == 0 {
      var q := size / 4096;
      CountsDown(size, q);
      forall i | 0 <= i < q
        ensures Leftover(size, i) != 0
      {
        CountsDown(size, i);
      }
    }
  }

  lemma EndsExactly(size: nat)
    requires size < W64
    ensures Ends(size) <==> size % 4096 == 0
  {
    LoopEnds(size, size / 4096);
    if Ends(size) {
      var n :| EndsAfter(size, n);
      LoopEnds(size, n);
    }
  }
}
