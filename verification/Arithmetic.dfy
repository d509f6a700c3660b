/** Word sizes, powers of two, and division by a variable. */
module Arithmetic {
  const W32: nat := 0x1_0000_0000
  const W64: nat := 0x1_0000_0000_0000_0000

  lemma Multiples(s: int, d: int)
    requires s >= 0
    ensures d >= 1 ==> s * d >= s
    ensures d <= -1 ==> s * d <= -s
  {
  }

  // Quotient and remainder are the only ones.
  lemma Remainder(s: nat, q: nat, r: nat)
    requires r < s
    ensures (s * q + r) / s == q && (s * q + r) % s == r
  {
    var x := s * q + r;
    assert x == s * (x / s) + x % s;
    assert s * (x / s - q) == r - x % s;
    Multiples(s, x / s - q);
  }

  lemma Nested(a: nat, b: nat, q: nat, r: nat, z: nat)
    requires r < b && z < a
    ensures a * (b * q + r) + z == (a * b) * q + (a * r + z) && a * r + z < a * b
  {
    assert a * r + a == a * (r + 1);
    assert a * (b - (r + 1)) >= 0;
  }

  lemma ByParts(v: nat, a: nat, b: nat, y: nat, z: nat, q: nat, r: nat)
    requires v == a * y + z && y == b * q + r && z < a && r < b
    ensures a * b > 0 && v / (a * b) == q
  {
    Nested(a, b, q, r, z);
    Remainder(a * b, q, a * r + z);
  }

  lemma Parts(v: nat, a: nat)
    requires a > 0
    ensures v == a * (v / a) + v % a && 0 <= v / a && 0 <= v % a < a
  {
  }

  // Dividing twice is dividing by the product.
  lemma DivideTwice(v: nat, a: nat, b: nat)
    requires a > 0 && b > 0
    ensures a * b > 0 && v / a / b == v / (a * b)
  {
    Parts(v, a);
    Parts(v / a, b);
    ByParts(v, a, b, v / a, v % a, v / a / b, v / a % b);
  }

  function Pow2(k: nat): (p: nat)
    ensures p > 0
  {
    if k == 0 then 1 else 2 * Pow2(k - 1)
  }
}
