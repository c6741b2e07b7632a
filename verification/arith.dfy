/** Powers of two and the division facts the big-endian codec relies on. */
module Arith {

  /** 2^e. */
  function Pow2(e: nat): (r: nat)
    ensures r >= 1
  {
    if e == 0 then 1 else 2 * Pow2(e - 1)
  }

  /** 256^e: the place value of the byte e positions from the least significant end. */
  function Pow256(e: nat): (r: nat)
    ensures r >= 1
    ensures e >= 1 ==> r >= 256
  {
    if e == 0 then 1 else 256 * Pow256(e - 1)
  }

  lemma {:induction false} Pow2Add(a: nat, b: nat)
    ensures Pow2(a + b) == Pow2(a) * Pow2(b)
  {
    if a > 0 {
      Pow2Add(a - 1, b);
      assert Pow2(a + b) == 2 * Pow2(a - 1 + b);
    }
  }

  /** A byte place value is eight bit place values: 256^e == 2^(8e). */
  lemma {:induction false} Pow256IsPow2(e: nat)
    ensures Pow256(e) == Pow2(8 * e)
  {
    if e > 0 {
      Pow256IsPow2(e - 1);
      Pow2Add(8 * (e - 1), 8);
      assert Pow2(8) == 256;
      assert 8 * e == 8 * (e - 1) + 8;
    }
  }

  /** Quotient and remainder are determined by the division equation. */
  lemma DivModUnique(x: int, d: int, q: int, r: int)
    requires d > 0
    requires 0 <= r < d
    requires x == q * d + r
    ensures x / d == q
    ensures x % d == r
  {
    var q', r' := x / d, x % d;
    assert (q - q') * d == r' - r;
    if q > q' {
      MulAtLeast(q - q', d);
    } else if q < q' {
      MulAtLeast(q' - q, d);
    }
  }

  lemma MulAtLeast(k: int, d: int)
    requires k >= 1 && d > 0
    ensures k * d >= d
  {
  }

  /** Dividing by a and then by b is dividing by a * b. */
  lemma DivDiv(x: nat, a: nat, b: nat)
    requires a > 0 && b > 0
    ensures (x / a) / b == x / (a * b)
  {
    var q := x / (a * b);
    var r := x % (a * b);
    assert x == q * (a * b) + r;
    var s := r / a;
    assert r == s * a + r % a;
    assert s < b;
    assert x == (q * b + s) * a + r % a;
    DivModUnique(x, a, q * b + s, r % a);
    DivModUnique(x / a, b, q, s);
  }
}
