/** The bitwise operators of C on non-negative numbers, digit by digit, and the arithmetic
    that single-bit and low-bits masks come down to. */
module Bitwise {

  function Pow2(n: nat): (p: nat)
    ensures p > 0
  {
    if n == 0 then 1 else 2 * Pow2(n - 1)
  }

  /** `a & b`. */
  function And(a: nat, b: nat): nat
    decreases a
  {
    if a == 0 || b == 0 then 0
    else 2 * And(a / 2, b / 2) + if a % 2 == 1 && b % 2 == 1 then 1 else 0
  }

  /** `a | b`. */
  function Or(a: nat, b: nat): nat
    decreases a
  {
    if a == 0 then b
    else 2 * Or(a / 2, b / 2) + if a % 2 == 1 || b % 2 == 1 then 1 else 0
  }

  lemma {:induction false} AndLowBits(a: nat, k: nat)
    ensures And(a, Pow2(k) - 1) == a % Pow2(k)
    decreases k
  {
    if k > 0 {
      var p := Pow2(k - 1);
      AndLowBits(a / 2, k - 1);
      HalfThenMod(a, p);
      HalfOfMask(p);
      if p == 1 {
        assert a / 2 % 1 == 0;
      }
    }
  }

  lemma HalfOfMask(p: nat)
    requires p > 0
    ensures (2 * p - 1) / 2 == p - 1 && (2 * p - 1) % 2 == 1
  {
  }

  lemma {:induction false} AndOneBit(a: nat, k: nat)
    ensures And(a, Pow2(k)) == if a / Pow2(k) % 2 == 1 then Pow2(k) else 0
    decreases k
  {
    if k == 0 {
      assert And(a / 2, 0) == 0;
    } else {
      AndOneBit(a / 2, k - 1);
      HalfThenDivide(a, Pow2(k - 1));
    }
  }

  lemma {:induction false} OrOneBit(a: nat, k: nat)
    ensures Or(a, Pow2(k)) == if a / Pow2(k) % 2 == 1 then a else a + Pow2(k)
    decreases k
  {
    if k == 0 {
      OrNothing(a / 2);
    } else {
      OrOneBit(a / 2, k - 1);
      HalfThenDivide(a, Pow2(k - 1));
    }
  }

  lemma {:induction false} OrNothing(a: nat)
    ensures Or(a, 0) == a
  {
    if a > 0 {
      OrNothing(a / 2);
    }
  }

  // ---------- powers and quotients ----------

  lemma Pow2Eight()
    ensures Pow2(8) == 256
  {
    assert Pow2(4) == 16;
  }

  lemma HalfThenDivide(x: nat, p: nat)
    requires p > 0
    ensures x / (2 * p) == x / 2 / p
  {
    var h := x / 2;
    var q, r := h / p, h % p;
    assert h == p * q + r;
    var t := x % 2;
    assert x == 2 * (p * q + r) + t;
    assert x == 2 * p * q + (2 * r + t) && 0 <= 2 * r + t < 2 * p;
    DivideUnique(x, 2 * p, q, 2 * r + t);
  }

  lemma DivideUnique(x: nat, d: nat, q: nat, r: nat)
    requires d > 0 && x == d * q + r && r < d
    ensures x / d == q && x % d == r
  {
    var q' := x / d;
    assert x == d * q' + x % d;
    if q > q' {
      MulGap(d, q, q');
    } else if q < q' {
      MulGap(d, q', q);
    }
  }

  lemma MulGap(d: nat, big: int, small: int)
    requires big > small
    ensures d * big >= d * small + d
    decreases big - small
  {
    var k := big - small;
    assert d * big == d * small + d * k;
    if k > 1 {
      MulGap(d, big - 1, small);
      assert d * big == d * (big - 1) + d;
    }
  }

  lemma HalfThenMod(x: nat, p: nat)
    requires p > 0
    ensures x % (2 * p) == 2 * (x / 2 % p) + x % 2
  {
    var h := x / 2;
    var q, r, t := h / p, h % p, x % 2;
    assert h == p * q + r;
    assert x == 2 * (p * q + r) + t;
    assert x == 2 * p * q + (2 * r + t) && 0 <= 2 * r + t < 2 * p;
    DivideUnique(x, 2 * p, q, 2 * r + t);
  }
}
