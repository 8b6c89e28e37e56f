/** Powers of two and division, as the bit manipulations of the models need them. */
module Arith {

  function Pow2(k: nat): nat
    ensures Pow2(k) > 0
  {
    if k == 0 then 1 else 2 * Pow2(k - 1)
  }

  lemma {:induction false} HalfDiv(a: nat, p: nat)
    requires p > 0
    ensures a / (2 * p) == (a / 2) / p
  {
    var q := a / (2 * p);
    var r := a % (2 * p);
    assert a == 2 * p * q + r;
    assert a / 2 == p * q + r / 2;
    assert 0 <= r / 2 < p;
    DivUnique(a / 2, p, q, r / 2);
  }

  lemma DivUnique(a: nat, p: nat, q: nat, r: nat)
    requires p > 0 && a == p * q + r && r < p
    ensures a / p == q
  {
    var q', r' := a / p, a % p;
    assert a == p * q' + r';
    if q < q' {
      assert p * (q' - q) == p * q' - p * q;
      MulMonotone(p, q' - q);
    } else if q > q' {
      assert p * (q - q') == p * q - p * q';
      MulMonotone(p, q - q');
    }
  }

  lemma {:induction false} MulMonotone(p: nat, n: nat)
    requires n > 0
    ensures p * n >= p
  {
    if n > 1 {
      MulMonotone(p, n - 1);
      assert p * n == p * (n - 1) + p;
    }
  }

  lemma Powers()
    ensures Pow2(0) == 1 && Pow2(1) == 2 && Pow2(2) == 4 && Pow2(3) == 8
    ensures Pow2(4) == 16 && Pow2(5) == 32 && Pow2(6) == 64 && Pow2(7) == 128
  {
    assert Pow2(3) == 8;
    assert Pow2(6) == 64;
  }

  lemma {:induction false} DivPow(a: nat, k: nat)
    ensures a / Pow2(k + 1) == (a / Pow2(k)) / 2
  {
    if k > 0 {
      DivPow(a / 2, k - 1);
      HalfDiv(a, Pow2(k));
      HalfDiv(a, Pow2(k - 1));
    }
  }

  lemma BelowBlock(f: nat, p: nat)
    requires p > 0
    ensures f < p ==> f / p == 0
  {
    if f < p { DivUnique(f, p, 0, f); }
  }

  lemma NextBlock(f: nat, p: nat)
    requires p > 0
    ensures (f + p) / p == f / p + 1
  {
    var q, r := f / p, f % p;
    assert f + p == p * (q + 1) + r;
    DivUnique(f + p, p, q + 1, r);
  }

  /** Multiples of the modulus do not matter. */
  lemma ModShift(x: int, q: int, w: int)
    requires w > 0
    ensures (x + w * q) % w == x % w
  {
    var d, r := x / w, x % w;
    assert x + w * q == w * (d + q) + r;
    ModUnique(x + w * q, w, d + q, r);
  }

  lemma ModUnique(a: int, p: int, q: int, r: int)
    requires p > 0 && a == p * q + r && 0 <= r < p
    ensures a % p == r
  {
    var q', r' := a / p, a % p;
    assert a == p * q' + r';
    if q < q' {
      assert p * (q' - q) == p * q' - p * q;
      MulMonotone(p, q' - q);
    } else if q > q' {
      assert p * (q - q') == p * q - p * q';
      MulMonotone(p, q - q');
    }
  }
}
