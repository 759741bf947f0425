/** Bitwise operators on natural numbers, and what they do with runs of ones. */
module Bits {
  import opened Powers

  function And(a: nat, b: nat): nat {
    if a == 0 || b == 0 then 0 else 2 * And(a / 2, b / 2) + (a % 2) * (b % 2)
  }

  function Or(a: nat, b: nat): nat {
    if a == 0 && b == 0 then 0 else 2 * Or(a / 2, b / 2) + (if a % 2 == 1 || b % 2 == 1 then 1 else 0)
  }

  function Xor(a: nat, b: nat): nat {
    if a == 0 && b == 0 then 0 else 2 * Xor(a / 2, b / 2) + (a + b) % 2
  }

  function Shr(a: nat, k: nat): nat {
    if k == 0 then a else Shr(a / 2, k - 1)
  }

  lemma MulDistributes(a: int, b: int, d: int)
    ensures (a - b) * d == a * d - b * d
  {
  }

  lemma MulAdds(a: int, b: int, d: int)
    ensures (a + b) * d == a * d + b * d
  {
  }

  lemma MulPositive(a: int, d: int)
    requires a >= 0 && d >= 0
    ensures a * d >= 0
  {
  }

  lemma MulLess(a: int, b: int, d: int)
    requires d > 0 && a < b
    ensures a * d + d <= b * d
  {
    MulPositive(b - a - 1, d);
    MulDistributes(b, a + 1, d);
    MulDistributes(a + 1, 1, d);
  }

  lemma MulCancel(a: int, b: int, d: int)
    requires d > 0 && a * d < b * d + d
    ensures a <= b
  {
    if a > b {
      MulLess(b, a, d);
    }
  }

  lemma DivisionIsUnique(x: int, q: int, r: int, d: int)
    requires d > 0 && x == q * d + r && 0 <= r < d
    ensures x / d == q && x % d == r
  {
    var q', r' := x / d, x % d;
    assert x == q' * d + r' && 0 <= r' < d;
    MulCancel(q, q', d);
    MulCancel(q', q, d);
  }

  lemma DivMod(x: nat, d: nat)
    requires d > 0
    ensures x % d <= x && x % d < d
    ensures x - x % d == (x / d) * d
  {
    MulPositive(x / d, d);
  }

  /** Dividing by `2d` is dropping the last bit and dividing by `d`. */
  lemma HalveThenDivide(x: nat, d: nat)
    requires d > 0
    ensures x / (2 * d) == x / 2 / d
    ensures x % (2 * d) == 2 * (x / 2 % d) + x % 2
  {
    var q, r := x / 2 / d, x / 2 % d;
    assert x == q * (2 * d) + (2 * r + x % 2);
    DivisionIsUnique(x, q, 2 * r + x % 2, 2 * d);
  }

  lemma {:induction false} ShrDivides(a: nat, k: nat)
    ensures Shr(a, k) == a / Pow2(k)
  {
    if k > 0 {
      ShrDivides(a / 2, k - 1);
      var p := Pow2(k - 1);
      assert Pow2(k) == 2 * p && Shr(a, k) == Shr(a / 2, k - 1);
      hide *;
      HalveThenDivide(a, p);
    }
  }

  lemma AndBit(a: nat, b: nat)
    ensures And(a, b) == 2 * And(a / 2, b / 2) + (a % 2) * (b % 2)
  {
  }

  lemma AndZero(a: nat)
    ensures And(a, 0) == 0
  {
  }

  lemma {:induction false} AndOnes(x: nat, m: nat)
    ensures x < Pow2(m) ==> And(x, Pow2(m) - 1) == x
  {
    hide And;
    AndBit(x, Pow2(m) - 1);
    if m > 0 {
      AndOnes(x / 2, m - 1);
      assert (Pow2(m) - 1) / 2 == Pow2(m - 1) - 1;
    } else {
      AndZero(x);
    }
  }

  lemma XorBit(a: nat, b: nat)
    ensures Xor(a, b) == 2 * Xor(a / 2, b / 2) + (a + b) % 2
  {
  }

  /** The greatest multiple of `2^k` not above `x`. */
  function Down(x: nat, k: nat): nat {
    DivMod(x, Pow2(k));
    x - x % Pow2(k)
  }

  lemma DownHalves(x: nat, k: nat)
    requires k > 0
    ensures Down(x, k) == 2 * Down(x / 2, k - 1)
  {
    var p := Pow2(k - 1);
    assert Pow2(k) == 2 * p;
    hide Pow2;
    HalveThenDivide(x, p);
  }

  lemma DownNone(x: nat)
    ensures Down(x, 0) == x
  {
  }

  /** A mask of ones above bit `k` clears the low `k` bits. */
  lemma {:induction false} AndHigh(x: nat, k: nat, m: nat)
    requires k <= m && x < Pow2(m)
    ensures Pow2(k) <= Pow2(m)
    ensures And(x, Pow2(m) - Pow2(k)) == Down(x, k)
  {
    hide And, Down;
    Pow2Monotone(k, m);
    if k == 0 {
      AndOnes(x, m);
      DownNone(x);
    } else {
      Pow2Monotone(k - 1, m - 1);
      AndHigh(x / 2, k - 1, m - 1);
      AndDouble(x, Pow2(m - 1) - Pow2(k - 1));
      DownHalves(x, k);
    }
  }

  lemma AndDouble(x: nat, h: nat)
    ensures And(x, 2 * h) == 2 * And(x / 2, h)
  {
    hide And;
    AndBit(x, 2 * h);
    assert 2 * h / 2 == h && 2 * h % 2 == 0;
  }

  /** Or with `k` low ones sets the low `k` bits. */
  lemma {:induction false} OrLow(x: nat, k: nat)
    ensures Or(x, Pow2(k) - 1) == Down(x, k) + Pow2(k) - 1
  {
    hide Or, Down;
    if k == 0 {
      OrZero(x);
      DownNone(x);
    } else {
      OrLow(x / 2, k - 1);
      DownHalves(x, k);
      OrOdd(x, Pow2(k - 1) - 1);
    }
  }

  lemma OrOdd(x: nat, h: nat)
    ensures Or(x, 2 * h + 1) == 2 * Or(x / 2, h) + 1
  {
    assert (2 * h + 1) / 2 == h && (2 * h + 1) % 2 == 1;
  }

  lemma {:induction false} OrZero(x: nat)
    ensures Or(x, 0) == x
  {
    if x > 0 {
      OrZero(x / 2);
    }
  }

  lemma XorDoubles(a: nat, b: nat)
    ensures Xor(2 * a, 2 * b) == 2 * Xor(a, b)
    ensures Xor(2 * a + 1, 2 * b) == 2 * Xor(a, b) + 1
    ensures Xor(2 * a, 2 * b + 1) == 2 * Xor(a, b) + 1
    ensures Xor(2 * a + 1, 2 * b + 1) == 2 * Xor(a, b)
  {
    hide Xor;
    assert 2 * a / 2 == a && (2 * a + 1) / 2 == a && 2 * b / 2 == b && (2 * b + 1) / 2 == b;
    XorBit(2 * a, 2 * b);
    XorBit(2 * a + 1, 2 * b);
    XorBit(2 * a, 2 * b + 1);
    XorBit(2 * a + 1, 2 * b + 1);
  }

  /** Flipping the low `k` of `m` ones leaves the high ones; flipping the high ones leaves the low ones. */
  lemma {:induction false} XorOnes(k: nat, m: nat)
    requires k <= m
    ensures Pow2(k) <= Pow2(m)
    ensures Xor(Pow2(m) - 1, Pow2(k) - 1) == Pow2(m) - Pow2(k)
    ensures Xor(Pow2(m) - Pow2(k), Pow2(m) - 1) == Pow2(k) - 1
  {
    hide Xor;
    Pow2Monotone(k, m);
    if m == 0 {
      XorBit(0, 0);
    } else if k == 0 {
      XorOnes(0, m - 1);
      XorDoubles(Pow2(m - 1) - 1, 0);
      XorDoubles(Pow2(m - 1) - 1, Pow2(m - 1) - 1);
      assert Pow2(m) - 1 == 2 * (Pow2(m - 1) - 1) + 1;
    } else {
      XorOnes(k - 1, m - 1);
      var pm, pk := Pow2(m - 1), Pow2(k - 1);
      assert Pow2(m) == 2 * pm && Pow2(k) == 2 * pk;
      hide *;
      XorDoubles(pm - 1, pk - 1);
      XorDoubles(pm - pk, pm - 1);
      assert 2 * pm - 1 == 2 * (pm - 1) + 1 && 2 * pk - 1 == 2 * (pk - 1) + 1;
      assert 2 * pm - 2 * pk == 2 * (pm - pk);
    }
  }
}
