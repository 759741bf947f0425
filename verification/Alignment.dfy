/** Addresses aligned to a power of two, and the blocks they start. */
module Alignment {
  import opened Powers
  import opened Bits

  predicate Aligned(x: nat, k: nat) {
    x % Pow2(k) == 0
  }

  lemma AlignedIs(x: nat, q: nat, k: nat)
    requires x == q * Pow2(k)
    ensures Aligned(x, k)
  {
    DivisionIsUnique(x, q, 0, Pow2(k));
  }

  lemma Quotient(x: nat, k: nat) returns (q: nat)
    requires Aligned(x, k)
    ensures x == q * Pow2(k)
  {
    q := x / Pow2(k);
  }

  lemma Split(j: nat, k: nat) returns (t: nat)
    requires k <= j
    ensures t > 0 && Pow2(j) == t * Pow2(k) && (k < j ==> t == 2 * Pow2(j - k - 1))
  {
    t := Pow2(j - k);
    Pow2Add(j - k, k);
  }

  lemma MulAssociates(a: int, b: int, c: int)
    ensures (a * b) * c == a * (b * c)
  {
  }

  lemma AlignedDown(x: nat, j: nat, k: nat)
    requires k <= j && Aligned(x, j)
    ensures Aligned(x, k)
  {
    var q := Quotient(x, j);
    var t := Split(j, k);
    MulAssociates(q, t, Pow2(k));
    AlignedIs(x, q * t, k);
  }

  lemma AlignedAdd(x: nat, y: nat, k: nat)
    requires Aligned(x, k) && Aligned(y, k)
    ensures Aligned(x + y, k)
  {
    var p := Quotient(x, k);
    var q := Quotient(y, k);
    MulAdds(p, q, Pow2(k));
    AlignedIs(x + y, p + q, k);
  }

  lemma Pow2Aligned(j: nat, k: nat)
    requires k <= j
    ensures Aligned(Pow2(j), k)
  {
    var t := Split(j, k);
    AlignedIs(Pow2(j), t, k);
  }

  /** The end of a block is aligned as its start is; if the start is not aligned further, the end is. */
  lemma AlignedStep(x: nat, k: nat)
    requires Aligned(x, k)
    ensures Aligned(x + Pow2(k), k)
    ensures !Aligned(x, k + 1) ==> Aligned(x + Pow2(k), k + 1)
  {
    Pow2Aligned(k, k);
    AlignedAdd(x, Pow2(k), k);
    var q := Quotient(x, k);
    var p := Pow2(k);
    if q % 2 == 0 {
      var h := q / 2;
      assert q == h * 2;
      MulAssociates(h, 2, p);
      AlignedIs(x, h, k + 1);
    } else {
      var h := (q + 1) / 2;
      assert q + 1 == h * 2;
      MulAssociates(h, 2, p);
      MulAdds(q, 1, p);
      AlignedIs(x + p, h, k + 1);
    }
  }

  lemma MulOrder(a: nat, b: nat, d: nat)
    requires a <= b
    ensures a * d <= b * d
  {
    MulPositive(b - a, d);
    MulDistributes(b, a, d);
  }

  lemma NestedMultiples(a: nat, t: nat, b: nat, p: nat)
    requires p > 0 && a * p < b * p + p && b * p < (a + t) * p
    ensures a * p <= b * p && b * p + p <= (a + t) * p
  {
    MulCancel(a, b, p);
    MulOrder(a, b, p);
    if b + 1 <= a + t {
      MulOrder(b + 1, a + t, p);
      MulAdds(b, 1, p);
    } else {
      MulOrder(a + t, b, p);
    }
  }

  /** Two aligned blocks that overlap are nested, the smaller in the larger. */
  lemma Nested(a: nat, j: nat, b: nat, k: nat)
    requires Aligned(a, j) && Aligned(b, k) && k <= j
    requires a < b + Pow2(k) && b < a + Pow2(j)
    ensures a <= b && b + Pow2(k) <= a + Pow2(j)
  {
    var A := Quotient(a, j);
    var t := Split(j, k);
    var B := Quotient(b, k);
    hide *;
    MulAssociates(A, t, Pow2(k));
    MulAdds(A * t, t, Pow2(k));
    NestedMultiples(A * t, t, B, Pow2(k));
  }

  /** A block reaches at most to the end of an aligned bound it starts below. */
  lemma BlockFits(x: nat, k: nat, m: nat)
    requires Aligned(x, k) && k <= m && x < Pow2(m)
    ensures x + Pow2(k) <= Pow2(m)
  {
    AlignedIs(0, 0, m);
    Nested(0, m, x, k);
  }

  lemma AlignedZeroOnly(x: nat, m: nat)
    requires Aligned(x, m) && x < Pow2(m)
    ensures x == 0
  {
    DivisionIsUnique(x, 0, x, Pow2(m));
  }
}
