/** The exponents of the addition chain for p - 2 = 2^255 - 21, which both implementations follow. */
module Inversion {
  import opened Bits
  import opened Field

  lemma PowSquare(v: int, w: int, n: nat)
    requires w == Pow(v, Pow2(n)) || (n == 0 && w == v)
    ensures Mul(w, w) == Pow(v, Pow2(n + 1))
  {
    hide F, Mul;
    if n == 0 && w == v {
      PowAdd(v, 1, 1);
      Reduce(v, v);
      MulOne(v);
      assert Pow(v, 1) == Mul(v, Pow(v, 0)) == F(v);
    } else {
      PowAdd(v, Pow2(n), Pow2(n));
    }
  }

  /** The seven repetition counts of the chain, as multipliers of the exponent. */
  lemma SquaringCounts(n: nat)
    ensures n == 1 ==> Pow2(n) == 2
    ensures n == 2 ==> Pow2(n) == 4
    ensures n == 5 ==> Pow2(n) == 0x20
    ensures n == 10 ==> Pow2(n) == 0x400
    ensures n == 20 ==> Pow2(n) == 0x100000
    ensures n == 50 ==> Pow2(n) == 0x4000000000000
    ensures n == 100 ==> Pow2(n) == 0x10000000000000000000000000
  {
    if n == 20 || n == 50 || n == 100 {
      Pow2By8(0); Pow2By8(8);
    }
    if n == 50 || n == 100 {
      Pow2By8(16); Pow2By8(24); Pow2By8(32); Pow2By8(40);
    }
    if n == 100 {
      Pow2By8(48); Pow2By8(56); Pow2By8(64); Pow2By8(72); Pow2By8(80); Pow2By8(88);
    }
  }
}
