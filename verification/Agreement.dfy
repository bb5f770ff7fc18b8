/** The two implementations compute the same function. The 64-bit ladder runs one bit more than the
    ladder of RFC 7748; that bit is the zero clamping put there, it multiplies (X3 : Z3) by 4 u, and
    the multiple cancels when X is divided by Z. */
module Agreement {
  import opened Bits
  import opened Field
  import opened Fermat
  import opened Rfc7748
  import opened Hacl64Ladder
  import opened Ladders
  import Hacl64

  /** What a step on a zero bit does to the starting state. */
  lemma LeadingZero(x1: int)
    requires 0 <= x1 < PRIME
    ensures SwapStep(x1, 0, Quad(1, 0, x1, 1)) == Scale(1, Mul(4, x1), Quad(1, 0, x1, 1))
  {
    hide F, Add, Sub, Mul;
    Units(121665);
    DifferenceAndSum(x1);
    Unit(Sub(x1, 1));
    Unit(Add(x1, 1));
    Unit(Mul(4, x1));
    FourfoldSquare(x1);
  }

  lemma Units(a24: int)
    ensures Add(1, 0) == 1 && Sub(1, 0) == 1 && Sub(1, 1) == 0 && Mul(1, 1) == 1
    ensures Mul(a24, 0) == 0 && Mul(0, 1) == 0 && Mul(1, 0) == 0
  {
    hide F, Add, Sub, Mul;
    Unit(1);
    PlusNothing(1);
    Nothing(a24);
    Nothing(1);
  }

  lemma PlusNothing(y: int)
    requires 0 <= y < PRIME
    ensures Add(y, 0) == y && Add(0, y) == y && Sub(y, 0) == y
  {
    hide F;
    Canonical(y);
  }

  lemma Unit(y: int)
    requires 0 <= y < PRIME
    ensures Mul(y, 1) == y && Mul(1, y) == y
  {
    hide F, Mul;
    MulOne(y);
    Canonical(y);
  }

  lemma DifferenceAndSum(x1: int)
    ensures Add(Sub(x1, 1), Add(x1, 1)) == F(2 * x1)
    ensures Sub(Sub(x1, 1), Add(x1, 1)) == F(-2)
  {
    hide F;
    Reduce(x1 - 1, x1 + 1);
  }

  lemma FourfoldSquare(x1: int)
    ensures Mul(F(2 * x1), F(2 * x1)) == Mul(Mul(4, x1), x1)
    ensures Mul(x1, Mul(F(-2), F(-2))) == Mul(4, x1)
  {
    hide F, Mul;
    var y, t := 2 * x1, 4 * x1;
    Reduce(y, y);
    Product(y, y);
    Product(4, x1);
    ReduceLeft(t, x1);
    Product(t, x1);
    assert y * y == t * x1;
    Reduce(-2, -2);
    Product(-2, -2);
    ReduceRight(x1, 4);
    Product(x1, 4);
  }

  /** The two top bits of a clamped scalar. */
  lemma TopBits(k: seq<u8>, n: nat)
    requires |k| == 32 && n == 254
    ensures Shr(DecodeScalar(k), n + 1) == 0 && Shr(DecodeScalar(k), n) == 1
  {
    hide DecodeScalar, Shr;
    var m := ClampedScalar(k, n);
    var s, w := DecodeScalar(k), Pow2(n);
    DivModUnique(s, w, 1, 8 * m);
    DivModUnique(s, 2 * w, 0, s);
    ShrIsDiv(s, n);
    ShrIsDiv(s, n + 1);
  }

  /** The 256-bit ladder ends in the 255-bit ladder's points, each multiplied by a power of 4 u. */
  lemma LongerLadder(x1: int, k: nat, t: nat) returns (m: nat, n: nat)
    requires 0 <= x1 < PRIME && Shr(k, t) == 0
    ensures var q := Quad(1, 0, x1, 1); var w := Mul(4, x1);
      Immediate(x1, k, t + 1, q) == Scale(Pow(w, m), Pow(w, n), Immediate(x1, k, t, q))
  {
    hide F, Shr, Mul, Pow, SwapStep;
    var q, w := Quad(1, 0, x1, 1), Mul(4, x1);
    LeadingZero(x1);
    FirstPowers(w);
    m, n := ImmediateOfScale(x1, k, t, w, 0, 1, q);
  }

  lemma FirstPowers(w: int)
    requires 0 <= w < PRIME
    ensures Pow(w, 0) == 1 && Pow(w, 1) == w
  {
    hide F;
    assert Pow(w, 1) == Mul(w, Pow(w, 0)) == F(w);
    Canonical(w);
  }

  // ----- The point with u = 0 -----

  /** Where the ladder of u = 0 stays once it has met a one bit. */
  ghost predicate Collapsed(q: Quad)
  {
    q.x2 == 0 && q.z2 == 0 && q.z3 == 0
  }

  lemma CollapsedStep(x1: int, bit: nat, q: Quad)
    requires x1 == 0 && bit < 2 && Collapsed(q)
    ensures Collapsed(SwapStep(x1, bit, q))
  {
    hide Step;
    assert q == Quad(0, 0, q.x3, 0);
    if bit == 0 {
      CollapsedZero(q.x3);
    } else {
      CollapsedOne(q.x3);
    }
  }

  lemma CollapsedZero(x: int)
    ensures Step(0, Quad(0, 0, x, 0)) == Quad(0, 0, 0, 0)
  {
    hide F, Add, Sub, Mul;
    var s, d := Add(x, 0), Sub(x, 0);
    Nothing(s);
    Nothing(d);
    Nothing(Add(0, Mul(121665, 0)));
    Nothing(0);
  }

  lemma CollapsedOne(x: int)
    ensures Step(0, Quad(x, 0, 0, 0)) == Quad(Step(0, Quad(x, 0, 0, 0)).x2, 0, 0, 0)
  {
    hide F, Add, Sub, Mul;
    var s := Add(x, 0);
    SameSum(x);
    Nothing(s);
    var aa := Mul(s, s);
    Nothing(aa);
    Nothing(Add(aa, Mul(121665, 0)));
    Nothing(0);
  }

  lemma Nothing(y: int)
    ensures Mul(0, y) == 0 && Mul(y, 0) == 0 && Sub(y, y) == 0 && Add(0, 0) == 0
  {
    hide F, Mul;
    Product(0, y);
    Product(y, 0);
    Canonical(0);
  }

  lemma SameSum(x: int)
    ensures Add(x, 0) == Sub(x, 0)
  {
    hide F;
  }

  lemma {:induction false} CollapsedForever(k: nat, t: nat, q: Quad)
    requires Collapsed(q)
    ensures Collapsed(Immediate(0, k, t, q))
  {
    hide Collapsed, SwapStep, Shr;
    if t > 0 {
      var bit := Shr(k, t - 1) % 2;
      CollapsedStep(0, bit, q);
      CollapsedForever(k, t - 1, SwapStep(0, bit, q));
    }
  }

  lemma FirstOneBit()
    ensures Collapsed(SwapStep(0, 1, Quad(1, 0, 0, 1)))
  {
    hide F, Add, Sub, Mul;
    MinusOne();
    Units(121665);
    Nothing(0);
    Nothing(Mul(Sub(1, Sub(0, 1)), Sub(1, Sub(0, 1))));
  }

  lemma MinusOne()
    ensures var m := Sub(0, 1);
      Add(0, 1) == 1 && Mul(m, m) == 1 && Mul(1, m) == m && Add(1, m) == 0
  {
    hide F, Add, Sub, Mul;
    var m := Sub(0, 1);
    PlusNothing(1);
    Unit(m);
    Opposite(1);
    SquareOfNegation(0, 1);
    PlusNothing(1);
    Unit(1);
  }

  lemma Opposite(y: int)
    requires 0 <= y < PRIME
    ensures Add(y, Sub(0, y)) == 0
  {
    hide F;
    Canonical(y);
    Canonical(0);
    Reduce(y, 0 - y);
  }

  lemma ZeroPoint(k: nat, t: nat)
    requires t > 0 && Shr(k, t - 1) == 1
    ensures Immediate(0, k, t, Quad(1, 0, 0, 1)).x2 == 0
  {
    hide SwapStep, Shr;
    var q := Quad(1, 0, 0, 1);
    FirstOneBit();
    CollapsedForever(k, t - 1, SwapStep(0, 1, q));
  }

  // ----- Agreement -----

  /** Dividing X by Z forgets a power of a nonzero scale. */
  lemma ScaleForgotten(w: int, m: nat, n: nat, q: Quad)
    requires Prime(PRIME) && 0 < w < PRIME
    ensures Affine(Scale(Pow(w, m), Pow(w, n), q)) == Affine(q)
  {
    hide F, Mul, Pow, Prime, Scale, Affine;
    AffineOfScale(Pow(w, m), Pow(w, n), q);
    PowMul(w, m, PRIME - 1);
    PowMul(w, PRIME - 1, m);
    Times(m);
    Little(w, PRIME);
    OnePow(m);
    OneAffine(q);
  }

  lemma Times(m: nat)
    ensures m * (PRIME - 1) == (PRIME - 1) * m
  {
  }

  lemma OneAffine(q: Quad)
    ensures Mul(1, Affine(q)) == Affine(q)
  {
    hide F, Pow, Mul;
    MulOne(Affine(q));
    Canonical(Affine(q));
  }

  lemma {:induction false} OnePow(n: nat)
    ensures Pow(1, n) == 1
  {
    hide F;
    if n > 0 {
      OnePow(n - 1);
      Canonical(1);
    }
  }

  lemma ZeroAffine(q: Quad)
    requires q.x2 == 0
    ensures Affine(q) == 0
  {
    hide Pow;
    ZeroTimes(Pow(q.z2, PRIME - 2));
  }

  lemma SameAffine(x1: int, k: nat, t: nat)
    requires Prime(PRIME) && 0 <= x1 < PRIME && t > 0 && Shr(k, t) == 0 && Shr(k, t - 1) == 1
    ensures Affine(Immediate(x1, k, t + 1, Quad(1, 0, x1, 1))) == Affine(Immediate(x1, k, t, Quad(1, 0, x1, 1)))
  {
    hide F, Mul, Pow, Prime, Immediate, Affine, Shr;
    var q, w := Quad(1, 0, x1, 1), Mul(4, x1);
    var m, n := LongerLadder(x1, k, t);
    var r := Immediate(x1, k, t, q);
    if x1 == 0 {
      ZeroPoint(k, t);
      ZeroScaled(Pow(w, m));
      ZeroAffine(r);
      ZeroAffine(Scale(Pow(w, m), Pow(w, n), r));
    } else {
      FourTimes(x1);
      ScaleForgotten(w, m, n, r);
    }
  }

  lemma ZeroScaled(a: int)
    ensures Mul(a, 0) == 0
  {
  }

  lemma FourTimes(x1: int)
    requires 0 < x1 < PRIME
    ensures Mul(4, x1) > 0
  {
    hide Mul;
    Product(4, x1);
    var y := 4 * x1;
    assert y < PRIME || F(y) == F(y - PRIME);
    assert y < 2 * PRIME || F(y - PRIME) == F(y - 2 * PRIME);
    assert y < 3 * PRIME || F(y - 2 * PRIME) == F(y - 3 * PRIME);
  }

  /** The 64-bit implementation computes X25519, on every secret and every point. */
  lemma GenericIsX25519(k: seq<u8>, u: seq<u8>)
    requires |k| == 32 && |u| == 32 && Prime(PRIME)
    ensures Hacl64.Generic(k, u) == X25519(k, u)
  {
    hide F, Mul, Pow, Prime, Immediate, Loop, Affine, Shr, Encode, DecodeScalar, LittleEndian;
    var x1, s, n := DecodeU(u), DecodeScalar(k), 254;
    TopBits(k, n);
    SameAffine(x1, s, n + 1);
    DeferredIsImmediate(x1, s, n + 1, Quad(1, 0, x1, 1), 0);
  }
}
