/** How the ladders of the two implementations relate to the one of RFC 7748: the swap discipline
    never matters, and a leading zero bit only rescales the second point. */
module Ladders {
  import opened Bits
  import opened Field
  import opened Rfc7748
  import opened Hacl64Ladder

  // ----- Swap discipline -----

  /** Carrying the swap to the next bit and undoing it at once give the same state. */
  lemma {:induction false} DeferredIsImmediate(x1: int, k: nat, t: nat, q: Quad, swap: nat)
    requires swap < 2
    ensures Loop(x1, k, t, q, swap) == Immediate(x1, k, t, CSwap(swap, q))
  {
    hide Step, Shr;
    if t > 0 {
      var bit := Shr(k, t - 1) % 2;
      DeferredIsImmediate(x1, k, t - 1, Step(x1, CSwap((swap + bit) % 2, q)), bit);
      assert CSwap(bit, CSwap(swap, q)) == CSwap((swap + bit) % 2, q);
    }
  }

  // ----- Rescaling -----

  /** The same two projective points, with coordinates multiplied by `a` and by `b`. */
  function Scale(a: int, b: int, q: Quad): Quad
  {
    Quad(Mul(a, q.x2), Mul(a, q.z2), Mul(b, q.x3), Mul(b, q.z3))
  }

  function Square(a: int): int { Mul(a, a) }

  /** A step of a rescaled state is the rescaled step. */
  lemma StepOfScale(x1: int, a: int, b: int, q: Quad)
    ensures Step(x1, Scale(a, b, q)) == Scale(Square(Square(a)), Square(Mul(a, b)), Step(x1, q))
  {
    hide F, Add, Sub, Mul;
    var s := Scale(a, b, q);
    Distribute(a, q.x2, q.z2);
    Distribute(b, q.x3, q.z3);
    var sum, diff, c, d := Add(q.x2, q.z2), Sub(q.x2, q.z2), Add(q.x3, q.z3), Sub(q.x3, q.z3);
    MulSwap(a, sum, a, sum);
    MulSwap(a, diff, a, diff);
    var a2, aa, bb := Mul(a, a), Mul(sum, sum), Mul(diff, diff);
    Distribute(a2, aa, bb);
    var e := Sub(aa, bb);
    MulSwap(a2, aa, a2, bb);
    ScaledMultiple(a2, aa, e);
    MulSwap(a2, e, a2, Add(aa, Mul(121665, e)));
    MulSwap(b, d, a, sum);
    MulSwap(b, c, a, diff);
    MulComm(b, a);
    var ab, da, cb := Mul(a, b), Mul(d, sum), Mul(c, diff);
    Distribute(ab, da, cb);
    MulSwap(ab, Add(da, cb), ab, Add(da, cb));
    MulSwap(ab, Sub(da, cb), ab, Sub(da, cb));
    Pull(x1, Mul(ab, ab), Mul(Sub(da, cb), Sub(da, cb)));
  }

  lemma ScaledMultiple(a: int, x: int, e: int)
    ensures Add(Mul(a, x), Mul(121665, Mul(a, e))) == Mul(a, Add(x, Mul(121665, e)))
  {
    hide F, Add, Sub, Mul;
    Pull(121665, a, e);
    Distribute(a, x, Mul(121665, e));
  }

  /** x (a y) = a (x y). */
  lemma Pull(x: int, a: int, y: int)
    ensures Mul(x, Mul(a, y)) == Mul(a, Mul(x, y))
  {
    hide F, Mul;
    MulAssoc(x, a, y);
    MulAssoc(a, x, y);
    MulComm(x, a);
  }

  /** Scaling by powers of one number stays scaling by powers of it, through every later step. */
  lemma {:induction false} ImmediateOfScale(x1: int, k: nat, t: nat, w: int, m: nat, n: nat, q: Quad)
    returns (m': nat, n': nat)
    ensures Immediate(x1, k, t, Scale(Pow(w, m), Pow(w, n), q)) == Scale(Pow(w, m'), Pow(w, n'), Immediate(x1, k, t, q))
  {
    hide F, Mul, Pow, Step, Shr;
    if t == 0 {
      m', n' := m, n;
    } else {
      var bit := Shr(k, t - 1) % 2;
      var i, j := SwapStepOfScale(x1, bit, w, m, n, q);
      m', n' := ImmediateOfScale(x1, k, t - 1, w, i, j, SwapStep(x1, bit, q));
    }
  }

  lemma SwapStepOfScale(x1: int, bit: nat, w: int, m: nat, n: nat, q: Quad) returns (m': nat, n': nat)
    requires bit < 2
    ensures SwapStep(x1, bit, Scale(Pow(w, m), Pow(w, n), q)) == Scale(Pow(w, m'), Pow(w, n'), SwapStep(x1, bit, q))
  {
    hide F, Mul, Pow, Step;
    var i, j := if bit == 1 then n else m, if bit == 1 then m else n;
    StepOfScale(x1, Pow(w, i), Pow(w, j), CSwap(bit, q));
    PowAdd(w, i, i);
    PowAdd(w, i + i, i + i);
    PowAdd(w, i, j);
    PowAdd(w, i + j, i + j);
    var u, v := i + i + (i + i), i + j + (i + j);
    m', n' := if bit == 1 then v else u, if bit == 1 then u else v;
  }

  /** Dividing X by Z forgets the scale, where the scale is invertible by its (p-2)nd power. */
  lemma AffineOfScale(a: int, b: int, q: Quad)
    ensures Affine(Scale(a, b, q)) == Mul(Pow(a, PRIME - 1), Affine(q))
  {
    hide F, Mul, Pow;
    PowOfProduct(a, q.z2, PRIME - 2);
    MulSwap(a, q.x2, Pow(a, PRIME - 2), Pow(q.z2, PRIME - 2));
    PowNext(a, PRIME - 2);
  }

  lemma PowNext(a: int, n: nat)
    ensures Pow(a, n + 1) == Mul(a, Pow(a, n))
  {
    hide F;
  }
}
