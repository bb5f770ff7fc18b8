/** X25519 as the 32-bit implementation computes it, end to end over byte arrays. */
module Fiat32 {
  import opened Bits
  import opened Field
  import opened Rfc7748
  import opened Radix51
  import opened Fiat32Field
  import opened Fiat32Format
  import Hacl64

  /** Exchange `f` and `g` when b is one, leave them when it is zero. */
  method FeCSwap(f: array<u32>, g: array<u32>, b: u32)
    requires f.Length == 10 && g.Length == 10 && f != g && b < 2
    modifies f, g
    ensures At32(f) == if b == 1 then old(At32(g)) else old(At32(f))
    ensures At32(g) == if b == 1 then old(At32(f)) else old(At32(g))
  {
    hide And, Xor, Pow2;
    var mask: u32 := if b == 0 then 0 else 0x1_0000_0000 - b;
    var i := 0;
    while i < 10
      invariant 0 <= i <= 10
      invariant forall k :: 0 <= k < i ==> f[k] == if b == 1 then old(g[k]) else old(f[k])
      invariant forall k :: 0 <= k < i ==> g[k] == (if b == 1 then old(f[k]) else old(g[k]))
      invariant forall k :: i <= k < 10 ==> f[k] == old(f[k]) && g[k] == old(g[k])
    {
      XorWord32(f[i], g[i]);
      var x: u32 := Xor(f[i], g[i]);
      Masked32(x, mask);
      XorCancel(f[i], g[i]);
      x := And(x, mask);
      f[i] := Xor(f[i], x);
      g[i] := Xor(g[i], x);
      i := i + 1;
    }
  }

  ghost function State32(x2: array<u32>, z2: array<u32>, x3: array<u32>, z3: array<u32>): Quad
    requires x2.Length == 10 && z2.Length == 10 && x3.Length == 10 && z3.Length == 10
    reads x2, z2, x3, z3
  {
    Quad(Value32(At32(x2)), Value32(At32(z2)), Value32(At32(x3)), Value32(At32(z3)))
  }

  /** From the four coordinates: z3 := DA, z2 := CB, tmp0 := BB, tmp1 := AA. */
  method StepProducts(x2: array<u32>, z2: array<u32>, x3: array<u32>, z3: array<u32>, tmp0: array<u32>,
                      tmp1: array<u32>)
    requires x2.Length == 10 && z2.Length == 10 && x3.Length == 10 && z3.Length == 10 && tmp0.Length == 10
      && tmp1.Length == 10
    requires {x2} !! {z2} !! {x3} !! {z3} !! {tmp0} !! {tmp1}
    requires Tight(At32(x2)) && Tight(At32(z2)) && Tight(At32(x3)) && Tight(At32(z3))
    modifies z2, z3, tmp0, tmp1
    ensures Tight(At32(z2)) && Tight(At32(z3)) && Tight(At32(tmp0)) && Tight(At32(tmp1))
    ensures Loose32(At32(tmp0)) && Loose32(At32(tmp1))
    ensures var q := old(State32(x2, z2, x3, z3));
            var a, b := Add(q.x2, q.z2), Sub(q.x2, q.z2);
            && Value32(At32(z3)) == Mul(Sub(q.x3, q.z3), a) && Value32(At32(z2)) == Mul(Add(q.x3, q.z3), b)
            && Value32(At32(tmp0)) == Mul(b, b) && Value32(At32(tmp1)) == Mul(a, a)
  {
    hide Tight, Loose32, Value32, At32, Mul, Add, Sub;
    var tmp0l, tmp1l, x2l, z2l := new u32[10], new u32[10], new u32[10], new u32[10];
    FeSub(tmp0l, x3, z3);
    FeSub(tmp1l, x2, z2);
    FeAdd(x2l, x2, z2);
    FeAdd(z2l, x3, z3);
    FeMul(z3, tmp0l, x2l);
    FeMul(z2, z2l, tmp1l);
    FeSqr(tmp0, tmp1l);
    FeSqr(tmp1, x2l);
  }

  /** From DA, CB, BB and AA to the coordinates after the step. */
  method StepResults(x1: array<u32>, x2: array<u32>, z2: array<u32>, x3: array<u32>, z3: array<u32>,
                     tmp0: array<u32>, tmp1: array<u32>)
    requires x1.Length == 10 && x2.Length == 10 && z2.Length == 10 && x3.Length == 10 && z3.Length == 10
      && tmp0.Length == 10 && tmp1.Length == 10
    requires {x1} !! {x2} !! {z2} !! {x3} !! {z3} !! {tmp0} !! {tmp1}
    requires Tight(At32(z2)) && Tight(At32(z3)) && Tight(At32(tmp0)) && Tight(At32(tmp1))
    requires Loose32(At32(tmp0)) && Loose32(At32(tmp1)) && Loose32(At32(x1))
    modifies x2, z2, x3, z3
    ensures Tight(At32(x2)) && Tight(At32(z2)) && Tight(At32(x3)) && Tight(At32(z3))
    ensures var da, cb := old(Value32(At32(z3))), old(Value32(At32(z2)));
            var bb, aa := old(Value32(At32(tmp0))), old(Value32(At32(tmp1)));
            var e := Sub(aa, bb);
            State32(x2, z2, x3, z3) == Quad(Mul(aa, bb), Mul(e, Add(bb, Mul(121666, e))),
                                            Mul(Add(da, cb), Add(da, cb)),
                                              Mul(Value32(At32(x1)), Mul(Sub(da, cb), Sub(da, cb))))
  {
    hide Tight, Loose32, Value32, At32, Mul, Add, Sub;
    var x3l, z2l, tmp1l, tmp0l := new u32[10], new u32[10], new u32[10], new u32[10];
    FeAdd(x3l, z3, z2);
    FeSub(z2l, z3, z2);
    FeMul(x2, tmp1, tmp0);
    FeSub(tmp1l, tmp1, tmp0);
    FeSqr(z2, z2l);
    FeMul121666(z3, tmp1l);
    FeSqr(x3, x3l);
    FeAdd(tmp0l, tmp0, z3);
    FeMul(z3, x1, z2);
    FeMul(z2, tmp1l, tmp0l);
  }

  /** AA + 121665 E and BB + 121666 E are one field element, since E is AA - BB. */
  lemma EitherConstant(aa: int, bb: int)
    ensures var e := Sub(aa, bb); Add(bb, Mul(121666, e)) == Add(aa, Mul(121665, e))
  {
    hide F, Mul;
    var e := aa - bb;
    ReduceRight(121666, e);
    ReduceRight(121665, e);
    Product(121666, e);
    Product(121665, e);
    AddReduceRight(bb, 121666 * e);
    AddReduceRight(aa, 121665 * e);
  }

  lemma AddReduceRight(a: int, b: int)
    ensures Add(a, F(b)) == Add(a, b)
  {
    hide F;
    Reduce(a, b);
    Reduce(a, F(b));
    Idempotent(b);
  }

  /** One RFC 7748 step on the four coordinates, in place. */
  method LadderStep(x1: array<u32>, x2: array<u32>, z2: array<u32>, x3: array<u32>, z3: array<u32>)
    requires x1.Length == 10 && x2.Length == 10 && z2.Length == 10 && x3.Length == 10 && z3.Length == 10
    requires {x1} !! {x2} !! {z2} !! {x3} !! {z3}
    requires Loose32(At32(x1)) && Tight(At32(x2)) && Tight(At32(z2)) && Tight(At32(x3)) && Tight(At32(z3))
    modifies x2, z2, x3, z3
    ensures Tight(At32(x2)) && Tight(At32(z2)) && Tight(At32(x3)) && Tight(At32(z3))
    ensures State32(x2, z2, x3, z3) == Step(Value32(At32(x1)), old(State32(x2, z2, x3, z3)))
  {
    hide Tight, Loose32, Value32, At32, Mul, Add, Sub;
    ghost var q := State32(x2, z2, x3, z3);
    EitherConstant(Mul(Add(q.x2, q.z2), Add(q.x2, q.z2)), Mul(Sub(q.x2, q.z2), Sub(q.x2, q.z2)));
    var tmp0, tmp1 := new u32[10], new u32[10];
    StepProducts(x2, z2, x3, z3, tmp0, tmp1);
    StepResults(x1, x2, z2, x3, z3, tmp0, tmp1);
  }

  /** The loop over bits 254 down to 0, with its swap carried from one bit to the next, and the final
      exchange. */
  method Ladder(x1: array<u32>, x2: array<u32>, z2: array<u32>, x3: array<u32>, z3: array<u32>, e: array<u8>)
    requires x1.Length == 10 && x2.Length == 10 && z2.Length == 10 && x3.Length == 10 && z3.Length == 10
      && e.Length == 32
    requires {x1} !! {x2} !! {z2} !! {x3} !! {z3}
    requires Loose32(At32(x1)) && Tight(At32(x2)) && Tight(At32(z2)) && Tight(At32(x3)) && Tight(At32(z3))
    modifies x2, z2, x3, z3
    ensures Tight(At32(x2)) && Tight(At32(z2))
    ensures State32(x2, z2, x3, z3) == Loop(Value32(At32(x1)), LittleEndian(e[..]), 255,
                                            old(State32(x2, z2, x3, z3)), 0)
  {
    hide Tight, Loose32, Value32, At32, Step, LittleEndian, Shr, Xor;
    ghost var k, v := LittleEndian(e[..]), Value32(At32(x1));
    var swap: u32 := 0;
    var pos := 254;
    while pos >= 0
      invariant -1 <= pos <= 254 && swap < 2
      invariant Tight(At32(x2)) && Tight(At32(z2)) && Tight(At32(x3)) && Tight(At32(z3))
      invariant Loop(v, k, pos + 1, State32(x2, z2, x3, z3), swap) == Loop(v, k, 255, old(State32(x2, z2, x3, z3)), 0)
    {
      BitOfBytes(e[..], pos);
      var b: u32 := Shr(e[pos / 8], pos % 8) % 2;
      OneBitOps(swap, b);
      swap := Xor(swap, b);
      SwapPairs(x2, z2, x3, z3, swap);
      swap := b;
      LadderStep(x1, x2, z2, x3, z3);
      pos := pos - 1;
    }
    SwapPairs(x2, z2, x3, z3, swap);
  }

  method SwapPairs(x2: array<u32>, z2: array<u32>, x3: array<u32>, z3: array<u32>, swap: u32)
    requires x2.Length == 10 && z2.Length == 10 && x3.Length == 10 && z3.Length == 10
    requires {x2} !! {z2} !! {x3} !! {z3} && swap < 2
    requires Tight(At32(x2)) && Tight(At32(z2)) && Tight(At32(x3)) && Tight(At32(z3))
    modifies x2, z2, x3, z3
    ensures Tight(At32(x2)) && Tight(At32(z2)) && Tight(At32(x3)) && Tight(At32(z3))
    ensures State32(x2, z2, x3, z3) == CSwap(swap, old(State32(x2, z2, x3, z3)))
  {
    hide Tight, Value32, At32;
    FeCSwap(x2, x3, swap);
    FeCSwap(z2, z3, swap);
  }

  lemma TightIsLoose(x: Fe)
    requires Tight(x)
    ensures Loose32(x)
  {
  }

  method FeSmall(n: u32) returns (f: array<u32>)
    requires n < 2
    ensures fresh(f) && f.Length == 10
    ensures Tight(At32(f)) && Value32(At32(f)) == n
  {
    hide F, Eval;
    f := new u32[10] [n, 0, 0, 0, 0, 0, 0, 0, 0, 0];
    assert At32(f) == Fe(Limbs(n, 0, 0, 0, 0), Limbs(0, 0, 0, 0, 0));
    SmallConstant(n);
  }

  method FeCopy(h: array<u32>, f: array<u32>)
    requires h.Length == 10 && f.Length == 10 && h != f
    modifies h
    ensures At32(h) == At32(f)
  {
    forall i | 0 <= i < 10 {
      h[i] := f[i];
    }
  }

  /** The projective result (x2 : z2) for a clamped scalar `e`. */
  method Multiply(e: array<u8>, point: array<u8>) returns (x2: array<u32>, z2: array<u32>)
    requires e.Length == 32 && point.Length == 32
    ensures fresh(x2) && fresh(z2) && x2 != z2 && x2.Length == 10 && z2.Length == 10
    ensures Tight(At32(x2)) && Tight(At32(z2))
    ensures var x1 := DecodeU(point[..]);
            var r := Loop(x1, LittleEndian(e[..]), 255, Quad(1, 0, x1, 1), 0);
            Value32(At32(x2)) == r.x2 && Value32(At32(z2)) == r.z2
  {
    hide Tight, Loose32, Value32, At32, LittleEndian, DecodeU, Loop;
    var x1 := FeSmall(0);
    FeFromBytes(x1, point);
    x2 := FeSmall(1);
    z2 := FeSmall(0);
    var x3 := FeSmall(0);
    FeCopy(x3, x1);
    var z3 := FeSmall(1);
    TightIsLoose(At32(x1));
    Ladder(x1, x2, z2, x3, z3, e);
  }

  /** out := x2 / z2, canonically encoded. */
  method Finish(out: array<u8>, x2: array<u32>, z2: array<u32>)
    requires out.Length == 32 && x2.Length == 10 && z2.Length == 10 && x2 != z2
    requires Tight(At32(x2)) && Tight(At32(z2))
    modifies out, x2, z2
    ensures out[..] == Encode(Mul(old(Value32(At32(x2))), Pow(old(Value32(At32(z2))), PRIME - 2)), 32)
  {
    hide Tight, Loose32, Value32, At32, Encode, Mul, Pow;
    TightIsLoose(At32(x2));
    TightIsLoose(At32(z2));
    FeInvert(z2, z2);
    TightIsLoose(At32(z2));
    FeMul(x2, x2, z2);
    FeToBytes(out, x2);
  }

  /** out := X25519 of the secret and the point, exactly as section 5 of RFC 7748 defines it. */
  method Curve25519Generic(out: array<u8>, scalar: array<u8>, point: array<u8>)
    requires out.Length == 32 && scalar.Length == 32 && point.Length == 32
    modifies out
    ensures out[..] == X25519(old(scalar[..]), old(point[..]))
  {
    hide Tight, Value32, At32, LittleEndian, Clamp, DecodeU, Loop, Encode, Mul, Pow;
    var e := new u8[32];
    forall i | 0 <= i < 32 {
      e[i] := scalar[i];
    }
    assert e[..] == old(scalar[..]);
    Hacl64.ClampSecret(e);
    assert e[..] == Clamp(old(scalar[..])) && point[..] == old(point[..]);
    var x2, z2 := Multiply(e, point);
    Finish(out, x2, z2);
  }
}
