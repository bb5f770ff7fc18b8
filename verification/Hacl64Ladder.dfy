/** The Montgomery ladder of the 64-bit implementation: 256 steps over the scalar's bytes, each
    swapping before and after its arithmetic. */
module Hacl64Ladder {
  import opened Bits
  import opened Field
  import opened Rfc7748
  import opened Radix51
  import opened Hacl64Field

  // ----- Sums, differences and the small multiple -----

  /** Limbs that may be added: a reduced element, or 121665 times a difference. */
  predicate Summand(x: Limbs)
  {
    Below(x, 0x8000002000000)
  }

  /** a := a + b. Sums stay below 2^52 + 2^26. */
  method Fsum(a: array<u64>, b: array<u64>)
    requires a.Length == 5 && b.Length == 5
    requires Summand(At(a)) && Summand(At(b))
    modifies a
    ensures Below(At(a), 0x10000004000000) && Loose(At(a))
    ensures Value(At(a)) == Add(old(Value(At(a))), old(Value(At(b))))
  {
    hide F;
    Reduce(Eval(At(a)), Eval(At(b)));
    a[0] := a[0] + b[0];
    a[1] := a[1] + b[1];
    a[2] := a[2] + b[2];
    a[3] := a[3] + b[3];
    a[4] := a[4] + b[4];
  }

  /** a := b - a, by adding 8p first. Differences stay below 2^54 + 2^51 + 2^13. */
  method Fdifference(a: array<u64>, b: array<u64>)
    requires a.Length == 5 && b.Length == 5
    requires Reduced(At(a)) && Reduced(At(b))
    modifies a
    ensures Below(At(a), 0x48000000002000) && Loose(At(a))
    ensures Value(At(a)) == Sub(old(Value(At(b))), old(Value(At(a))))
  {
    hide F;
    ghost var x, y := At(a), At(b);
    Reduce(Eval(y), Eval(x));
    var b0, b1, b2, b3, b4 := b[0], b[1], b[2], b[3], b[4];
    var t0: u64 := b0 + 0x3fffffffffff68;
    var t1: u64 := b1 + 0x3ffffffffffff8;
    var t2: u64 := b2 + 0x3ffffffffffff8;
    var t3: u64 := b3 + 0x3ffffffffffff8;
    var t4: u64 := b4 + 0x3ffffffffffff8;
    a[0] := t0 - a[0];
    a[1] := t1 - a[1];
    a[2] := t2 - a[2];
    a[3] := t3 - a[3];
    a[4] := t4 - a[4];
    Congruent(Eval(At(a)), Eval(y) - Eval(x), 8);
  }

  lemma ScaleBound(b: Limbs, s: int)
    requires Below(b, 0x48000000002000) && 0 <= s < 0x20000
    ensures Below(ScaleWide(b, s), 1 + 0x48000000002000 * 0x20000)
  {
    MulMonotone(b.l0, 0x48000000002000, s, 0x20000);
    MulMonotone(b.l1, 0x48000000002000, s, 0x20000);
    MulMonotone(b.l2, 0x48000000002000, s, 0x20000);
    MulMonotone(b.l3, 0x48000000002000, s, 0x20000);
    MulMonotone(b.l4, 0x48000000002000, s, 0x20000);
  }

  lemma SmallCarry(t: Limbs)
    requires Below(t, 1 + 0x48000000002000 * 0x20000)
    ensures Carry(t).l4 / 0x8000000000000 < 0x1_0000_0000_0000_0000
    ensures Summand(FoldTop(Carry(t)))
  {
  }

  /** output := s * b, left with a little carry in its lowest limb. */
  method Fscalar(output: array<u64>, b: array<u64>, s: u64)
    requires output.Length == 5 && b.Length == 5
    requires Below(At(b), 0x48000000002000) && s < 0x20000
    modifies output
    ensures Summand(At(output))
    ensures Value(At(output)) == Mul(s, old(Value(At(b))))
  {
    hide F, Eval, Carry, FoldTop;
    ghost var w := ScaleWide(At(b), s);
    ScaleBound(At(b), s);
    SmallCarry(w);
    assert Accumulated(w);
    ScaleWideValue(At(b), s);
    CarryPreserves(w);
    FoldTopPreserves(Carry(w));
    var tmp := new u128[5] [b[0] as int * s as int, b[1] as int * s as int, b[2] as int * s as int,
                            b[3] as int * s as int, b[4] as int * s as int];
    CarryWide(tmp);
    FoldTopInto(tmp);
    CopyFromWide(output, tmp);
  }

  // ----- Points -----

  /** Two limb vectors, the X and Z of a projective point. */
  datatype Point = Point(x: array<u64>, z: array<u64>)
  {
    ghost predicate Shaped()
    {
      x.Length == 5 && z.Length == 5 && x != z
    }

    ghost function Parts(): set<object>
    {
      {x, z}
    }

    /** Both coordinates as multiplication leaves them. */
    ghost predicate Ready()
      requires Shaped()
      reads x, z
    {
      Reduced(At(x)) && Reduced(At(z))
    }
  }

  /** The field values of a pair of points, in the order of the ladder state. */
  ghost function State(p: Point, pq: Point): Quad
    requires p.Shaped() && pq.Shaped()
    reads p.x, p.z, pq.x, pq.z
  {
    Quad(Value(At(p.x)), Value(At(p.z)), Value(At(pq.x)), Value(At(pq.z)))
  }

  /** Exchange limb `ctr - 1` of `a` and `b` when the mask is all ones; keep it when it is zero. */
  method SwapConditionalStep(a: array<u64>, b: array<u64>, swap1: u64, ctr: nat)
    requires a.Length == 5 && b.Length == 5 && a != b && 1 <= ctr <= 5
    requires IsMask(swap1)
    modifies a, b
    ensures a[..] == old(a[..])[ctr - 1 := if swap1 == 0 then old(a[ctr - 1]) else old(b[ctr - 1])]
    ensures b[..] == old(b[..])[ctr - 1 := if swap1 == 0 then old(b[ctr - 1]) else old(a[ctr - 1])]
  {
    hide And, Xor, Pow2;
    var i := ctr - 1;
    var ai, bi := a[i], b[i];
    XorWord(ai, bi);
    var x := And(swap1, Xor(ai, bi));
    Masked(Xor(ai, bi), swap1);
    XorCancel(ai, bi);
    a[i] := Xor(ai, x);
    b[i] := Xor(bi, x);
  }

  lemma XorWord(x: u64, y: u64)
    ensures Xor(x, y) < 0x1_0000_0000_0000_0000
  {
    hide Xor, Pow2;
    Pow2Word64();
    WordBound(x, y, 64);
  }

  method SwapConditional5(a: array<u64>, b: array<u64>, swap1: u64)
    requires a.Length == 5 && b.Length == 5 && a != b
    requires IsMask(swap1)
    modifies a, b
    ensures At(a) == if swap1 == 0 then old(At(a)) else old(At(b))
    ensures At(b) == if swap1 == 0 then old(At(b)) else old(At(a))
  {
    SwapConditionalStep(a, b, swap1, 5);
    SwapConditionalStep(a, b, swap1, 4);
    SwapConditionalStep(a, b, swap1, 3);
    SwapConditionalStep(a, b, swap1, 2);
    SwapConditionalStep(a, b, swap1, 1);
  }

  method SwapConditional(a: Point, b: Point, iswap: u64)
    requires a.Shaped() && b.Shaped() && a.Parts() !! b.Parts()
    requires a.Ready() && b.Ready()
    requires iswap < 2
    modifies a.x, a.z, b.x, b.z
    ensures a.Ready() && b.Ready()
    ensures State(a, b) == CSwap(iswap, old(State(a, b)))
  {
    hide At, Reduced, Value;
    var swap1 := U64(0 - iswap as int);
    SwapConditional5(a.x, b.x, swap1);
    SwapConditional5(a.z, b.z, swap1);
  }

  // ----- One step -----

  lemma ReducedFits(x: Limbs)
    requires Reduced(x)
    ensures Loose(x) && Summand(x)
  {
  }

  /** (x, z) := (x + z, x - z). */
  method Butterfly(x: array<u64>, z: array<u64>, orig: array<u64>)
    requires x.Length == 5 && z.Length == 5 && orig.Length == 5
    requires x != z && orig != x && orig != z
    requires Reduced(At(x)) && Reduced(At(z))
    modifies x, z, orig
    ensures Loose(At(x)) && Loose(At(z))
    ensures Value(At(x)) == Add(old(Value(At(x))), old(Value(At(z))))
    ensures Value(At(z)) == Sub(old(Value(At(x))), old(Value(At(z))))
  {
    hide *;
    Copy(orig, x);
    ReducedFits(At(x));
    ReducedFits(At(z));
    Fsum(x, z);
    Fdifference(z, orig);
  }

  lemma PowTwo(v: int)
    ensures Pow(v, Pow2(1)) == Mul(v, v)
  {
    hide F, Mul;
    MulOne(v);
    assert Pow2(1) == 2 && Pow(v, 2) == Mul(v, Pow(v, 1)) && Pow(v, 1) == Mul(v, 1);
    ReduceRight(v, v);
  }

  method SquareOnce(output: array<u64>, input: array<u64>)
    requires output.Length == 5 && input.Length == 5
    requires Loose(At(input))
    modifies output
    ensures Reduced(At(output)) && Loose(At(output))
    ensures Value(At(output)) == Mul(old(Value(At(input))), old(Value(At(input))))
  {
    hide *;
    PowTwo(Value(At(input)));
    FsquareTimes(output, input, 1);
  }

  /** The doubled point from A = x + z and B = x - z. */
  method DoubleFrom(pp: Point, x: array<u64>, z: array<u64>)
    requires pp.Shaped() && x.Length == 5 && z.Length == 5
    requires Loose(At(x)) && Loose(At(z))
    requires {x, z} !! pp.Parts()
    modifies pp.x, pp.z
    ensures pp.Ready()
    ensures var aa, bb := Mul(old(Value(At(x))), old(Value(At(x)))), Mul(old(Value(At(z))), old(Value(At(z))));
            var e := Sub(aa, bb);
            Value(At(pp.x)) == Mul(aa, bb) && Value(At(pp.z)) == Mul(Add(Mul(121665, e), aa), e)
  {
    hide Reduced, Loose, Summand, Below, Value, F, Mul, Sub, Add, At;
    var xx, zz, zzz := new u64[5], new u64[5], new u64[5];
    SquareOnce(xx, x);
    SquareOnce(zz, z);
    Fmul(pp.x, xx, zz);
    Fdifference(zz, xx);
    Fscalar(zzz, zz, 121665);
    ReducedFits(At(xx));
    Fsum(zzz, xx);
    Fmul(pp.z, zzz, zz);
  }

  /** The sum of two points from CB and DA, and the x-coordinate of their difference. */
  method AddFrom(ppq: Point, xxprime: array<u64>, zzprime: array<u64>, qx: array<u64>)
    requires ppq.Shaped() && xxprime.Length == 5 && zzprime.Length == 5 && qx.Length == 5
    requires Reduced(At(xxprime)) && Reduced(At(zzprime)) && Loose(At(qx))
    requires xxprime != zzprime && {xxprime, zzprime} !! ppq.Parts() && qx !in ppq.Parts() && qx != xxprime
      && qx != zzprime
    modifies ppq.x, ppq.z, xxprime, zzprime
    ensures ppq.Ready()
    ensures var cb, da := old(Value(At(xxprime))), old(Value(At(zzprime)));
            && Value(At(ppq.x)) == Mul(Add(cb, da), Add(cb, da))
            && Value(At(ppq.z)) == Mul(Mul(Sub(cb, da), Sub(cb, da)), old(Value(At(qx))))
  {
    hide Reduced, Loose, Summand, Below, Value, F, Mul, Sub, Add, At;
    var origxprime, zzzprime := new u64[5], new u64[5];
    Butterfly(xxprime, zzprime, origxprime);
    SquareOnce(ppq.x, xxprime);
    SquareOnce(zzzprime, zzprime);
    Fmul(ppq.z, zzzprime, qx);
  }

  /** The RFC 7748 step: `pp` from doubling `p`, `ppq` from adding `p` and `pq`, whose difference has
      x-coordinate `qx`. The two inputs are used up. */
  method AddAndDouble(pp: Point, ppq: Point, p: Point, pq: Point, qx: array<u64>)
    requires pp.Shaped() && ppq.Shaped() && p.Shaped() && pq.Shaped() && qx.Length == 5
    requires pp.Parts() !! ppq.Parts() !! p.Parts() !! pq.Parts() !! {qx}
    requires p.Ready() && pq.Ready() && Loose(At(qx))
    modifies pp.x, pp.z, ppq.x, ppq.z, p.x, p.z, pq.x, pq.z
    ensures pp.Ready() && ppq.Ready()
    ensures State(pp, ppq) == Step(Value(At(qx)), old(State(p, pq)))
  {
    hide Reduced, Loose, Summand, Below, Value, F, Mul, Sub, Add, At, Step;
    ghost var x1, q := Value(At(qx)), State(p, pq);
    var orig, xxprime, zzprime := new u64[5], new u64[5], new u64[5];
    Butterfly(p.x, p.z, orig);
    Butterfly(pq.x, pq.z, orig);
    Fmul(xxprime, pq.x, p.z);
    Fmul(zzprime, p.x, pq.z);
    AddFrom(ppq, xxprime, zzprime, qx);
    DoubleFrom(pp, p.x, p.z);
    StepFromParts(x1, q);
  }

  /** The step with its operands in the order the 64-bit code multiplies them. */
  lemma StepFromParts(x1: int, q: Quad)
    ensures var a, b := Add(q.x2, q.z2), Sub(q.x2, q.z2);
            var aa, bb := Mul(a, a), Mul(b, b);
            var e := Sub(aa, bb);
            var cb, da := Mul(Add(q.x3, q.z3), b), Mul(a, Sub(q.x3, q.z3));
            Step(x1, q) == Quad(Mul(aa, bb), Mul(Add(Mul(121665, e), aa), e),
                                Mul(Add(cb, da), Add(cb, da)), Mul(Mul(Sub(cb, da), Sub(cb, da)), x1))
  {
    hide F;
    var a, b := Add(q.x2, q.z2), Sub(q.x2, q.z2);
    var aa, bb := Mul(a, a), Mul(b, b);
    var e := Sub(aa, bb);
    var c, d := Add(q.x3, q.z3), Sub(q.x3, q.z3);
    MulComm(a, d);
    MulComm(Add(Mul(121665, e), aa), e);
    SquareOfNegation(Mul(c, b), Mul(a, d));
    MulComm(Mul(Sub(Mul(c, b), Mul(a, d)), Sub(Mul(c, b), Mul(a, d))), x1);
    AddComm(Mul(121665, e), aa);
    AddComm(Mul(c, b), Mul(a, d));
  }

  // ----- The loop -----

  /** The ladder over bits t-1 down to 0 of `k`, swapping back after every step. */
  function Immediate(x1: int, k: nat, t: nat, q: Quad): Quad
  {
    if t == 0 then q else Immediate(x1, k, t - 1, SwapStep(x1, Shr(k, t - 1) % 2, q))
  }

  function SwapStep(x1: int, bit: nat, q: Quad): Quad
  {
    CSwap(bit, Step(x1, CSwap(bit, q)))
  }

  /** The top `n` bits of a byte, read by shifting it left, are bits t-1 down to t-n of `k`. */
  ghost predicate BitsMatch(byt: u8, k: nat, t: nat, n: nat)
    decreases n
  {
    n == 0 || (t > 0 && byt / 128 == Shr(k, t - 1) % 2 && BitsMatch(Double(byt), k, t - 1, n - 1))
  }

  /** `byt << 1` in a byte. */
  function Double(byt: u8): u8
  {
    byt as int * 2 % 256
  }

  function ShiftLeft(byt: u8, s: nat): u8
  {
    if s == 0 then byt else Double(ShiftLeft(byt, s - 1))
  }

  lemma TopBit(byt: u8)
    ensures byt / 128 == Shr(byt, 7) % 2
  {
    hide Shr;
    ShrIsDiv(byt, 7);
    Pow2Byte();
  }

  lemma ShiftedBit(byt: u8, j: nat)
    requires 0 < j <= 7
    ensures Shr(Double(byt), j) % 2 == Shr(byt, j - 1) % 2
  {
    var c := Double(byt);
    assert byt == c / 2 + 128 * (byt / 128);
    Pow2Byte();
    LowBit(c / 2, byt / 128, 7, j - 1);
  }

  lemma {:induction false} ShiftedBits(byt: u8, s: nat, j: nat)
    requires s <= j <= 7
    ensures Shr(ShiftLeft(byt, s), j) % 2 == Shr(byt, j - s) % 2
  {
    hide Shr;
    if s > 0 {
      ShiftedBit(ShiftLeft(byt, s - 1), j);
      ShiftedBits(byt, s - 1, j - 1);
    }
  }

  /** Byte `i` of a little-endian scalar holds its bits 8i+7 down to 8i. */
  lemma {:induction false} ByteMatches(e: seq<u8>, i: nat, s: nat)
    requires i < |e| && s <= 8
    ensures BitsMatch(ShiftLeft(e[i], s), LittleEndian(e), 8 * i + 8 - s, 8 - s)
    decreases 8 - s
  {
    if s < 8 {
      hide Shr, LittleEndian;
      TopBit(ShiftLeft(e[i], s));
      ShiftedBits(e[i], s, 7);
      BitOfBytes(e, 8 * i + 7 - s);
      assert (8 * i + 7 - s) / 8 == i && (8 * i + 7 - s) % 8 == 7 - s;
      ByteMatches(e, i, s + 1);
    }
  }

  method LoopStep(nq: Point, nqpq: Point, nq2: Point, nqpq2: Point, qx: array<u64>, byt: u8)
    requires nq.Shaped() && nqpq.Shaped() && nq2.Shaped() && nqpq2.Shaped() && qx.Length == 5
    requires nq.Parts() !! nqpq.Parts() !! nq2.Parts() !! nqpq2.Parts() !! {qx}
    requires nq.Ready() && nqpq.Ready() && Loose(At(qx))
    modifies nq.x, nq.z, nqpq.x, nqpq.z, nq2.x, nq2.z, nqpq2.x, nqpq2.z
    ensures nq2.Ready() && nqpq2.Ready()
    ensures State(nq2, nqpq2) == SwapStep(Value(At(qx)), byt / 128, old(State(nq, nqpq)))
  {
    hide Reduced, Loose, Value, At, Step, CSwap;
    var bit0: u64 := byt / 128;
    SwapConditional(nq, nqpq, bit0);
    AddAndDouble(nq2, nqpq2, nq, nqpq, qx);
    var bit: u64 := byt / 128;
    SwapConditional(nq2, nqpq2, bit);
  }

  /** Two steps, the second from the scratch points back into the first two. */
  method LoopDoubleStep(nq: Point, nqpq: Point, nq2: Point, nqpq2: Point, qx: array<u64>, byt: u8, ghost k: nat,
                        ghost t: nat)
    requires nq.Shaped() && nqpq.Shaped() && nq2.Shaped() && nqpq2.Shaped() && qx.Length == 5
    requires nq.Parts() !! nqpq.Parts() !! nq2.Parts() !! nqpq2.Parts() !! {qx}
    requires nq.Ready() && nqpq.Ready() && Loose(At(qx))
    requires BitsMatch(byt, k, t, 2)
    modifies nq.x, nq.z, nqpq.x, nqpq.z, nq2.x, nq2.z, nqpq2.x, nqpq2.z
    ensures nq.Ready() && nqpq.Ready()
    ensures Immediate(Value(At(qx)), k, t - 2, State(nq, nqpq)) == Immediate(Value(At(qx)), k, t, old(State(nq, nqpq)))
  {
    hide Reduced, Loose, Value, At, SwapStep, Shr;
    LoopStep(nq, nqpq, nq2, nqpq2, qx, byt);
    var byt1 := Double(byt);
    LoopStep(nq2, nqpq2, nq, nqpq, qx, byt1);
    assert BitsMatch(byt1, k, t - 1, 1);
  }

  lemma MatchTwo(byt: u8, k: nat, t: nat, n: nat)
    requires n >= 2 && BitsMatch(byt, k, t, n)
    ensures t >= 2 && BitsMatch(byt, k, t, 2) && BitsMatch(byt as int * 4 % 256, k, t - 2, n - 2)
  {
    hide Shr;
    assert Double(Double(byt)) == byt as int * 4 % 256;
    assert BitsMatch(Double(byt), k, t - 1, 1);
  }

  method SmallLoop(nq: Point, nqpq: Point, nq2: Point, nqpq2: Point, qx: array<u64>, byt0: u8, i0: nat,
                   ghost k: nat, ghost t0: nat)
    requires nq.Shaped() && nqpq.Shaped() && nq2.Shaped() && nqpq2.Shaped() && qx.Length == 5
    requires nq.Parts() !! nqpq.Parts() !! nq2.Parts() !! nqpq2.Parts() !! {qx}
    requires nq.Ready() && nqpq.Ready() && Loose(At(qx))
    requires 2 * i0 <= t0 && BitsMatch(byt0, k, t0, 2 * i0)
    modifies nq.x, nq.z, nqpq.x, nqpq.z, nq2.x, nq2.z, nqpq2.x, nqpq2.z
    ensures nq.Ready() && nqpq.Ready()
    ensures Immediate(Value(At(qx)), k, t0 - 2 * i0, State(nq, nqpq))
      == Immediate(Value(At(qx)), k, t0, old(State(nq, nqpq)))
  {
    hide Reduced, Loose, Value, At, Immediate, State, BitsMatch;
    var byt: u8, i := byt0, i0;
    ghost var t := t0;
    while i > 0
      invariant t == t0 - 2 * (i0 - i) && 0 <= i <= i0
      invariant nq.Ready() && nqpq.Ready()
      invariant BitsMatch(byt, k, t, 2 * i)
      invariant Immediate(Value(At(qx)), k, t, State(nq, nqpq)) == Immediate(Value(At(qx)), k, t0, old(State(nq, nqpq)))
    {
      MatchTwo(byt, k, t, 2 * i);
      i := i - 1;
      LoopDoubleStep(nq, nqpq, nq2, nqpq2, qx, byt, k, t);
      byt := byt as int * 4 % 256;
      t := t - 2;
    }
  }

  lemma NoBits(x1: int, k: nat, q: Quad)
    ensures Immediate(x1, k, 0, q) == q
  {
  }

  method BigLoop(n1: array<u8>, nq: Point, nqpq: Point, nq2: Point, nqpq2: Point, qx: array<u64>, i0: nat)
    requires nq.Shaped() && nqpq.Shaped() && nq2.Shaped() && nqpq2.Shaped() && qx.Length == 5 && i0 <= n1.Length
    requires nq.Parts() !! nqpq.Parts() !! nq2.Parts() !! nqpq2.Parts() !! {qx}
    requires nq.Ready() && nqpq.Ready() && Loose(At(qx))
    modifies nq.x, nq.z, nqpq.x, nqpq.z, nq2.x, nq2.z, nqpq2.x, nqpq2.z
    ensures nq.Ready() && nqpq.Ready()
    ensures State(nq, nqpq) == Immediate(Value(At(qx)), LittleEndian(n1[..]), 8 * i0, old(State(nq, nqpq)))
  {
    hide Reduced, Loose, Value, At, Immediate, LittleEndian, State, BitsMatch;
    ghost var k := LittleEndian(n1[..]);
    var i := i0;
    while i > 0
      invariant 0 <= i <= i0
      invariant nq.Ready() && nqpq.Ready()
      invariant Immediate(Value(At(qx)), k, 8 * i, State(nq, nqpq))
        == Immediate(Value(At(qx)), k, 8 * i0, old(State(nq, nqpq)))
    {
      i := i - 1;
      var byte := n1[i];
      ByteMatches(n1[..], i, 0);
      SmallLoop(nq, nqpq, nq2, nqpq2, qx, byte, 4, k, 8 * i + 8);
    }
    NoBits(Value(At(qx)), k, State(nq, nqpq));
  }

  /** result := the ladder over all 256 bits of the scalar, from (1 : 0) and the point q = (x : 1). */
  method LadderCmult(result: Point, n1: array<u8>, q: Point)
    requires result.Shaped() && q.Shaped() && result.Parts() !! q.Parts() && n1.Length == 32
    requires q.Ready() && Value(At(q.z)) == 1
    modifies result.x, result.z
    ensures result.Ready()
    ensures var x1 := Value(At(q.x));
            var r := Immediate(x1, LittleEndian(n1[..]), 256, Quad(1, 0, x1, 1));
            Value(At(result.x)) == r.x2 && Value(At(result.z)) == r.z2
  {
    hide Reduced, Loose, Value, At, LittleEndian, Immediate, Summand;
    var nq := PointAtInfinity();
    var nqpq := PointAtInfinity();
    var nq2 := PointAtInfinity();
    var nqpq2 := PointAtInfinity();
    Copy(nqpq.x, q.x);
    Copy(nqpq.z, q.z);
    ReducedFits(At(q.x));
    BigLoop(n1, nq, nqpq, nq2, nqpq2, q.x, 32);
    Copy(result.x, nq.x);
    Copy(result.z, nq.z);
  }

  /** A fresh point (1 : 0). */
  method PointAtInfinity() returns (p: Point)
    ensures p.Shaped() && fresh(p.x) && fresh(p.z)
    ensures p.Ready() && Value(At(p.x)) == 1 && Value(At(p.z)) == 0
  {
    hide F, Eval, Value;
    var x, z := new u64[5] [1, 0, 0, 0, 0], new u64[5] [0, 0, 0, 0, 0];
    p := Point(x, z);
    assert At(p.x) == Limbs(1, 0, 0, 0, 0) && At(p.z) == Limbs(0, 0, 0, 0, 0);
    OneAndZero();
  }

  lemma OneAndZero()
    ensures Value(Limbs(1, 0, 0, 0, 0)) == 1 && Value(Limbs(0, 0, 0, 0, 0)) == 0
  {
  }
}
