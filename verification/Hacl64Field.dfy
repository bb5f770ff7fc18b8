/** Field arithmetic on five 51-bit limbs with 128-bit accumulators.

    A `u64 *` that points at five limbs is an `array<u64>` of length 5, so two slices of one C
    buffer are two arrays, and an output may alias an input wherever the C code lets it. Every
    assignment to a word-typed location carries the proof that the value fits the word: no addition,
    product or cast below wraps or truncates. */
module Hacl64Field {
  import opened Bits
  import opened Field
  import opened Radix51
  import opened Inversion

  /** What multiplication leaves behind: 51-bit limbs, the second with up to 13 bits of carry. */
  predicate Reduced(x: Limbs)
  {
    && Below(x, 0x8000000002000)
    && x.l0 < 0x8000000000000 && x.l2 < 0x8000000000000 && x.l3 < 0x8000000000000 && x.l4 < 0x8000000000000
  }

  /** What multiplication accepts: limbs below 2^54 + 2^51 + 2^14. */
  predicate Loose(x: Limbs)
  {
    Below(x, 0x48000000004000)
  }

  function At(a: array<u64>): Limbs
    requires a.Length == 5
    reads a
  {
    Limbs(a[0], a[1], a[2], a[3], a[4])
  }

  function WideAt(a: array<u128>): Limbs
    requires a.Length == 5
    reads a
  {
    Limbs(a[0], a[1], a[2], a[3], a[4])
  }

  // ----- Bounds -----

  /** Wide limbs that `ReduceWide` brings back to words without losing a bit: each column at most
      77 products, the top one at most 5. */
  predicate Accumulated(t: Limbs)
  {
    && 0 <= t.l0 < 77 * 0x144000000024000000001000_0000
    && 0 <= t.l1 < 77 * 0x144000000024000000001000_0000
    && 0 <= t.l2 < 77 * 0x144000000024000000001000_0000
    && 0 <= t.l3 < 77 * 0x144000000024000000001000_0000
    && 0 <= t.l4 < 5 * 0x144000000024000000001000_0000
  }

  lemma MulWideBound(a: Limbs, b: Limbs)
    requires Loose(a) && Loose(b)
    ensures Accumulated(MulWide(a, b))
  {
    hide MulWide;
    MulWideBelow(a, b, 0x48000000003fff, 0x48000000003fff, 0x48000000003fff * 0x48000000003fff);
  }

  /** The three places where `fmul` narrows: the cast of `b4 >> 51`, the copy from wide of limb 0,
      and the limbs it returns. */
  lemma ReduceBound(t: Limbs)
    requires Accumulated(t)
    ensures Carry(t).l4 / 0x8000000000000 < 0x1_0000_0000_0000_0000
    ensures Below(FoldTop(Carry(t)), 0x1_0000_0000_0000_0000)
    ensures Reduced(ReduceWide(t))
  {
    var t1 := t.l1 + t.l0 / 0x8000000000000;
    var t2 := t.l2 + t1 / 0x8000000000000;
    var t3 := t.l3 + t2 / 0x8000000000000;
    assert t3 / 0x8000000000000 < 78 * 0x288000000048000;
  }

  /** Multiplication: reduced limbs that stand for the product. */
  lemma MulCorrect(a: Limbs, b: Limbs)
    requires Loose(a) && Loose(b)
    ensures Reduced(ReduceWide(MulWide(a, b)))
    ensures Value(ReduceWide(MulWide(a, b))) == Mul(Value(a), Value(b))
  {
    hide *;
    MulWideBound(a, b);
    ReduceBound(MulWide(a, b));
    ReducePreserves(MulWide(a, b));
    MulWideValue(a, b);
  }

  // ----- The operations, in place -----

  lemma Mask51(x: nat)
    ensures And(x, 0x7ffffffffffff) == x % 0x8000000000000
  {
    AndLowMask(x, 51);
    Pow2Limb51();
  }

  /** Casting to 64 bits before masking loses nothing the mask keeps. */
  lemma CastThenMask51(x: nat)
    ensures And(U64(x), 0x7ffffffffffff) == x % 0x8000000000000
  {
    hide And;
    Mask51(U64(x));
    var k := x / 0x1_0000_0000_0000_0000 * 0x2000;
    assert x == U64(x) + k * 0x8000000000000;
  }

  lemma RowFits(t: Limbs, a: Limbs, s: int, n: nat)
    requires Below(t, 1 + n * (19 * 0x144000000024000000001000_0000))
    requires Below(a, 19 * 0x48000000004000) && 0 <= s < 0x48000000004000
    ensures Below(Row(t, a, s), 1 + (n + 1) * (19 * 0x144000000024000000001000_0000))
  {
    MulMonotone(a.l0, 19 * 0x48000000004000, s, 0x48000000004000);
    MulMonotone(a.l1, 19 * 0x48000000004000, s, 0x48000000004000);
    MulMonotone(a.l2, 19 * 0x48000000004000, s, 0x48000000004000);
    MulMonotone(a.l3, 19 * 0x48000000004000, s, 0x48000000004000);
    MulMonotone(a.l4, 19 * 0x48000000004000, s, 0x48000000004000);
  }

  method SumScalarMultiplication(output: array<u128>, input: array<u64>, s: u64)
    requires output.Length == 5 && input.Length == 5
    requires Below(Row(WideAt(output), At(input), s), 0x1_0000_0000_0000_0000_0000_0000_0000_0000)
    modifies output
    ensures WideAt(output) == Row(old(WideAt(output)), At(input), s)
  {
    output[0] := output[0] as int + input[0] as int * s as int;
    output[1] := output[1] as int + input[1] as int * s as int;
    output[2] := output[2] as int + input[2] as int * s as int;
    output[3] := output[3] as int + input[3] as int * s as int;
    output[4] := output[4] as int + input[4] as int * s as int;
  }

  method ShiftReduce(output: array<u64>)
    requires output.Length == 5
    requires 19 * At(output).l4 < 0x1_0000_0000_0000_0000
    modifies output
    ensures At(output) == Shift(old(At(output)))
  {
    var tmp := output[4];
    output[4] := output[3];
    output[3] := output[2];
    output[2] := output[1];
    output[1] := output[0];
    output[0] := 19 * tmp;
  }

  /** Keep the low 51 bits of one wide limb and carry the rest into the next. */
  method CarryStep(tmp: array<u128>, ctr: nat)
    requires tmp.Length == 5 && ctr < 4
    requires tmp[ctr + 1] as int + tmp[ctr] as int / 0x8000000000000 < 0x1_0000_0000_0000_0000_0000_0000_0000_0000
    modifies tmp
    ensures tmp[..] == old(tmp[..])[ctr := old(tmp[ctr]) % 0x8000000000000]
                       [ctr + 1 := old(tmp[ctr + 1]) as int + old(tmp[ctr]) as int / 0x8000000000000]
  {
    CastThenMask51(tmp[ctr]);
    var r0 := And(U64(tmp[ctr]), 0x7ffffffffffff);
    var c := tmp[ctr] / 0x8000000000000;
    tmp[ctr] := r0;
    tmp[ctr + 1] := tmp[ctr + 1] + c;
  }

  method CarryWide(tmp: array<u128>)
    requires tmp.Length == 5
    requires Accumulated(WideAt(tmp))
    modifies tmp
    ensures WideAt(tmp) == Carry(old(WideAt(tmp)))
  {
    CarryStep(tmp, 0);
    CarryStep(tmp, 1);
    CarryStep(tmp, 2);
    CarryStep(tmp, 3);
  }

  /** Five rows, the multiplicand moving up one limb between them. */
  method MulShiftReduce(output: array<u128>, input: array<u64>, input21: array<u64>)
    requires output.Length == 5 && input.Length == 5 && input21.Length == 5
    requires input != input21
    requires WideAt(output) == Limbs(0, 0, 0, 0, 0)
    requires Loose(At(input)) && Loose(At(input21))
    modifies output, input
    ensures WideAt(output) == MulWide(old(At(input)), At(input21))
  {
    hide MulWide, Times;
    ProductByRows(At(input), At(input21));
    RowFits(WideAt(output), At(input), input21[0], 0);
    SumScalarMultiplication(output, input, input21[0]);
    ShiftReduce(input);
    RowFits(WideAt(output), At(input), input21[1], 1);
    SumScalarMultiplication(output, input, input21[1]);
    ShiftReduce(input);
    RowFits(WideAt(output), At(input), input21[2], 2);
    SumScalarMultiplication(output, input, input21[2]);
    ShiftReduce(input);
    RowFits(WideAt(output), At(input), input21[3], 3);
    SumScalarMultiplication(output, input, input21[3]);
    ShiftReduce(input);
    RowFits(WideAt(output), At(input), input21[4], 4);
    SumScalarMultiplication(output, input, input21[4]);
  }

  method CopyFromWide(output: array<u64>, input: array<u128>)
    requires output.Length == 5 && input.Length == 5
    requires Below(WideAt(input), 0x1_0000_0000_0000_0000)
    modifies output
    ensures At(output) == WideAt(input)
  {
    output[0] := input[0];
    output[1] := input[1];
    output[2] := input[2];
    output[3] := input[3];
    output[4] := input[4];
  }

  /** The tail shared by multiplication and squaring: carry, fold the top, narrow, carry once more. */
  method ReduceInto(output: array<u64>, t: array<u128>)
    requires output.Length == 5 && t.Length == 5
    requires Accumulated(WideAt(t))
    modifies output, t
    ensures At(output) == ReduceWide(old(WideAt(t)))
  {
    hide Carry, FoldTop, Accumulated, And;
    ReduceBound(WideAt(t));
    CarryWide(t);
    FoldTopInto(t);
    CopyFromWide(output, t);
    Mask51(output[0]);
    var i0, i1 := output[0], output[1];
    output[0] := And(i0, 0x7ffffffffffff);
    output[1] := i1 + i0 / 0x8000000000000;
  }

  method FoldTopInto(t: array<u128>)
    requires t.Length == 5
    requires WideAt(t).l4 / 0x8000000000000 < 0x1_0000_0000_0000_0000
    requires FoldTop(WideAt(t)).l0 < 0x1_0000_0000_0000_0000
    modifies t
    ensures WideAt(t) == FoldTop(old(WideAt(t)))
  {
    Mask51(t[4]);
    var b4, b0 := t[4], t[0];
    var high: u64 := b4 / 0x8000000000000;
    t[4] := And(b4, 0x7ffffffffffff);
    t[0] := b0 + 19 * high as u128;
  }

  /** output := input * input21; the output may be either input. */
  method Fmul(output: array<u64>, input: array<u64>, input21: array<u64>)
    requires output.Length == 5 && input.Length == 5 && input21.Length == 5
    requires Loose(At(input)) && Loose(At(input21))
    modifies output
    ensures At(output) == ReduceWide(MulWide(old(At(input)), old(At(input21))))
    ensures Reduced(At(output)) && Loose(At(output))
    ensures Value(At(output)) == Mul(old(Value(At(input))), old(Value(At(input21))))
  {
    MulWideBound(At(input), At(input21));
    MulCorrect(At(input), At(input21));
    var tmp := new u64[5] [input[0], input[1], input[2], input[3], input[4]];
    var t := new u128[5] [0, 0, 0, 0, 0];
    MulShiftReduce(t, tmp, input21);
    ReduceInto(output, t);
  }

  // ----- Squaring -----

  /** The five columns of a square, with their repeated products merged as the C code merges them. */
  lemma SquareColumns(r: Limbs)
    ensures MulWide(r, r) == Limbs(r.l0 * r.l0 + (r.l4 * 19 * 2) * r.l1 + (r.l2 * 2 * 19) * r.l3,
                                   (r.l0 * 2) * r.l1 + (r.l4 * 19 * 2) * r.l2 + (r.l3 * 19) * r.l3,
                                   (r.l0 * 2) * r.l2 + r.l1 * r.l1 + (r.l4 * 19 * 2) * r.l3,
                                   (r.l0 * 2) * r.l3 + (r.l1 * 2) * r.l2 + r.l4 * (r.l4 * 19),
                                   (r.l0 * 2) * r.l4 + (r.l1 * 2) * r.l3 + r.l2 * r.l2)
  {
    Pair(r.l0, r.l1); Pair(r.l0, r.l2); Pair(r.l0, r.l3); Pair(r.l0, r.l4);
    Pair(r.l1, r.l2); Pair(r.l1, r.l3); Pair(r.l1, r.l4); Pair(r.l2, r.l3);
    Pair(r.l2, r.l4); Pair(r.l3, r.l4); Pair(r.l3, r.l3); Pair(r.l4, r.l4);
  }

  lemma Pair(x: int, y: int)
    ensures x * y == y * x && (x * 2) * y == 2 * (x * y) && (y * 19 * 2) * x == 38 * (x * y)
      && (x * 2 * 19) * y == 38 * (x * y)
    ensures (19 * x) * y == 19 * (x * y) && (19 * y) * x == 19 * (x * y) && (x * 19) * y == 19 * (x * y)
      && x * (y * 19) == 19 * (x * y)
  {
  }

  method SquareInto(tmp: array<u128>, output: array<u64>)
    requires tmp.Length == 5 && output.Length == 5
    requires Loose(At(output))
    modifies tmp
    ensures WideAt(tmp) == MulWide(At(output), At(output))
  {
    MulWideBound(At(output), At(output));
    SquareColumns(At(output));
    var r0, r1, r2, r3, r4 := output[0], output[1], output[2], output[3], output[4];
    var d0: u64 := r0 * 2;
    var d1: u64 := r1 * 2;
    var d2: u64 := r2 * 2 * 19;
    var d419: u64 := r4 * 19;
    var d4: u64 := d419 * 2;
    var r319: u64 := r3 * 19;
    tmp[0] := r0 as int * r0 as int + d4 as int * r1 as int + d2 as int * r3 as int;
    tmp[1] := d0 as int * r1 as int + d4 as int * r2 as int + r319 as int * r3 as int;
    tmp[2] := d0 as int * r2 as int + r1 as int * r1 as int + d4 as int * r3 as int;
    tmp[3] := d0 as int * r3 as int + d1 as int * r2 as int + r4 as int * d419 as int;
    tmp[4] := d0 as int * r4 as int + d1 as int * r3 as int + r2 as int * r2 as int;
  }

  /** One squaring in place. Limb for limb it leaves what `Fmul(output, output, output)` leaves. */
  method Fsquare(tmp: array<u128>, output: array<u64>)
    requires tmp.Length == 5 && output.Length == 5
    requires Loose(At(output))
    modifies tmp, output
    ensures At(output) == ReduceWide(MulWide(old(At(output)), old(At(output))))
    ensures Reduced(At(output)) && Loose(At(output))
    ensures Value(At(output)) == Mul(old(Value(At(output))), old(Value(At(output))))
  {
    MulWideBound(At(output), At(output));
    MulCorrect(At(output), At(output));
    SquareInto(tmp, output);
    ReduceInto(output, tmp);
  }

  /** `count1` squarings in place, and never fewer than one. */
  method FsquareTimesInplace(output: array<u64>, count1: nat)
    requires output.Length == 5
    requires Loose(At(output))
    modifies output
    ensures Reduced(At(output)) && Loose(At(output))
    ensures Value(At(output)) == Pow(old(Value(At(output))), Pow2(if count1 == 0 then 1 else count1))
  {
    hide MulWide, ReduceWide;
    var tmp := new u128[5] [0, 0, 0, 0, 0];
    ghost var v := Value(At(output));
    Fsquare(tmp, output);
    PowSquare(v, v, 0);
    var i := 1;
    while i < count1
      invariant 1 <= i && (i <= count1 || i == 1)
      invariant fresh(tmp)
      invariant Reduced(At(output))
      invariant Value(At(output)) == Pow(v, Pow2(i))
    {
      PowSquare(v, Value(At(output)), i);
      Fsquare(tmp, output);
      i := i + 1;
    }
  }

  method FsquareTimes(output: array<u64>, input: array<u64>, count1: nat)
    requires output.Length == 5 && input.Length == 5
    requires Loose(At(input))
    modifies output
    ensures Reduced(At(output)) && Loose(At(output))
    ensures Value(At(output)) == Pow(old(Value(At(input))), Pow2(if count1 == 0 then 1 else count1))
  {
    Copy(output, input);
    FsquareTimesInplace(output, count1);
  }

  method Copy(output: array<u64>, input: array<u64>)
    requires output.Length == 5 && input.Length == 5
    modifies output
    ensures At(output) == old(At(input))
  {
    var a, b, c, d, e := input[0], input[1], input[2], input[3], input[4];
    output[0], output[1], output[2], output[3], output[4] := a, b, c, d, e;
  }

  // ----- Inversion -----

  /** `a` holds v^e. */
  ghost predicate Holds(a: array<u64>, v: int, e: nat)
    requires a.Length == 5
    reads a
  {
    Loose(At(a)) && Value(At(a)) == Pow(v, e)
  }

  /** `Fmul`, with the exponents of the chain. */
  method MulPowers(output: array<u64>, x: array<u64>, y: array<u64>, ghost v: int, ghost m: nat, ghost n: nat)
    requires output.Length == 5 && x.Length == 5 && y.Length == 5
    requires Holds(x, v, m) && Holds(y, v, n)
    modifies output
    ensures Reduced(At(output)) && Holds(output, v, m + n)
  {
    hide F, MulWide, ReduceWide, Eval;
    PowAdd(v, m, n);
    Fmul(output, x, y);
  }

  /** `FsquareTimes`, with the exponents of the chain. */
  method SquarePowers(output: array<u64>, x: array<u64>, count1: nat, ghost v: int, ghost m: nat, ghost e: nat)
    requires output.Length == 5 && x.Length == 5 && count1 > 0
    requires Holds(x, v, m) && e == m * Pow2(count1)
    modifies output
    ensures Holds(output, v, e)
  {
    hide F, MulWide, ReduceWide, Eval;
    PowMul(v, m, Pow2(count1));
    FsquareTimes(output, x, count1);
  }

  /** The chain up to z^(2^5 - 1), and z^11 kept in `a` for its last step. */
  method CrecipLow(a: array<u64>, t0: array<u64>, b: array<u64>, z: array<u64>, ghost v: int)
    requires a.Length == 5 && t0.Length == 5 && b.Length == 5 && z.Length == 5
    requires a != t0 && a != b && t0 != b && z != a && z != t0 && z != b
    requires Holds(z, v, 1)
    modifies a, t0, b
    ensures Holds(a, v, 11) && Holds(b, v, 0x1f) && Holds(t0, v, 0x3e0)
  {
    hide *;
    SquaringCounts(1); SquaringCounts(2); SquaringCounts(5);
    SquarePowers(a, z, 1, v, 1, 2);
    SquarePowers(t0, a, 2, v, 2, 8);
    MulPowers(b, t0, z, v, 8, 1);
    MulPowers(a, b, a, v, 9, 2);
    SquarePowers(t0, a, 1, v, 11, 22);
    MulPowers(b, t0, b, v, 22, 9);
    SquarePowers(t0, b, 5, v, 0x1f, 0x3e0);
  }

  /** From z^(2^5 - 1) to z^(2^50 - 1). */
  method CrecipMid(t0: array<u64>, b: array<u64>, c: array<u64>, ghost v: int)
    requires t0.Length == 5 && b.Length == 5 && c.Length == 5
    requires t0 != b && t0 != c && b != c
    requires Holds(b, v, 0x1f) && Holds(t0, v, 0x3e0)
    modifies t0, b, c
    ensures Holds(b, v, 0x3ffffffffffff) && Holds(t0, v, 0xffffffffffffc000000000000)
  {
    hide *;
    SquaringCounts(10); SquaringCounts(20); SquaringCounts(50);
    MulPowers(b, t0, b, v, 0x3e0, 0x1f);
    SquarePowers(t0, b, 10, v, 0x3ff, 0xffc00);
    MulPowers(c, t0, b, v, 0xffc00, 0x3ff);
    SquarePowers(t0, c, 20, v, 0xfffff, 0xfffff00000);
    MulPowers(t0, t0, c, v, 0xfffff00000, 0xfffff);
    SquarePowers(t0, t0, 10, v, 0xffffffffff, 0x3fffffffffc00);
    MulPowers(b, t0, b, v, 0x3fffffffffc00, 0x3ff);
    SquarePowers(t0, b, 50, v, 0x3ffffffffffff, 0xffffffffffffc000000000000);
  }

  /** From z^(2^50 - 1) to z^(2^255 - 21), which is z^(p-2). */
  method CrecipHigh(out: array<u64>, a: array<u64>, t0: array<u64>, b: array<u64>, c: array<u64>, ghost v: int)
    requires out.Length == 5 && a.Length == 5 && t0.Length == 5 && b.Length == 5 && c.Length == 5
    requires a != t0 && a != c && t0 != b && t0 != c && b != c
    requires Holds(a, v, 11) && Holds(b, v, 0x3ffffffffffff) && Holds(t0, v, 0xffffffffffffc000000000000)
    modifies out, t0, c
    ensures Reduced(At(out))
    ensures Value(At(out)) == Pow(v, PRIME - 2)
  {
    hide *;
    SquaringCounts(100); SquaringCounts(50); SquaringCounts(5);
    MulPowers(c, t0, b, v, 0xffffffffffffc000000000000, 0x3ffffffffffff);
    SquarePowers(t0, c, 100, v, 0xfffffffffffffffffffffffff, 0xfffffffffffffffffffffffff0000000000000000000000000);
    MulPowers(t0, t0, c, v, 0xfffffffffffffffffffffffff0000000000000000000000000, 0xfffffffffffffffffffffffff);
    SquarePowers(t0, t0, 50, v, 0xffffffffffffffffffffffffffffffffffffffffffffffffff,
                 0x3fffffffffffffffffffffffffffffffffffffffffffffffffc000000000000);
    MulPowers(t0, t0, b, v, 0x3fffffffffffffffffffffffffffffffffffffffffffffffffc000000000000, 0x3ffffffffffff);
    SquarePowers(t0, t0, 5, v, 0x3ffffffffffffffffffffffffffffffffffffffffffffffffffffffffffffff,
                 0x7fffffffffffffffffffffffffffffffffffffffffffffffffffffffffffffe0);
    MulPowers(out, t0, a, v, 0x7fffffffffffffffffffffffffffffffffffffffffffffffffffffffffffffe0, 11);
    ChainEnd(out, v);
  }

  /** out := z^(p-2), through 254 squarings and 11 products on four reused buffers. */
  method Crecip(out: array<u64>, z: array<u64>)
    requires out.Length == 5 && z.Length == 5
    requires Loose(At(z))
    modifies out
    ensures Reduced(At(out))
    ensures Value(At(out)) == Pow(old(Value(At(z))), PRIME - 2)
  {
    hide *;
    ghost var v := Value(At(z));
    ChainStart(z);
    var a, t0, b, c := new u64[5], new u64[5], new u64[5], new u64[5];
    CrecipLow(a, t0, b, z, v);
    CrecipMid(t0, b, c, v);
    CrecipHigh(out, a, t0, b, c, v);
  }

  lemma ChainStart(z: array<u64>)
    requires z.Length == 5 && Loose(At(z))
    ensures Holds(z, Value(At(z)), 1)
  {
    hide F, Eval;
    var v := Value(At(z));
    Idempotent(Eval(At(z)));
    assert Pow(v, 0) == 1 && v * 1 == v;
    assert Pow(v, 1) == Mul(v, 1);
  }

  lemma ChainEnd(out: array<u64>, v: int)
    requires out.Length == 5
    requires Holds(out, v, 0x7fffffffffffffffffffffffffffffffffffffffffffffffffffffffffffffe0 + 11)
    ensures Value(At(out)) == Pow(v, PRIME - 2)
  {
    hide F, Eval, Pow;
    assert PRIME - 2 == 0x7fffffffffffffffffffffffffffffffffffffffffffffffffffffffffffffe0 + 11;
  }
}
