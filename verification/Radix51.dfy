/** Integers in radix 2^51 and their products modulo 2^255 - 19, as exact integer functions. The
    64-bit code works on such limbs directly; the even and the odd limbs of the 32-bit code are two
    vectors of this kind. */
module Radix51 {
  import opened Field

  datatype Limbs = Limbs(l0: int, l1: int, l2: int, l3: int, l4: int)

  /** The integer a limb vector stands for, in radix 2^51. */
  function Eval(x: Limbs): int
  {
    x.l0 + 0x8000000000000 * x.l1 + 0x40000000000000000000000000 * x.l2
    + 0x200000000000000000000000000000000000000 * x.l3
    + 0x1000000000000000000000000000000000000000000000000000 * x.l4
  }

  function Value(x: Limbs): int { F(Eval(x)) }

  /** Every limb in [0, bound). */
  predicate Below(x: Limbs, bound: int)
  {
    0 <= x.l0 < bound && 0 <= x.l1 < bound && 0 <= x.l2 < bound && 0 <= x.l3 < bound && 0 <= x.l4 < bound
  }

  // ----- Products and carries, as exact integer functions -----

  /** A product of two limbs, by name: sums of products are compared term by term. */
  function Times(x: int, y: int): int
  {
    x * y
  }

  /** The schoolbook product with 2^255 folded to 19. */
  function MulWide(a: Limbs, b: Limbs): Limbs
  {
    Limbs(Times(a.l0, b.l0) + 19 * Times(a.l4, b.l1) + 19 * Times(a.l3, b.l2) + 19 * Times(a.l2, b.l3)
          + 19 * Times(a.l1, b.l4),
          Times(a.l1, b.l0) + Times(a.l0, b.l1) + 19 * Times(a.l4, b.l2) + 19 * Times(a.l3, b.l3)
            + 19 * Times(a.l2, b.l4),
          Times(a.l2, b.l0) + Times(a.l1, b.l1) + Times(a.l0, b.l2) + 19 * Times(a.l4, b.l3) + 19 * Times(a.l3, b.l4),
          Times(a.l3, b.l0) + Times(a.l2, b.l1) + Times(a.l1, b.l2) + Times(a.l0, b.l3) + 19 * Times(a.l4, b.l4),
          Times(a.l4, b.l0) + Times(a.l3, b.l1) + Times(a.l2, b.l2) + Times(a.l1, b.l3) + Times(a.l0, b.l4))
  }

  /** One row of a product. */
  function Row(t: Limbs, a: Limbs, s: int): Limbs
  {
    Limbs(t.l0 + Times(a.l0, s), t.l1 + Times(a.l1, s), t.l2 + Times(a.l2, s), t.l3 + Times(a.l3, s),
          t.l4 + Times(a.l4, s))
  }

  /** Multiplication by 2^51, with 2^255 folded to 19. */
  function Shift(a: Limbs): Limbs
  {
    Limbs(19 * a.l4, a.l0, a.l1, a.l2, a.l3)
  }

  function ScaleWide(a: Limbs, s: int): Limbs
  {
    Limbs(a.l0 * s, a.l1 * s, a.l2 * s, a.l3 * s, a.l4 * s)
  }

  /** Carry limbs 0 to 3 upwards. */
  function Carry(t: Limbs): Limbs
  {
    var t1 := t.l1 + t.l0 / 0x8000000000000;
    var t2 := t.l2 + t1 / 0x8000000000000;
    var t3 := t.l3 + t2 / 0x8000000000000;
    var t4 := t.l4 + t3 / 0x8000000000000;
    Limbs(t.l0 % 0x8000000000000, t1 % 0x8000000000000, t2 % 0x8000000000000, t3 % 0x8000000000000, t4)
  }

  /** Fold the carry out of limb 4 into limb 0, times 19. */
  function FoldTop(t: Limbs): Limbs
  {
    Limbs(t.l0 + 19 * (t.l4 / 0x8000000000000), t.l1, t.l2, t.l3, t.l4 % 0x8000000000000)
  }

  function CarryLow(t: Limbs): Limbs
  {
    Limbs(t.l0 % 0x8000000000000, t.l1 + t.l0 / 0x8000000000000, t.l2, t.l3, t.l4)
  }

  function ReduceWide(t: Limbs): Limbs
  {
    CarryLow(FoldTop(Carry(t)))
  }

  // ----- What they preserve -----

  lemma CarryPreserves(t: Limbs)
    ensures Eval(Carry(t)) == Eval(t)
  {
  }

  lemma FoldTopPreserves(t: Limbs)
    ensures Value(FoldTop(t)) == Value(t)
  {
    hide F;
    Congruent(Eval(t), Eval(FoldTop(t)), t.l4 / 0x8000000000000);
  }

  lemma ReducePreserves(t: Limbs)
    ensures Value(ReduceWide(t)) == Value(t)
  {
    hide F;
    CarryPreserves(t);
    FoldTopPreserves(Carry(t));
    assert Eval(CarryLow(FoldTop(Carry(t)))) == Eval(FoldTop(Carry(t)));
  }

  lemma Expand(x: int, b: Limbs)
    ensures x * Eval(b) == x * b.l0 + 0x8000000000000 * (x * b.l1) + 0x40000000000000000000000000 * (x * b.l2)
                           + 0x200000000000000000000000000000000000000 * (x * b.l3)
                           + 0x1000000000000000000000000000000000000000000000000000 * (x * b.l4)
  {
  }

  lemma RowEval(t: Limbs, a: Limbs, s: int)
    ensures Eval(Row(t, a, s)) == Eval(t) + s * Eval(a)
  {
    Expand(s, a);
  }

  lemma ShiftEval(a: Limbs)
    ensures Eval(Shift(a)) == 0x8000000000000 * Eval(a)
      - a.l4 * 0x7fffffffffffffffffffffffffffffffffffffffffffffffffffffffffffffed
  {
  }

  lemma RowShift(s: int, c: int, e: int, k: int, m: int)
    ensures s * (c * e - k * m) == c * (e * s) - (s * k) * m
  {
    assert s * (c * e - k * m) == s * (c * e) - s * (k * m);
    assert s * (c * e) == c * (e * s);
    assert s * (k * m) == (s * k) * m;
  }

  /** Four shifts, each a multiplication by 2^51 less a multiple of p. */
  lemma ShiftTower(a: Limbs) returns (k1: int, k2: int, k3: int, k4: int)
    ensures var m := 0x7fffffffffffffffffffffffffffffffffffffffffffffffffffffffffffffed;
            && Eval(Shift(a)) == 0x8000000000000 * Eval(a) - k1 * m
            && Eval(Shift(Shift(a))) == 0x40000000000000000000000000 * Eval(a) - k2 * m
            && Eval(Shift(Shift(Shift(a)))) == 0x200000000000000000000000000000000000000 * Eval(a) - k3 * m
            && Eval(Shift(Shift(Shift(Shift(a)))))
              == 0x1000000000000000000000000000000000000000000000000000 * Eval(a) - k4 * m
  {
    hide Eval, Shift;
    var a1 := Shift(a);
    var a2 := Shift(a1);
    var a3 := Shift(a2);
    ShiftEval(a);
    ShiftEval(a1);
    ShiftEval(a2);
    ShiftEval(a3);
    k1 := a.l4;
    k2 := 0x8000000000000 * k1 + a1.l4;
    k3 := 0x8000000000000 * k2 + a2.l4;
    k4 := 0x8000000000000 * k3 + a3.l4;
  }

  lemma ProductByRows(a: Limbs, b: Limbs)
    ensures Rows(a, Shift(a), Shift(Shift(a)), Shift(Shift(Shift(a))), Shift(Shift(Shift(Shift(a)))), b)
      == MulWide(a, b)
  {
    hide Times;
    Nineteen(a.l4, b);
    Nineteen(a.l3, b);
    Nineteen(a.l2, b);
    Nineteen(a.l1, b);
  }

  lemma Nineteen(x: int, b: Limbs)
    ensures Times(19 * x, b.l1) == 19 * Times(x, b.l1) && Times(19 * x, b.l2) == 19 * Times(x, b.l2)
    ensures Times(19 * x, b.l3) == 19 * Times(x, b.l3) && Times(19 * x, b.l4) == 19 * Times(x, b.l4)
  {
  }

  /** The wide product is the product, less a multiple of p. */
  lemma MulWideEval(a: Limbs, b: Limbs) returns (k: int)
    ensures Eval(a) * Eval(b)
      == Eval(MulWide(a, b)) + k * 0x7fffffffffffffffffffffffffffffffffffffffffffffffffffffffffffffed
  {
    hide *;
    var m, e := 0x7fffffffffffffffffffffffffffffffffffffffffffffffffffffffffffffed, Eval(a);
    var k1, k2, k3, k4 := ShiftTower(a);
    ProductByRows(a, b);
    RowsEval(a, Shift(a), Shift(Shift(a)), Shift(Shift(Shift(a))), Shift(Shift(Shift(Shift(a)))), b);
    Expand(e, b);
    RowShift(b.l1, 0x8000000000000, e, k1, m);
    RowShift(b.l2, 0x40000000000000000000000000, e, k2, m);
    RowShift(b.l3, 0x200000000000000000000000000000000000000, e, k3, m);
    RowShift(b.l4, 0x1000000000000000000000000000000000000000000000000000, e, k4, m);
    k := b.l1 * k1 + b.l2 * k2 + b.l3 * k3 + b.l4 * k4;
  }

  lemma MulWideValue(a: Limbs, b: Limbs)
    ensures Value(MulWide(a, b)) == Mul(Value(a), Value(b))
  {
    hide F, Mul, Eval, MulWide;
    var k := MulWideEval(a, b);
    Congruent(Eval(a) * Eval(b), Eval(MulWide(a, b)), k);
    Reduce(Eval(a), Eval(b));
    Product(Eval(a), Eval(b));
  }

  function Rows(a: Limbs, a1: Limbs, a2: Limbs, a3: Limbs, a4: Limbs, b: Limbs): Limbs
  {
    Row(Row(Row(Row(Row(Limbs(0, 0, 0, 0, 0), a, b.l0), a1, b.l1), a2, b.l2), a3, b.l3), a4, b.l4)
  }

  lemma ZeroEval()
    ensures Eval(Limbs(0, 0, 0, 0, 0)) == 0
  {
  }

  lemma RowsEval(a: Limbs, a1: Limbs, a2: Limbs, a3: Limbs, a4: Limbs, b: Limbs)
    ensures Eval(Rows(a, a1, a2, a3, a4, b))
         == Eval(a) * b.l0 + b.l1 * Eval(a1) + b.l2 * Eval(a2) + b.l3 * Eval(a3) + b.l4 * Eval(a4)
  {
    hide Eval, Row;
    var t0 := Row(Limbs(0, 0, 0, 0, 0), a, b.l0);
    var t1 := Row(t0, a1, b.l1);
    var t2 := Row(t1, a2, b.l2);
    var t3 := Row(t2, a3, b.l3);
    ZeroEval();
    RowEval(Limbs(0, 0, 0, 0, 0), a, b.l0);
    RowEval(t0, a1, b.l1);
    RowEval(t1, a2, b.l2);
    RowEval(t2, a3, b.l3);
    RowEval(t3, a4, b.l4);
  }

  lemma ScaleWideEval(a: Limbs, s: int)
    ensures Eval(ScaleWide(a, s)) == s * Eval(a)
  {
    Expand(s, a);
  }

  lemma ScaleWideValue(a: Limbs, s: int)
    ensures Value(ScaleWide(a, s)) == Mul(s, Value(a))
  {
    hide F, Mul, ScaleWide;
    assert Eval(ScaleWide(a, s)) == s * Eval(a) by { ScaleWideEval(a, s); }
    ReduceRight(s, Eval(a));
    Product(s, Eval(a));
  }

  // ----- Order -----

  lemma MulMonotone(x: int, a: int, y: int, b: int)
    requires 0 <= x <= a && 0 <= y <= b
    ensures 0 <= x * y <= a * b
  {
    assert x * y <= a * y;
    assert a * y <= a * b;
  }

  /** Columns of a product of bounded limbs: at most 77 limb products in each, 5 in the last. */
  lemma MulWideBelow(a: Limbs, b: Limbs, m: int, n: int, w: int)
    requires 0 <= m && 0 <= n && w == m * n && Below(a, m + 1) && Below(b, n + 1)
    ensures Below(MulWide(a, b), 77 * w + 1) && MulWide(a, b).l4 <= 5 * w
  {
    hide Times;
    RowBound(a.l0, b, m, n, w);
    RowBound(a.l1, b, m, n, w);
    RowBound(a.l2, b, m, n, w);
    RowBound(a.l3, b, m, n, w);
    RowBound(a.l4, b, m, n, w);
  }

  lemma RowBound(x: int, b: Limbs, m: int, n: int, w: int)
    requires 0 <= m && 0 <= n && w == m * n && 0 <= x <= m && Below(b, n + 1)
    ensures 0 <= Times(x, b.l0) <= w && 0 <= Times(x, b.l1) <= w && 0 <= Times(x, b.l2) <= w
    ensures 0 <= Times(x, b.l3) <= w && 0 <= Times(x, b.l4) <= w
  {
    MulMonotone(x, m, b.l0, n);
    MulMonotone(x, m, b.l1, n);
    MulMonotone(x, m, b.l2, n);
    MulMonotone(x, m, b.l3, n);
    MulMonotone(x, m, b.l4, n);
  }
}
