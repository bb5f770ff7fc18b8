/** Field arithmetic on ten limbs of alternating 26 and 25 bits, with 64-bit accumulators.

    The even limbs and the odd limbs are each a vector in radix 2^51; the odd one weighs 2^26 more.
    As in the 64-bit code, every value stored in a word is proved to fit it. */
module Fiat32Field {
  import opened Bits
  import opened Field
  import opened Radix51
  import opened Inversion

  datatype Fe = Fe(ev: Limbs, od: Limbs)

  function Eval32(x: Fe): int
  {
    Eval(x.ev) + 0x4000000 * Eval(x.od)
  }

  function Value32(x: Fe): int
  {
    F(Eval32(x))
  }

  function At32(a: array<u32>): Fe
    requires a.Length == 10
    reads a
  {
    Fe(Limbs(a[0], a[2], a[4], a[6], a[8]), Limbs(a[1], a[3], a[5], a[7], a[9]))
  }

  /** Limbs up to 1.125 * 2^26 and 1.125 * 2^25: what multiplication and carrying produce. */
  predicate Tight(x: Fe)
  {
    Below(x.ev, 0x4800001) && Below(x.od, 0x2400001)
  }

  /** Limbs up to 3.375 * 2^26 and 3.375 * 2^25: what addition and subtraction produce. */
  predicate Loose32(x: Fe)
  {
    Below(x.ev, 0xd800001) && Below(x.od, 0x6c00001)
  }

  // ----- Products -----

  function Plus(x: Limbs, y: Limbs): Limbs
  {
    Limbs(x.l0 + y.l0, x.l1 + y.l1, x.l2 + y.l2, x.l3 + y.l3, x.l4 + y.l4)
  }

  function Twice(x: Limbs): Limbs
  {
    Limbs(2 * x.l0, 2 * x.l1, 2 * x.l2, 2 * x.l3, 2 * x.l4)
  }

  /** The product by parity of limbs: two odd limbs land one bit above an even column. */
  function Products(a: Fe, b: Fe): Fe
  {
    Fe(Plus(MulWide(a.ev, b.ev), Twice(Shift(MulWide(a.od, b.od)))),
       Plus(MulWide(a.ev, b.od), MulWide(a.od, b.ev)))
  }

  lemma PlusTwiceEval(x: Limbs, y: Limbs)
    ensures Eval(Plus(x, y)) == Eval(x) + Eval(y)
    ensures Eval(Twice(x)) == 2 * Eval(x)
  {
  }

  /** The parity product stands for the product of the values. */
  lemma ProductsValue(a: Fe, b: Fe)
    ensures Value32(Products(a, b)) == Mul(Value32(a), Value32(b))
  {
    hide F, Mul, Eval, MulWide, Shift, Plus, Twice;
    var oo := MulWide(a.od, b.od);
    var k := MulWideEval(a.ev, b.ev);
    var k1 := MulWideEval(a.ev, b.od);
    var k2 := MulWideEval(a.od, b.ev);
    var k3 := MulWideEval(a.od, b.od);
    ShiftEval(oo);
    PlusTwiceEval(MulWide(a.ev, b.ev), Twice(Shift(oo)));
    PlusTwiceEval(Shift(oo), Shift(oo));
    PlusTwiceEval(MulWide(a.ev, b.od), MulWide(a.od, b.ev));
    TwoByTwo(Eval(a.ev), Eval(a.od), Eval(b.ev), Eval(b.od));
    Congruent(Eval32(a) * Eval32(b), Eval32(Products(a, b)),
              k + 0x4000000 * (k1 + k2) + 0x10000000000000 * k3 + 2 * oo.l4);
    Reduce(Eval32(a), Eval32(b));
    Product(Eval32(a), Eval32(b));
  }

  lemma TwoByTwo(a: int, b: int, c: int, d: int)
    ensures (a + 0x4000000 * b) * (c + 0x4000000 * d) == a * c + 0x4000000 * (a * d + b * c)
      + 0x10000000000000 * (b * d)
  {
    var y := c + 0x4000000 * d;
    assert (a + 0x4000000 * b) * y == a * y + 0x4000000 * (b * y);
    assert a * y == a * c + 0x4000000 * (a * d);
    assert b * y == b * c + 0x4000000 * (b * d);
  }

  /** The nineteen columns of a ten-limb product before folding. */
  datatype Columns = Columns(c0: int, c1: int, c2: int, c3: int, c4: int, c5: int, c6: int, c7: int, c8: int, c9: int,
                             c10: int, c11: int, c12: int, c13: int, c14: int, c15: int, c16: int, c17: int, c18: int)

  function MulColumns(a: Fe, b: Fe): Columns
  {
    var Limbs(f0, f2, f4, f6, f8) := a.ev;
    var Limbs(f1, f3, f5, f7, f9) := a.od;
    var Limbs(g0, g2, g4, g6, g8) := b.ev;
    var Limbs(g1, g3, g5, g7, g9) := b.od;
    Columns(Times(f0, g0),
            Times(f1, g0) + Times(f0, g1),
            2 * Times(f1, g1) + Times(f2, g0) + Times(f0, g2),
            Times(f2, g1) + Times(f1, g2) + Times(f3, g0) + Times(f0, g3),
            Times(f2, g2) + 2 * (Times(f3, g1) + Times(f1, g3)) + Times(f4, g0) + Times(f0, g4),
            Times(f3, g2) + Times(f2, g3) + Times(f4, g1) + Times(f1, g4) + Times(f5, g0) + Times(f0, g5),
            2 * (Times(f3, g3) + Times(f5, g1) + Times(f1, g5)) + Times(f4, g2) + Times(f2, g4) + Times(f6, g0)
              + Times(f0, g6),
            Times(f4, g3) + Times(f3, g4) + Times(f5, g2) + Times(f2, g5) + Times(f6, g1) + Times(f1, g6)
              + Times(f7, g0) + Times(f0, g7),
            Times(f4, g4) + 2 * (Times(f5, g3) + Times(f3, g5) + Times(f7, g1) + Times(f1, g7)) + Times(f6, g2)
              + Times(f2, g6) + Times(f8, g0) + Times(f0, g8),
            Times(f5, g4) + Times(f4, g5) + Times(f6, g3) + Times(f3, g6) + Times(f7, g2) + Times(f2, g7)
              + Times(f8, g1) + Times(f1, g8) + Times(f9, g0) + Times(f0, g9),
            2 * (Times(f5, g5) + Times(f7, g3) + Times(f3, g7) + Times(f9, g1) + Times(f1, g9)) + Times(f6, g4)
              + Times(f4, g6) + Times(f8, g2) + Times(f2, g8),
            Times(f6, g5) + Times(f5, g6) + Times(f7, g4) + Times(f4, g7) + Times(f8, g3) + Times(f3, g8)
              + Times(f9, g2) + Times(f2, g9),
            Times(f6, g6) + 2 * (Times(f7, g5) + Times(f5, g7) + Times(f9, g3) + Times(f3, g9)) + Times(f8, g4)
              + Times(f4, g8),
            Times(f7, g6) + Times(f6, g7) + Times(f8, g5) + Times(f5, g8) + Times(f9, g4) + Times(f4, g9),
            2 * (Times(f7, g7) + Times(f9, g5) + Times(f5, g9)) + Times(f8, g6) + Times(f6, g8),
            Times(f8, g7) + Times(f7, g8) + Times(f9, g6) + Times(f6, g9),
            Times(f8, g8) + 2 * (Times(f9, g7) + Times(f7, g9)),
            Times(f9, g8) + Times(f8, g9),
            2 * Times(f9, g9))
  }

  function SquareColumns(a: Fe): Columns
  {
    var Limbs(f0, f2, f4, f6, f8) := a.ev;
    var Limbs(f1, f3, f5, f7, f9) := a.od;
    Columns(Times(f0, f0),
            2 * Times(f0, f1),
            2 * (Times(f1, f1) + Times(f0, f2)),
            2 * (Times(f1, f2) + Times(f0, f3)),
            Times(f2, f2) + 4 * Times(f1, f3) + 2 * Times(f0, f4),
            2 * (Times(f2, f3) + Times(f1, f4) + Times(f0, f5)),
            2 * (Times(f3, f3) + Times(f2, f4) + Times(f0, f6) + 2 * Times(f1, f5)),
            2 * (Times(f3, f4) + Times(f2, f5) + Times(f1, f6) + Times(f0, f7)),
            Times(f4, f4) + 2 * (Times(f2, f6) + Times(f0, f8) + 2 * (Times(f1, f7) + Times(f3, f5))),
            2 * (Times(f4, f5) + Times(f3, f6) + Times(f2, f7) + Times(f1, f8) + Times(f0, f9)),
            2 * (Times(f5, f5) + Times(f4, f6) + Times(f2, f8) + 2 * (Times(f3, f7) + Times(f1, f9))),
            2 * (Times(f5, f6) + Times(f4, f7) + Times(f3, f8) + Times(f2, f9)),
            Times(f6, f6) + 2 * (Times(f4, f8) + 2 * (Times(f5, f7) + Times(f3, f9))),
            2 * (Times(f6, f7) + Times(f5, f8) + Times(f4, f9)),
            2 * (Times(f7, f7) + Times(f6, f8) + 2 * Times(f5, f9)),
            2 * (Times(f7, f8) + Times(f6, f9)),
            Times(f8, f8) + 4 * Times(f7, f9),
            2 * Times(f8, f9),
            2 * Times(f9, f9))
  }

  /** Squaring merges equal products and nothing else. */
  lemma SquareIsMul(a: Fe)
    ensures SquareColumns(a) == MulColumns(a, a)
  {
    TimesCommutes();
    hide Times;
  }

  lemma TimesCommutes()
    ensures forall x, y :: Times(x, y) == Times(y, x)
  {
  }

  /** Columns ten to eighteen weigh 2^255 more than the first nine, that is 19 times. */
  function Fold(c: Columns): Fe
  {
    Fe(Limbs(c.c0 + 19 * c.c10, c.c2 + 19 * c.c12, c.c4 + 19 * c.c14, c.c6 + 19 * c.c16, c.c8 + 19 * c.c18),
       Limbs(c.c1 + 19 * c.c11, c.c3 + 19 * c.c13, c.c5 + 19 * c.c15, c.c7 + 19 * c.c17, c.c9))
  }

  lemma FoldIsProducts(a: Fe, b: Fe)
    ensures Fold(MulColumns(a, b)) == Products(a, b)
  {
    hide Times;
  }

  // ----- Bounds -----

  /** Columns that fold and carry in 64-bit words. */
  predicate Fits(c: Columns)
  {
    && 0 <= c.c0 && 0 <= c.c1 && 0 <= c.c2 && 0 <= c.c3 && 0 <= c.c4 && 0 <= c.c5 && 0 <= c.c6 && 0 <= c.c7
    && 0 <= c.c8 && 0 <= c.c9
    && 0 <= c.c10 && 0 <= c.c11 && 0 <= c.c12 && 0 <= c.c13 && 0 <= c.c14 && 0 <= c.c15 && 0 <= c.c16 && 0 <= c.c17
    && 0 <= c.c18
    && Below(Fold(c).ev, 0x8000_0000_0000_0000) && Below(Fold(c).od, 0x8000_0000_0000_0000)
  }

  lemma TimesNonneg()
    ensures forall x, y :: 0 <= x && 0 <= y ==> 0 <= Times(x, y)
  {
    forall x, y | 0 <= x && 0 <= y
      ensures 0 <= Times(x, y)
    {
      MulMonotone(x, x, y, y);
    }
  }

  lemma ProductsBound(a: Fe, b: Fe)
    requires Loose32(a) && Loose32(b)
    ensures Below(Products(a, b).ev, 0x8000_0000_0000_0000) && Below(Products(a, b).od, 0x8000_0000_0000_0000)
  {
    hide MulWide;
    MulWideBelow(a.ev, b.ev, 0xd800000, 0xd800000, 0xd800000 * 0xd800000);
    MulWideBelow(a.od, b.od, 0x6c00000, 0x6c00000, 0x6c00000 * 0x6c00000);
    MulWideBelow(a.ev, b.od, 0xd800000, 0x6c00000, 0xd800000 * 0x6c00000);
    MulWideBelow(a.od, b.ev, 0x6c00000, 0xd800000, 0x6c00000 * 0xd800000);
  }

  /** Loose operands never overflow an accumulator, nor their doubled or quadrupled limbs a word. */
  lemma MulFits(a: Fe, b: Fe)
    requires Loose32(a) && Loose32(b)
    ensures Fits(MulColumns(a, b))
    ensures Below(a.ev, 0x4000_0000) && Below(a.od, 0x4000_0000)
    ensures Below(b.ev, 0x4000_0000) && Below(b.od, 0x4000_0000)
  {
    TimesNonneg();
    hide Times;
    ProductsBound(a, b);
    FoldIsProducts(a, b);
  }

  // ----- Carrying -----

  /** `t >> 26` and `t >> 25`. */
  function Hi26(t: int): int
  {
    t / 0x4000000
  }

  function Hi25(t: int): int
  {
    t / 0x2000000
  }

  /** What the shifts leave behind, which is what the masks 2^26 - 1 and 2^25 - 1 keep. */
  function Lo26(t: int): int
  {
    t - 0x4000000 * Hi26(t)
  }

  function Lo25(t: int): int
  {
    t - 0x2000000 * Hi25(t)
  }

  lemma Range26(t: int)
    ensures Lo26(t) == t % 0x4000000 && 0 <= Lo26(t) < 0x4000000
    ensures 0 <= t ==> 0 <= Hi26(t) && 0x4000000 * Hi26(t) <= t
  {
  }

  lemma Range25(t: int)
    ensures Lo25(t) == t % 0x2000000 && 0 <= Lo25(t) < 0x2000000
    ensures 0 <= t ==> 0 <= Hi25(t) && 0x2000000 * Hi25(t) <= t
  {
  }

  /** One pass over the ten columns, the top carry folded into the bottom and settled there. */
  function Carry32(h: Fe): Fe
  {
    var t1 := Hi26(h.ev.l0) + h.od.l0;
    var t2 := Hi25(t1) + h.ev.l1;
    var t3 := Hi26(t2) + h.od.l1;
    var t4 := Hi25(t3) + h.ev.l2;
    var t5 := Hi26(t4) + h.od.l2;
    var t6 := Hi25(t5) + h.ev.l3;
    var t7 := Hi26(t6) + h.od.l3;
    var t8 := Hi25(t7) + h.ev.l4;
    var t9 := Hi26(t8) + h.od.l4;
    var u0 := Lo26(h.ev.l0) + 19 * Hi25(t9);
    var u1 := Hi26(u0) + Lo25(t1);
    Fe(Limbs(Lo26(u0), Hi25(u1) + Lo26(t2), Lo26(t4), Lo26(t6), Lo26(t8)),
       Limbs(Lo25(u1), Lo25(t3), Lo25(t5), Lo25(t7), Lo25(t9)))
  }

  /** The limbs after carries q0 to q9 out of the ten columns, then p0 and p1 out of the lowest two. */
  function Carried(h: Fe, q0: int, q1: int, q2: int, q3: int, q4: int, q5: int, q6: int, q7: int, q8: int, q9: int,
                   p0: int, p1: int): Fe
  {
    Fe(Limbs(h.ev.l0 - 0x4000000 * q0 + 19 * q9 - 0x4000000 * p0, p1 + (q1 + h.ev.l1 - 0x4000000 * q2),
             q3 + h.ev.l2 - 0x4000000 * q4,
             q5 + h.ev.l3 - 0x4000000 * q6, q7 + h.ev.l4 - 0x4000000 * q8),
       Limbs(p0 + (q0 + h.od.l0 - 0x2000000 * q1) - 0x2000000 * p1, q2 + h.od.l1 - 0x2000000 * q3,
             q4 + h.od.l2 - 0x2000000 * q5,
             q6 + h.od.l3 - 0x2000000 * q7, q8 + h.od.l4 - 0x2000000 * q9))
  }

  /** Whatever the carries, they move nothing but a multiple of p. */
  lemma CarryIdentity(h: Fe, q0: int, q1: int, q2: int, q3: int, q4: int, q5: int, q6: int, q7: int, q8: int,
                      q9: int, p0: int, p1: int)
    ensures Eval32(h) == Eval32(Carried(h, q0, q1, q2, q3, q4, q5, q6, q7, q8, q9, p0, p1))
                         + q9 * 0x7fffffffffffffffffffffffffffffffffffffffffffffffffffffffffffffed
  {
  }

  lemma CarryValue(h: Fe)
    ensures Value32(Carry32(h)) == Value32(h)
  {
    hide F, Hi26, Hi25, Eval32;
    var t1 := Hi26(h.ev.l0) + h.od.l0;
    var t2 := Hi25(t1) + h.ev.l1;
    var t3 := Hi26(t2) + h.od.l1;
    var t4 := Hi25(t3) + h.ev.l2;
    var t5 := Hi26(t4) + h.od.l2;
    var t6 := Hi25(t5) + h.ev.l3;
    var t7 := Hi26(t6) + h.od.l3;
    var t8 := Hi25(t7) + h.ev.l4;
    var t9 := Hi26(t8) + h.od.l4;
    var u0 := Lo26(h.ev.l0) + 19 * Hi25(t9);
    var u1 := Hi26(u0) + Lo25(t1);
    CarryIdentity(h, Hi26(h.ev.l0), Hi25(t1), Hi26(t2), Hi25(t3), Hi26(t4), Hi25(t5), Hi26(t6), Hi25(t7), Hi26(t8),
                  Hi25(t9), Hi26(u0), Hi25(u1));
    assert Carry32(h) == Carried(h, Hi26(h.ev.l0), Hi25(t1), Hi26(t2), Hi25(t3), Hi26(t4), Hi25(t5), Hi26(t6),
                                 Hi25(t7), Hi26(t8), Hi25(t9), Hi26(u0), Hi25(u1));
    Congruent(Eval32(h), Eval32(Carry32(h)), Hi25(t9));
  }

  lemma CarryTight(h: Fe)
    requires Below(h.ev, 0x8000_0000_0000_0000) && Below(h.od, 0x8000_0000_0000_0000)
    ensures Tight(Carry32(h))
  {
    hide Hi26, Lo26, Hi25, Lo25;
    Range26(h.ev.l0);
    var t1 := Hi26(h.ev.l0) + h.od.l0;
    Range25(t1);
    var t2 := Hi25(t1) + h.ev.l1;
    Range26(t2);
    var t3 := Hi26(t2) + h.od.l1;
    Range25(t3);
    var t4 := Hi25(t3) + h.ev.l2;
    Range26(t4);
    var t5 := Hi26(t4) + h.od.l2;
    Range25(t5);
    var t6 := Hi25(t5) + h.ev.l3;
    Range26(t6);
    var t7 := Hi26(t6) + h.od.l3;
    Range25(t7);
    var t8 := Hi25(t7) + h.ev.l4;
    Range26(t8);
    var t9 := Hi26(t8) + h.od.l4;
    Range25(t9);
    var u0 := Lo26(h.ev.l0) + 19 * Hi25(t9);
    Range26(u0);
    var u1 := Hi26(u0) + Lo25(t1);
    Range25(u1);
  }

  // ----- The operations -----

  /** `(u32)t & (2^26 - 1)` and `(u32)t & (2^25 - 1)`. */
  lemma CastThenMask(t: nat)
    ensures And(t % 0x1_0000_0000, 0x3ffffff) == Lo26(t)
    ensures And(t % 0x1_0000_0000, 0x1ffffff) == Lo25(t)
  {
    hide And, Pow2;
    var low, k := t % 0x1_0000_0000, t / 0x1_0000_0000;
    Pow2Limb26();
    AndLowMask(low, 26);
    AndLowMask(low, 25);
    DivModUnique(t, 0x4000000, k * 0x40 + low / 0x4000000, low % 0x4000000);
    DivModUnique(t, 0x2000000, k * 0x80 + low / 0x2000000, low % 0x2000000);
  }

  function Keep26(t: u64): (r: u32)
    ensures r == Lo26(t) && r < 0x4000000
  {
    CastThenMask(t);
    Range26(t);
    And(t % 0x1_0000_0000, 0x3ffffff)
  }

  function Keep25(t: u64): (r: u32)
    ensures r == Lo25(t) && r < 0x2000000
  {
    CastThenMask(t);
    Range25(t);
    And(t % 0x1_0000_0000, 0x1ffffff)
  }

  /** c + 19 d, as the code forms it from shifts. */
  function Fold19(c: int, d: int): (h: u64)
    requires 0 <= c && 0 <= d && c + 19 * d < 0x8000_0000_0000_0000
    ensures h == c + 19 * d
  {
    var s: u64 := c + 16 * d;
    var t: u64 := s as int + 2 * d;
    t as int + d
  }

  /** Fold the high columns, carry once around, and store. */
  method ReduceColumns(out: array<u32>, c: Columns)
    requires out.Length == 10
    requires Fits(c)
    modifies out
    ensures At32(out) == Carry32(Fold(c))
  {
    hide And, Hi26, Hi25, Lo26, Lo25;
    var h0, h1 := Fold19(c.c0, c.c10), Fold19(c.c1, c.c11);
    var h2, h3 := Fold19(c.c2, c.c12), Fold19(c.c3, c.c13);
    var h4, h5 := Fold19(c.c4, c.c14), Fold19(c.c5, c.c15);
    var h6, h7 := Fold19(c.c6, c.c16), Fold19(c.c7, c.c17);
    var h8, h9 := Fold19(c.c8, c.c18), c.c9;
    CarryChain(out, h0, h1, h2, h3, h4, h5, h6, h7, h8, h9);
  }

  /** A carry into a column that fits 63 bits stays within the word. */
  lemma Step26(t: u64, h: u64)
    requires h < 0x8000_0000_0000_0000
    ensures 0 <= Hi26(t) + h as int < 0x1_0000_0000_0000_0000
  {
  }

  lemma Step25(t: u64, h: u64)
    requires h < 0x8000_0000_0000_0000
    ensures 0 <= Hi25(t) + h as int < 0x1_0000_0000_0000_0000
  {
  }

  method CarryChain(out: array<u32>, h0: u64, h1: u64, h2: u64, h3: u64, h4: u64, h5: u64, h6: u64, h7: u64,
                    h8: u64, h9: u64)
    requires out.Length == 10
    requires Below(Limbs(h0, h2, h4, h6, h8), 0x8000_0000_0000_0000)
      && Below(Limbs(h1, h3, h5, h7, h9), 0x8000_0000_0000_0000)
    modifies out
    ensures At32(out) == Carry32(Fe(Limbs(h0, h2, h4, h6, h8), Limbs(h1, h3, h5, h7, h9)))
  {
    hide Keep26, Keep25, Hi26, Hi25, Lo26, Lo25;
    Step26(h0, h1);
    var t1: u64 := Hi26(h0) + h1 as int;
    Step25(t1, h2);
    var t2: u64 := Hi25(t1) + h2 as int;
    Step26(t2, h3);
    var t3: u64 := Hi26(t2) + h3 as int;
    Step25(t3, h4);
    var t4: u64 := Hi25(t3) + h4 as int;
    Step26(t4, h5);
    var t5: u64 := Hi26(t4) + h5 as int;
    Step25(t5, h6);
    var t6: u64 := Hi25(t5) + h6 as int;
    Step26(t6, h7);
    var t7: u64 := Hi26(t6) + h7 as int;
    Step25(t7, h8);
    var t8: u64 := Hi25(t7) + h8 as int;
    Step26(t8, h9);
    var t9: u64 := Hi26(t8) + h9 as int;
    Range25(t9);
    var u0: u64 := Keep26(h0) as int + 0x13 * Hi25(t9);
    Range26(u0);
    var u1: u32 := Hi26(u0) + Keep25(t1) as int;
    Range25(u1);
    out[0] := Keep26(u0);
    out[1] := Keep25(u1);
    out[2] := Hi25(u1) + Keep26(t2) as int;
    out[3] := Keep25(t3);
    out[4] := Keep26(t4);
    out[5] := Keep25(t5);
    out[6] := Keep26(t6);
    out[7] := Keep25(t7);
    out[8] := Keep26(t8);
    out[9] := Keep25(t9);
  }

  /** What carrying makes of loose products. */
  lemma MulCorrect32(a: Fe, b: Fe)
    requires Loose32(a) && Loose32(b)
    ensures Fits(MulColumns(a, b))
    ensures Tight(Carry32(Fold(MulColumns(a, b))))
    ensures Value32(Carry32(Fold(MulColumns(a, b)))) == Mul(Value32(a), Value32(b))
  {
    hide MulColumns, Carry32, F, Products, Loose32, Tight;
    MulFits(a, b);
    FoldIsProducts(a, b);
    CarryTight(Products(a, b));
    CarryValue(Products(a, b));
    ProductsValue(a, b);
  }

  /** out := in1 * in2, from loose operands to a tight result; the output may be an input. */
  method FeMul(out: array<u32>, in1: array<u32>, in2: array<u32>)
    requires out.Length == 10 && in1.Length == 10 && in2.Length == 10
    requires Loose32(At32(in1)) && Loose32(At32(in2))
    modifies out
    ensures Tight(At32(out)) && Loose32(At32(out))
    ensures Value32(At32(out)) == Mul(old(Value32(At32(in1))), old(Value32(At32(in2))))
  {
    hide MulColumns, Carry32, Fold, F, Eval32;
    MulCorrect32(At32(in1), At32(in2));
    ReduceColumns(out, MulColumns(At32(in1), At32(in2)));
  }

  /** out := in1^2. */
  method FeSqr(out: array<u32>, in1: array<u32>)
    requires out.Length == 10 && in1.Length == 10
    requires Loose32(At32(in1))
    modifies out
    ensures Tight(At32(out)) && Loose32(At32(out))
    ensures Value32(At32(out)) == Mul(old(Value32(At32(in1))), old(Value32(At32(in1))))
  {
    hide MulColumns, SquareColumns, Carry32, Fold, F, Eval32;
    MulCorrect32(At32(in1), At32(in1));
    SquareIsMul(At32(in1));
    ReduceColumns(out, SquareColumns(At32(in1)));
  }

  /** out := 121666 * in1: the multiplication with nine of its limbs zero. */
  method FeMul121666(out: array<u32>, in1: array<u32>)
    requires out.Length == 10 && in1.Length == 10
    requires Loose32(At32(in1))
    modifies out
    ensures Tight(At32(out)) && Loose32(At32(out))
    ensures Value32(At32(out)) == Mul(121666, old(Value32(At32(in1))))
  {
    hide MulColumns, Carry32, Fold, F, Eval32, Mul;
    var a := Fe(Limbs(121666, 0, 0, 0, 0), Limbs(0, 0, 0, 0, 0));
    SmallConstant(121666);
    MulCorrect32(At32(in1), a);
    MulComm(121666, Value32(At32(in1)));
    ReduceColumns(out, MulColumns(At32(in1), a));
  }

  lemma SmallConstant(n: int)
    requires 0 <= n < PRIME
    ensures Value32(Fe(Limbs(n, 0, 0, 0, 0), Limbs(0, 0, 0, 0, 0))) == n
  {
    hide F;
    Canonical(n);
  }

  /** out := in1 + in2, from tight operands to a loose result. */
  method FeAdd(out: array<u32>, in1: array<u32>, in2: array<u32>)
    requires out.Length == 10 && in1.Length == 10 && in2.Length == 10
    requires Tight(At32(in1)) && Tight(At32(in2))
    modifies out
    ensures Loose32(At32(out))
    ensures Value32(At32(out)) == Add(old(Value32(At32(in1))), old(Value32(At32(in2))))
  {
    hide Value32, Loose32, Add;
    ghost var a, b := At32(in1), At32(in2);
    SumValue(a, b);
    SumLoose(a, b);
    var f0, f1, f2, f3, f4, f5, f6, f7, f8, f9 := in1[0], in1[1], in1[2], in1[3], in1[4], in1[5], in1[6], in1[7],
      in1[8], in1[9];
    var g0, g1, g2, g3, g4, g5, g6, g7, g8, g9 := in2[0], in2[1], in2[2], in2[3], in2[4], in2[5], in2[6], in2[7],
      in2[8], in2[9];
    out[0] := f0 + g0;
    out[1] := f1 + g1;
    out[2] := f2 + g2;
    out[3] := f3 + g3;
    out[4] := f4 + g4;
    out[5] := f5 + g5;
    out[6] := f6 + g6;
    out[7] := f7 + g7;
    out[8] := f8 + g8;
    out[9] := f9 + g9;
    assert At32(out) == SumLimbs(a, b);
  }

  function SumLimbs(a: Fe, b: Fe): Fe
  {
    Fe(Plus(a.ev, b.ev), Plus(a.od, b.od))
  }

  lemma SumLoose(a: Fe, b: Fe)
    requires Tight(a) && Tight(b)
    ensures Loose32(SumLimbs(a, b))
  {
  }

  lemma SumValue(a: Fe, b: Fe)
    ensures Value32(SumLimbs(a, b)) == Add(Value32(a), Value32(b))
  {
    hide F, Eval, Plus;
    PlusTwiceEval(a.ev, b.ev);
    PlusTwiceEval(a.od, b.od);
    ReduceSum(Eval32(a), Eval32(b));
  }

  /** x + 2p - y, limb by limb. */
  function MinusFrom2P(a: Fe, b: Fe): Fe
  {
    Fe(Limbs(0x7ffffda + a.ev.l0 - b.ev.l0, 0x7fffffe + a.ev.l1 - b.ev.l1, 0x7fffffe + a.ev.l2 - b.ev.l2,
             0x7fffffe + a.ev.l3 - b.ev.l3, 0x7fffffe + a.ev.l4 - b.ev.l4),
       Limbs(0x3fffffe + a.od.l0 - b.od.l0, 0x3fffffe + a.od.l1 - b.od.l1, 0x3fffffe + a.od.l2 - b.od.l2,
             0x3fffffe + a.od.l3 - b.od.l3, 0x3fffffe + a.od.l4 - b.od.l4))
  }

  lemma DifferenceValue(a: Fe, b: Fe)
    ensures Value32(MinusFrom2P(a, b)) == Sub(Value32(a), Value32(b))
  {
    hide F;
    Congruent(Eval32(MinusFrom2P(a, b)), Eval32(a) - Eval32(b), 2);
    ReduceSum(Eval32(a), Eval32(b));
  }

  lemma DifferenceLoose(a: Fe, b: Fe)
    requires Tight(a) && Tight(b)
    ensures Loose32(MinusFrom2P(a, b))
  {
  }

  /** out := in1 - in2, with 2p added first so that no limb goes below zero. */
  method FeSub(out: array<u32>, in1: array<u32>, in2: array<u32>)
    requires out.Length == 10 && in1.Length == 10 && in2.Length == 10
    requires Tight(At32(in1)) && Tight(At32(in2))
    modifies out
    ensures Loose32(At32(out))
    ensures Value32(At32(out)) == Sub(old(Value32(At32(in1))), old(Value32(At32(in2))))
  {
    hide Value32, Loose32, Sub;
    ghost var a, b := At32(in1), At32(in2);
    DifferenceValue(a, b);
    DifferenceLoose(a, b);
    var f0, f1, f2, f3, f4, f5, f6, f7, f8, f9 := in1[0], in1[1], in1[2], in1[3], in1[4], in1[5], in1[6], in1[7],
      in1[8], in1[9];
    var g0, g1, g2, g3, g4, g5, g6, g7, g8, g9 := in2[0], in2[1], in2[2], in2[3], in2[4], in2[5], in2[6], in2[7],
      in2[8], in2[9];
    out[0] := (0x7ffffda + f0) - g0;
    out[1] := (0x3fffffe + f1) - g1;
    out[2] := (0x7fffffe + f2) - g2;
    out[3] := (0x3fffffe + f3) - g3;
    out[4] := (0x7fffffe + f4) - g4;
    out[5] := (0x3fffffe + f5) - g5;
    out[6] := (0x7fffffe + f6) - g6;
    out[7] := (0x3fffffe + f7) - g7;
    out[8] := (0x7fffffe + f8) - g8;
    out[9] := (0x3fffffe + f9) - g9;
    assert At32(out) == MinusFrom2P(a, b);
  }

  // ----- Inversion -----

  /** `a` holds v^e. */
  ghost predicate Holds32(a: array<u32>, v: int, e: nat)
    requires a.Length == 10
    reads a
  {
    Loose32(At32(a)) && Value32(At32(a)) == Pow(v, e)
  }

  /** out := in1 squared `n` times, n >= 1. */
  method SquareTimes(out: array<u32>, in1: array<u32>, n: nat)
    requires out.Length == 10 && in1.Length == 10 && n >= 1
    requires Loose32(At32(in1))
    modifies out
    ensures Tight(At32(out)) && Loose32(At32(out))
    ensures Value32(At32(out)) == Pow(old(Value32(At32(in1))), Pow2(n))
  {
    hide F, Loose32, Tight, Value32, Mul, At32;
    ghost var v := Value32(At32(in1));
    PowSquare(v, v, 0);
    FeSqr(out, in1);
    var i := 1;
    while i < n
      invariant 1 <= i <= n
      invariant Tight(At32(out)) && Loose32(At32(out))
      invariant Value32(At32(out)) == Pow(v, Pow2(i))
    {
      PowSquare(v, Value32(At32(out)), i);
      FeSqr(out, out);
      i := i + 1;
    }
  }

  /** `FeMul`, with the exponents of the chain. */
  method MulPowers32(out: array<u32>, x: array<u32>, y: array<u32>, ghost v: int, ghost m: nat, ghost n: nat)
    requires out.Length == 10 && x.Length == 10 && y.Length == 10
    requires Holds32(x, v, m) && Holds32(y, v, n)
    modifies out
    ensures Tight(At32(out)) && Holds32(out, v, m + n)
  {
    hide F, Loose32, Tight, Value32, Mul, At32;
    PowAdd(v, m, n);
    FeMul(out, x, y);
  }

  /** `SquareTimes`, with the exponents of the chain. */
  method SquarePowers32(out: array<u32>, x: array<u32>, n: nat, ghost v: int, ghost m: nat, ghost e: nat)
    requires out.Length == 10 && x.Length == 10 && n >= 1
    requires Holds32(x, v, m) && e == m * Pow2(n)
    modifies out
    ensures Holds32(out, v, e)
  {
    hide F, Loose32, Tight, Value32, Mul, At32;
    PowMul(v, m, Pow2(n));
    SquareTimes(out, x, n);
  }

  method InvertLow(t0: array<u32>, t1: array<u32>, t2: array<u32>, z: array<u32>, ghost v: int)
    requires t0.Length == 10 && t1.Length == 10 && t2.Length == 10 && z.Length == 10
    requires t0 != t1 && t0 != t2 && t1 != t2 && z != t0 && z != t1 && z != t2
    requires Holds32(z, v, 1)
    modifies t0, t1, t2
    ensures Holds32(t0, v, 11) && Holds32(t1, v, 0x3ff)
  {
    hide *;
    SquaringCounts(1); SquaringCounts(2); SquaringCounts(5);
    SquarePowers32(t0, z, 1, v, 1, 2);
    SquarePowers32(t1, t0, 2, v, 2, 8);
    MulPowers32(t1, z, t1, v, 1, 8);
    MulPowers32(t0, t0, t1, v, 2, 9);
    SquarePowers32(t2, t0, 1, v, 11, 22);
    MulPowers32(t1, t1, t2, v, 9, 22);
    SquarePowers32(t2, t1, 5, v, 0x1f, 0x3e0);
    MulPowers32(t1, t2, t1, v, 0x3e0, 0x1f);
  }

  method InvertMid(t1: array<u32>, t2: array<u32>, t3: array<u32>, ghost v: int)
    requires t1.Length == 10 && t2.Length == 10 && t3.Length == 10
    requires t1 != t2 && t1 != t3 && t2 != t3
    requires Holds32(t1, v, 0x3ff)
    modifies t1, t2, t3
    ensures Holds32(t1, v, 0x3ffffffffffff)
  {
    hide *;
    SquaringCounts(10); SquaringCounts(20);
    SquarePowers32(t2, t1, 10, v, 0x3ff, 0xffc00);
    MulPowers32(t2, t2, t1, v, 0xffc00, 0x3ff);
    SquarePowers32(t3, t2, 20, v, 0xfffff, 0xfffff00000);
    MulPowers32(t2, t3, t2, v, 0xfffff00000, 0xfffff);
    SquarePowers32(t2, t2, 10, v, 0xffffffffff, 0x3fffffffffc00);
    MulPowers32(t1, t2, t1, v, 0x3fffffffffc00, 0x3ff);
  }

  method InvertHigh(out: array<u32>, t0: array<u32>, t1: array<u32>, t2: array<u32>, t3: array<u32>, ghost v: int)
    requires out.Length == 10 && t0.Length == 10 && t1.Length == 10 && t2.Length == 10 && t3.Length == 10
    requires t0 != t1 && t0 != t2 && t0 != t3 && t1 != t2 && t1 != t3 && t2 != t3
    requires Holds32(t0, v, 11) && Holds32(t1, v, 0x3ffffffffffff)
    modifies out, t1, t2, t3
    ensures Tight(At32(out))
    ensures Value32(At32(out)) == Pow(v, PRIME - 2)
  {
    hide *;
    SquaringCounts(100); SquaringCounts(50); SquaringCounts(5);
    SquarePowers32(t2, t1, 50, v, 0x3ffffffffffff, 0xffffffffffffc000000000000);
    MulPowers32(t2, t2, t1, v, 0xffffffffffffc000000000000, 0x3ffffffffffff);
    SquarePowers32(t3, t2, 100, v, 0xfffffffffffffffffffffffff, 0xfffffffffffffffffffffffff0000000000000000000000000);
    MulPowers32(t2, t3, t2, v, 0xfffffffffffffffffffffffff0000000000000000000000000, 0xfffffffffffffffffffffffff);
    SquarePowers32(t2, t2, 50, v, 0xffffffffffffffffffffffffffffffffffffffffffffffffff,
                   0x3fffffffffffffffffffffffffffffffffffffffffffffffffc000000000000);
    MulPowers32(t1, t2, t1, v, 0x3fffffffffffffffffffffffffffffffffffffffffffffffffc000000000000, 0x3ffffffffffff);
    SquarePowers32(t1, t1, 5, v, 0x3ffffffffffffffffffffffffffffffffffffffffffffffffffffffffffffff,
                   0x7fffffffffffffffffffffffffffffffffffffffffffffffffffffffffffffe0);
    MulPowers32(out, t1, t0, v, 0x7fffffffffffffffffffffffffffffffffffffffffffffffffffffffffffffe0, 11);
    LastPower(out, v);
  }

  lemma LastPower(out: array<u32>, v: int)
    requires out.Length == 10
    requires Holds32(out, v, 0x7fffffffffffffffffffffffffffffffffffffffffffffffffffffffffffffe0 + 11)
    ensures Value32(At32(out)) == Pow(v, PRIME - 2)
  {
    hide F, Eval, Pow, Value32;
    assert PRIME - 2 == 0x7fffffffffffffffffffffffffffffffffffffffffffffffffffffffffffffe0 + 11;
  }

  lemma FirstPower(z: array<u32>)
    requires z.Length == 10 && Loose32(At32(z))
    ensures Holds32(z, Value32(At32(z)), 1)
  {
    hide F, Eval;
    var v := Value32(At32(z));
    Idempotent(Eval32(At32(z)));
    assert Pow(v, 0) == 1 && v * 1 == v;
    assert Pow(v, 1) == Mul(v, 1);
  }

  /** out := z^(p-2), on four temporaries; the output may be the input. */
  method FeInvert(out: array<u32>, z: array<u32>)
    requires out.Length == 10 && z.Length == 10
    requires Loose32(At32(z))
    modifies out
    ensures Tight(At32(out))
    ensures Value32(At32(out)) == Pow(old(Value32(At32(z))), PRIME - 2)
  {
    hide *;
    ghost var v := Value32(At32(z));
    FirstPower(z);
    var t0, t1, t2, t3 := new u32[10], new u32[10], new u32[10], new u32[10];
    InvertLow(t0, t1, t2, z, v);
    InvertMid(t1, t2, t3, v);
    InvertHigh(out, t0, t1, t2, t3, v);
  }
}
