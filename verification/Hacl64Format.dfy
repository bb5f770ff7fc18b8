/** Bytes to limbs and back for the 64-bit implementation. */
module Hacl64Format {
  import opened Bits
  import opened Field
  import opened Rfc7748
  import opened Radix51
  import opened Hacl64Field

  // ----- Words in a byte string -----

  lemma ByteWeights()
    ensures Pow2(8) == 0x100 && Pow2(16) == 0x1_0000 && Pow2(40) == 0x100_0000_0000
    ensures Pow2(48) == 0x1_0000_0000_0000 && Pow2(64) == 0x1_0000_0000_0000_0000
  {
    Pow2By8(0); Pow2By8(8); Pow2By8(16); Pow2By8(24); Pow2By8(32); Pow2By8(40); Pow2By8(48); Pow2By8(56);
  }

  lemma OneByte(b: u8)
    ensures LittleEndian([b]) == b
  {
    assert [b][1..] == [];
  }

  method GetLe64(a: array<u8>, o: nat) returns (l: u64)
    requires o + 8 <= a.Length
    ensures l == LittleEndian(a[o..o + 8])
  {
    LittleEndianBound(a[o..o + 8]);
    Pow2Word64();
    l := LittleEndian(a[o..o + 8]);
  }

  method PutLe64(s: u64, d: array<u8>, o: nat)
    requires o + 8 <= d.Length
    modifies d
    ensures d[..] == old(d[..])[..o] + Encode(s, 8) + old(d[..])[o + 8..]
  {
    var b := Encode(s, 8);
    forall k | 0 <= k < 8 {
      d[o + k] := b[k];
    }
  }

  // ----- Expansion -----

  /** A 32-byte string in the pieces that limb boundaries cut: the five bytes shared by two limbs, or
      by a limb and the ignored top bit, and the whole bytes between them. */
  datatype Pieces = Pieces(a: int, b6: int, b: int, b12: int, c: int, b19: int, d: int, b25: int, e: int, b31: int)

  function Cut(s: seq<u8>): Pieces
    requires |s| == 32
  {
    Pieces(LittleEndian(s[0..6]), s[6], LittleEndian(s[7..12]), s[12], LittleEndian(s[13..19]), s[19],
           LittleEndian(s[20..25]), s[25], LittleEndian(s[26..31]), s[31])
  }

  predicate Ranged(p: Pieces)
  {
    && 0 <= p.a < 0x1_0000_0000_0000 && 0 <= p.b < 0x100_0000_0000 && 0 <= p.c < 0x1_0000_0000_0000
    && 0 <= p.d < 0x100_0000_0000 && 0 <= p.e < 0x100_0000_0000
    && 0 <= p.b6 < 0x100 && 0 <= p.b12 < 0x100 && 0 <= p.b19 < 0x100 && 0 <= p.b25 < 0x100 && 0 <= p.b31 < 0x100
  }

  lemma CutRanged(s: seq<u8>)
    requires |s| == 32
    ensures Ranged(Cut(s))
  {
    hide LittleEndian, Pow2;
    ByteWeights();
    LittleEndianBound(s[0..6]);
    LittleEndianBound(s[7..12]);
    LittleEndianBound(s[13..19]);
    LittleEndianBound(s[20..25]);
    LittleEndianBound(s[26..31]);
  }

  function PiecesValue(p: Pieces): int
  {
    p.a + 0x1_0000_0000_0000 * (p.b6 + 0x100 * (p.b + 0x100_0000_0000 * (p.b12
    + 0x100 * (p.c + 0x1_0000_0000_0000 * (p.b19 + 0x100 * (p.d + 0x100_0000_0000 * (p.b25
    + 0x100 * (p.e + 0x100_0000_0000 * p.b31))))))))
  }

  lemma CutValue(s: seq<u8>)
    requires |s| == 32
    ensures LittleEndian(s) == PiecesValue(Cut(s))
  {
    hide LittleEndian, Pow2;
    ByteWeights();
    var t9 := s[26..31] + [s[31]];
    var t8 := [s[25]] + t9;
    var t7 := s[20..25] + t8;
    var t6 := [s[19]] + t7;
    var t5 := s[13..19] + t6;
    var t4 := [s[12]] + t5;
    var t3 := s[7..12] + t4;
    var t2 := [s[6]] + t3;
    assert s == s[0..6] + t2;
    LittleEndianConcat(s[26..31], [s[31]]);
    LittleEndianConcat([s[25]], t9);
    LittleEndianConcat(s[20..25], t8);
    LittleEndianConcat([s[19]], t7);
    LittleEndianConcat(s[13..19], t6);
    LittleEndianConcat([s[12]], t5);
    LittleEndianConcat(s[7..12], t4);
    LittleEndianConcat([s[6]], t3);
    LittleEndianConcat(s[0..6], t2);
    OneByte(s[6]); OneByte(s[12]); OneByte(s[19]); OneByte(s[25]); OneByte(s[31]);
  }

  /** The five 64-bit windows that the code loads, at byte offsets 0, 6, 12, 19 and 24. */
  lemma Windows(s: seq<u8>)
    requires |s| == 32
    ensures var p := Cut(s);
            && LittleEndian(s[0..8]) == p.a + 0x1_0000_0000_0000 * (p.b6 + 0x100 * s[7] as int)
            && LittleEndian(s[6..14]) == p.b6 + 0x100 * (p.b + 0x100_0000_0000 * (p.b12 + 0x100 * s[13] as int))
            && LittleEndian(s[12..20]) == p.b12 + 0x100 * (p.c + 0x1_0000_0000_0000 * p.b19)
            && LittleEndian(s[19..27]) == p.b19 + 0x100 * (p.d + 0x100_0000_0000 * (p.b25 + 0x100 * s[26] as int))
            && LittleEndian(s[24..32]) == s[24] as int + 0x100 * (p.b25 + 0x100 * (p.e + 0x100_0000_0000 * p.b31))
  {
    hide LittleEndian, Pow2;
    ByteWeights();
    assert s[0..8] == s[0..6] + ([s[6]] + [s[7]]);
    LittleEndianConcat(s[0..6], [s[6]] + [s[7]]);
    LittleEndianConcat([s[6]], [s[7]]);
    assert s[6..14] == [s[6]] + (s[7..12] + ([s[12]] + [s[13]]));
    LittleEndianConcat([s[6]], s[7..12] + ([s[12]] + [s[13]]));
    LittleEndianConcat(s[7..12], [s[12]] + [s[13]]);
    LittleEndianConcat([s[12]], [s[13]]);
    assert s[12..20] == [s[12]] + (s[13..19] + [s[19]]);
    LittleEndianConcat([s[12]], s[13..19] + [s[19]]);
    LittleEndianConcat(s[13..19], [s[19]]);
    assert s[19..27] == [s[19]] + (s[20..25] + ([s[25]] + [s[26]]));
    LittleEndianConcat([s[19]], s[20..25] + ([s[25]] + [s[26]]));
    LittleEndianConcat(s[20..25], [s[25]] + [s[26]]);
    LittleEndianConcat([s[25]], [s[26]]);
    assert s[24..32] == [s[24]] + ([s[25]] + (s[26..31] + [s[31]]));
    LittleEndianConcat([s[24]], [s[25]] + (s[26..31] + [s[31]]));
    LittleEndianConcat([s[25]], s[26..31] + [s[31]]);
    LittleEndianConcat(s[26..31], [s[31]]);
    OneByte(s[6]); OneByte(s[7]); OneByte(s[12]); OneByte(s[13]); OneByte(s[19]);
    OneByte(s[24]); OneByte(s[25]); OneByte(s[26]); OneByte(s[31]);
  }

  /** Bits `low` up to `low + 51` of a word, read by shifting and masking. */
  lemma Field51(i: int, sh: int, low: int, limb: int, high: int)
    requires sh > 0 && i == (limb + 0x8000000000000 * high) * sh + low
    requires 0 <= low < sh && 0 <= limb < 0x8000000000000
    ensures i / sh % 0x8000000000000 == limb
  {
    DivModUnique(i, sh, limb + 0x8000000000000 * high, low);
  }

  function PiecesLimbs(p: Pieces): Limbs
  {
    Limbs(p.a + 0x1_0000_0000_0000 * (p.b6 % 8),
          p.b6 / 8 + 0x20 * p.b + 0x2000_0000_0000 * (p.b12 % 64),
          p.b12 / 64 + 4 * p.c + 0x4_0000_0000_0000 * (p.b19 % 2),
          p.b19 / 2 + 0x80 * p.d + 0x8000_0000_0000 * (p.b25 % 16),
          p.b25 / 16 + 0x10 * p.e + 0x1000_0000_0000 * (p.b31 % 128))
  }

  lemma PiecesReduced(p: Pieces)
    requires Ranged(p)
    ensures Below(PiecesLimbs(p), 0x8000000000000)
  {
  }

  /** The limbs of the five fields, and nothing but bit 255 left out. */
  lemma PiecesEval(p: Pieces)
    ensures Eval(PiecesLimbs(p)) == PiecesValue(p.(b31 := p.b31 % 128))
  {
  }

  lemma ExpandLimbs(s: seq<u8>)
    requires |s| == 32
    ensures Limbs(LittleEndian(s[0..8]) % 0x8000000000000, LittleEndian(s[6..14]) / 8 % 0x8000000000000,
                  LittleEndian(s[12..20]) / 64 % 0x8000000000000, LittleEndian(s[19..27]) / 2 % 0x8000000000000,
                  LittleEndian(s[24..32]) / 4096 % 0x8000000000000) == PiecesLimbs(Cut(s))
  {
    hide LittleEndian;
    var p := Cut(s);
    Windows(s);
    CutRanged(s);
    PiecesReduced(p);
    var l := PiecesLimbs(p);
    Field51(LittleEndian(s[0..8]), 1, 0, l.l0, p.b6 / 8 + 0x20 * s[7] as int);
    Field51(LittleEndian(s[6..14]), 8, p.b6 % 8, l.l1, p.b12 / 64 + 4 * s[13] as int);
    Field51(LittleEndian(s[12..20]), 64, p.b12 % 64, l.l2, p.b19 / 2);
    Field51(LittleEndian(s[19..27]), 2, p.b19 % 2, l.l3, p.b25 / 16 + 0x10 * s[26] as int);
    Field51(LittleEndian(s[24..32]), 4096, s[24] as int + 0x100 * (p.b25 % 16), l.l4, p.b31 / 128);
  }

  lemma ClearTopBit(s: seq<u8>)
    requires |s| == 32
    ensures LittleEndian(s[31 := s[31] % 128]) == PiecesValue(Cut(s).(b31 := s[31] as int % 128))
  {
    hide LittleEndian, PiecesValue;
    var t := s[31 := s[31] % 128];
    CutValue(t);
    assert t[0..6] == s[0..6] && t[7..12] == s[7..12] && t[13..19] == s[13..19] && t[20..25] == s[20..25]
      && t[26..31] == s[26..31];
  }

  /** output := the u-coordinate, with bit 255 ignored. */
  method Fexpand(output: array<u64>, input: array<u8>)
    requires output.Length == 5 && input.Length == 32
    modifies output
    ensures Reduced(At(output))
    ensures Eval(At(output)) == LittleEndian(input[..][31 := input[31] % 128])
    ensures Value(At(output)) == DecodeU(input[..])
  {
    hide LittleEndian, Eval, F, And, Cut, PiecesLimbs, PiecesValue;
    ghost var s := input[..];
    var i0 := GetLe64(input, 0);
    var i1 := GetLe64(input, 6);
    var i2 := GetLe64(input, 12);
    var i3 := GetLe64(input, 19);
    var i4 := GetLe64(input, 24);
    assert s[0..8] == input[0..8] && s[6..14] == input[6..14] && s[12..20] == input[12..20]
        && s[19..27] == input[19..27] && s[24..32] == input[24..32];
    Mask51(i0); Mask51(i1 / 8); Mask51(i2 / 64); Mask51(i3 / 2); Mask51(i4 / 4096);
    output[0] := And(i0, 0x7ffffffffffff);
    output[1] := And(i1 / 8, 0x7ffffffffffff);
    output[2] := And(i2 / 64, 0x7ffffffffffff);
    output[3] := And(i3 / 2, 0x7ffffffffffff);
    output[4] := And(i4 / 4096, 0x7ffffffffffff);
    ExpandLimbs(s);
    ExpandFinish(s);
  }

  lemma ExpandFinish(s: seq<u8>)
    requires |s| == 32
    ensures Reduced(PiecesLimbs(Cut(s)))
    ensures Eval(PiecesLimbs(Cut(s))) == LittleEndian(s[31 := s[31] % 128])
  {
    hide LittleEndian, Eval, PiecesLimbs, PiecesValue;
    CutRanged(s);
    PiecesReduced(Cut(s));
    PiecesEval(Cut(s));
    ClearTopBit(s);
  }

  // ----- Masks -----

  /** The top bit of a 64-bit word. */
  lemma TopBit64(x: u64)
    ensures x / 0x8000_0000_0000_0000 == Shr(x, 63)
  {
    hide Shr, Pow2;
    ShrIsDiv(x, 63);
    Pow2Word64();
  }

  lemma TopBitOps(x: u64, y: u64)
    ensures Xor(x, y) < 0x1_0000_0000_0000_0000 && Or(x, y) < 0x1_0000_0000_0000_0000
    ensures Xor(x, y) / 0x8000_0000_0000_0000
         == if x / 0x8000_0000_0000_0000 != y / 0x8000_0000_0000_0000 then 1 else 0
    ensures Or(x, y) / 0x8000_0000_0000_0000
         == if x / 0x8000_0000_0000_0000 == 1 || y / 0x8000_0000_0000_0000 == 1 then 1 else 0
  {
    hide Shr, Pow2, Xor, Or;
    Pow2Word64();
    WordBound(x, y, 64);
    TopBit64(x);
    TopBit64(y);
    TopBit64(Xor(x, y));
    TopBit64(Or(x, y));
    ShrOfXor(x, y, 63);
    OneBitOps(Shr(x, 63), Shr(y, 63));
  }

  lemma XorDecides(x: u64, y: u64)
    ensures Xor(x, y) == 0 <==> x == y
  {
    hide Xor;
    XorSelf(x);
    if Xor(x, y) == 0 {
      XorZero(x, y);
    }
  }

  function EqMask(a: u64, b: u64): (c: u64)
  {
    var x := Xor(a, b);
    var minusX := U64(0xffff_ffff_ffff_ffff - x + 1);
    U64(Or(x, minusX) / 0x8000_0000_0000_0000 - 1)
  }

  /** All ones when the words are equal, zero otherwise. */
  lemma EqMaskDecides(a: u64, b: u64)
    ensures EqMask(a, b) == if a == b then 0xffff_ffff_ffff_ffff else 0
  {
    hide Xor, Or;
    TopBitOps(a, b);
    XorDecides(a, b);
    var x: u64 := Xor(a, b);
    TopBitOps(x, U64(0xffff_ffff_ffff_ffff - Xor(a, b) + 1));
  }

  function GteMask(a: u64, b: u64): (c: u64)
  {
    var q := Or(Xor(a, b), Xor(U64(a as int - b as int), b));
    U64(Xor(a, q) / 0x8000_0000_0000_0000 - 1)
  }

  /** All ones when a >= b, zero otherwise: the borrow of a - b, from the top bits alone. */
  lemma GteMaskDecides(a: u64, b: u64)
    ensures GteMask(a, b) == if a >= b then 0xffff_ffff_ffff_ffff else 0
  {
    hide Xor, Or;
    var d := U64(a as int - b as int);
    TopBitOps(a, b);
    TopBitOps(d, b);
    var x, y := Xor(a, b), Xor(d, b);
    TopBitOps(x, y);
    TopBitOps(a, Or(x, y));
    BorrowFromTopBits(a, b, d);
  }

  /** a - b borrows exactly when the top bits of a, b and the difference say so. */
  lemma BorrowFromTopBits(a: u64, b: u64, d: u64)
    requires d == U64(a as int - b as int)
    ensures var ta, tb, td := a / 0x8000_0000_0000_0000, b / 0x8000_0000_0000_0000, d / 0x8000_0000_0000_0000;
            a >= b <==> if ta != tb || td != tb then ta == 1 else ta == 0
  {
  }

  // ----- Contraction -----

  method CarryPass(input: array<u64>)
    requires input.Length == 5
    requires Below(At(input), 0x8000_0000_0000_0000)
    modifies input
    ensures At(input) == Carry(old(At(input)))
  {
    hide And;
    var t0, t1, t2, t3, t4 := input[0], input[1], input[2], input[3], input[4];
    var t1': u64 := t1 + t0 / 0x8000000000000;
    var t2': u64 := t2 + t1' / 0x8000000000000;
    var t3': u64 := t3 + t2' / 0x8000000000000;
    var t4': u64 := t4 + t3' / 0x8000000000000;
    Mask51(t0); Mask51(t1'); Mask51(t2'); Mask51(t3');
    input[0] := And(t0, 0x7ffffffffffff);
    input[1] := And(t1', 0x7ffffffffffff);
    input[2] := And(t2', 0x7ffffffffffff);
    input[3] := And(t3', 0x7ffffffffffff);
    input[4] := t4';
  }

  method ModuloCarryTop(b: array<u64>)
    requires b.Length == 5
    requires FoldTop(At(b)).l0 < 0x1_0000_0000_0000_0000
    modifies b
    ensures At(b) == FoldTop(old(At(b)))
  {
    hide And;
    var b4, b0 := b[4], b[0];
    Mask51(b4);
    b[4] := And(b4, 0x7ffffffffffff);
    b[0] := b0 + 19 * (b4 / 0x8000000000000);
  }

  method FirstCarryFull(input: array<u64>)
    requires input.Length == 5
    requires Reduced(At(input))
    modifies input
    ensures At(input) == FoldTop(Carry(old(At(input))))
  {
    FirstRound(At(input));
    CarryPass(input);
    ModuloCarryTop(input);
  }

  method SecondCarryFull(input: array<u64>)
    requires input.Length == 5
    requires AlmostCarried(At(input))
    modifies input
    ensures At(input) == CarryLow(FoldTop(Carry(old(At(input)))))
  {
    hide And, Carry, FoldTop;
    SecondRound(At(input));
    CarryPass(input);
    ModuloCarryTop(input);
    var i0, i1 := input[0], input[1];
    Mask51(i0);
    input[0] := And(i0, 0x7ffffffffffff);
    input[1] := i1 + i0 / 0x8000000000000;
  }

  /** 51 bits in every limb but the lowest, which may hold one folded carry more. */
  predicate AlmostCarried(y: Limbs)
  {
    && 0 <= y.l0 < 0x8000000000000 + 20 && 0 <= y.l1 < 0x8000000000000 && 0 <= y.l2 < 0x8000000000000
    && 0 <= y.l3 < 0x8000000000000 && 0 <= y.l4 < 0x8000000000000
  }

  lemma FirstRound(x: Limbs)
    requires Reduced(x)
    ensures AlmostCarried(FoldTop(Carry(x)))
  {
  }

  /** A carry into a 51-bit limb comes out of it only when it fills the limb. */
  lemma CarryBit(x: int, c: int) returns (d: int)
    requires 0 <= x < 0x8000000000000 && 0 <= c <= 1
    ensures 0 <= d <= c && d == (x + c) / 0x8000000000000
    ensures (x + c) % 0x8000000000000 == x + c - 0x8000000000000 * d
  {
    d := if x + c == 0x8000000000000 then 1 else 0;
    DivModUnique(x + c, 0x8000000000000, d, x + c - 0x8000000000000 * d);
  }

  lemma CarryOnce(y: Limbs)
    requires AlmostCarried(y)
    ensures var t := Carry(y);
            && 0 <= t.l0 < 0x8000000000000 && 0 <= t.l1 < 0x8000000000000 && 0 <= t.l2 < 0x8000000000000
            && 0 <= t.l3 < 0x8000000000000 && 0 <= t.l4 <= 0x8000000000000
            && (t.l4 == 0x8000000000000 ==> t.l0 < 20)
  {
    var c0 := if y.l0 >= 0x8000000000000 then 1 else 0;
    DivModUnique(y.l0, 0x8000000000000, c0, y.l0 - 0x8000000000000 * c0);
    var c1 := CarryBit(y.l1, c0);
    var c2 := CarryBit(y.l2, c1);
    var c3 := CarryBit(y.l3, c2);
    assert Carry(y) == Limbs(y.l0 - 0x8000000000000 * c0, y.l1 + c0 - 0x8000000000000 * c1,
                             y.l2 + c1 - 0x8000000000000 * c2,
                             y.l3 + c2 - 0x8000000000000 * c3, y.l4 + c3);
  }

  /** After the second round every limb has 51 bits. */
  lemma SecondRound(y: Limbs)
    requires AlmostCarried(y)
    ensures Below(y, 0x8000_0000_0000_0000)
    ensures AlmostCarried(FoldTop(Carry(y)))
    ensures Below(CarryLow(FoldTop(Carry(y))), 0x8000000000000)
  {
    hide Carry;
    CarryOnce(y);
  }

  /** Subtract p when the limbs are those of p or more. */
  function Trim(a: Limbs): Limbs
  {
    if a.l0 >= 0x7ffffffffffed && a.l1 == 0x7ffffffffffff && a.l2 == 0x7ffffffffffff && a.l3 == 0x7ffffffffffff
      && a.l4 == 0x7ffffffffffff
    then Limbs(a.l0 - 0x7ffffffffffed, 0, 0, 0, 0)
    else a
  }

  /** Trimming 51-bit limbs yields the representative below p. */
  lemma TrimCanonical(a: Limbs)
    requires Below(a, 0x8000000000000)
    ensures Below(Trim(a), 0x8000000000000)
    ensures Eval(Trim(a)) == F(Eval(a))
  {
    hide F;
    var t := Eval(Trim(a));
    assert 0 <= t < 0x7fffffffffffffffffffffffffffffffffffffffffffffffffffffffffffffed;
    assert t == Eval(a) || Eval(a) == t + 1 * 0x7fffffffffffffffffffffffffffffffffffffffffffffffffffffffffffffed;
    Canonical(t);
    if t != Eval(a) {
      Congruent(Eval(a), t, 1);
    }
  }

  method FcontractTrim(input: array<u64>)
    requires input.Length == 5
    requires Below(At(input), 0x8000000000000)
    modifies input
    ensures At(input) == Trim(old(At(input)))
  {
    hide And, EqMask, GteMask;
    var a0, a1, a2, a3, a4 := input[0], input[1], input[2], input[3], input[4];
    GteMaskDecides(a0, 0x7ffffffffffed);
    EqMaskDecides(a1, 0x7ffffffffffff);
    EqMaskDecides(a2, 0x7ffffffffffff);
    EqMaskDecides(a3, 0x7ffffffffffff);
    EqMaskDecides(a4, 0x7ffffffffffff);
    var mask0, mask1 := GteMask(a0, 0x7ffffffffffed), EqMask(a1, 0x7ffffffffffff);
    var mask2, mask3, mask4 := EqMask(a2, 0x7ffffffffffff), EqMask(a3, 0x7ffffffffffff), EqMask(a4, 0x7ffffffffffff);
    Masked(mask0, mask1);
    Masked(And(mask0, mask1), mask2);
    Masked(And(And(mask0, mask1), mask2), mask3);
    Masked(And(And(And(mask0, mask1), mask2), mask3), mask4);
    var mask: u64 := And(And(And(And(mask0, mask1), mask2), mask3), mask4);
    Masked(0x7ffffffffffed, mask);
    Masked(0x7ffffffffffff, mask);
    input[0] := a0 - And(0x7ffffffffffed, mask);
    input[1] := a1 - And(0x7ffffffffffff, mask);
    input[2] := a2 - And(0x7ffffffffffff, mask);
    input[3] := a3 - And(0x7ffffffffffff, mask);
    input[4] := a4 - And(0x7ffffffffffff, mask);
  }

  /** `(hi << k) | lo` in a 64-bit word, for a `lo` below 2^k. */
  lemma ShiftOr(hi: nat, lo: nat, k: nat, w: nat, v: nat)
    requires k <= 64 && w == Pow2(k) && v * w == 0x1_0000_0000_0000_0000 && lo < w
    ensures Or(hi * w % 0x1_0000_0000_0000_0000, lo) == hi % v * w + lo
  {
    hide Or, Pow2;
    ScaledRemainder(hi, v, w);
    DivModUnique(hi * w, 0x1_0000_0000_0000_0000, hi / v, hi % v * w);
    OrDisjoint(hi % v, lo, k);
  }

  /** Shift amounts of the store, as powers of two. */
  lemma StoreShifts(n: nat)
    ensures n == 51 ==> Pow2(n) == 0x8000000000000
    ensures n == 38 ==> Pow2(n) == 0x4000000000
    ensures n == 25 ==> Pow2(n) == 0x2000000
    ensures n == 12 ==> Pow2(n) == 0x1000
  {
    if n == 51 { Pow2Limb51(); }
    if n == 38 { Pow2By8(0); Pow2By8(8); Pow2By8(16); Pow2By8(24); }
    if n == 25 { Pow2By8(0); Pow2By8(8); Pow2By8(16); }
    if n == 12 { Pow2By8(0); }
  }

  /** output := the 255-bit integer of five 51-bit limbs, little-endian. */
  method FcontractStore(output: array<u8>, input: array<u64>)
    requires output.Length == 32 && input.Length == 5
    requires Below(At(input), 0x8000000000000)
    modifies output
    ensures output[..] == Encode(Eval(At(input)), 32)
  {
    hide Or, Encode, LittleEndian, Pow2, Eval;
    var t0, t1, t2, t3, t4 := input[0], input[1], input[2], input[3], input[4];
    StoreShifts(51); StoreShifts(38); StoreShifts(25); StoreShifts(12);
    ShiftOr(t1, t0, 51, 0x8000000000000, 0x2000);
    ShiftOr(t2, t1 / 0x2000, 38, 0x4000000000, 0x4000000);
    ShiftOr(t3, t2 / 0x4000000, 25, 0x2000000, 0x8000000000);
    ShiftOr(t4, t3 / 0x8000000000, 12, 0x1000, 0x10000000000000);
    var o0: u64 := Or(t1 as int * 0x8000000000000 % 0x1_0000_0000_0000_0000, t0);
    var o1: u64 := Or(t2 as int * 0x4000000000 % 0x1_0000_0000_0000_0000, t1 / 0x2000);
    var o2: u64 := Or(t3 as int * 0x2000000 % 0x1_0000_0000_0000_0000, t2 / 0x4000000);
    var o3: u64 := Or(t4 as int * 0x1000 % 0x1_0000_0000_0000_0000, t3 / 0x8000000000);
    PutLe64(o0, output, 0);
    PutLe64(o1, output, 8);
    PutLe64(o2, output, 16);
    PutLe64(o3, output, 24);
    assert output[..] == Encode(o0, 8) + (Encode(o1, 8) + (Encode(o2, 8) + Encode(o3, 8)));
    FourWords(o0, o1, o2, o3);
    StoredValue(At(input));
  }

  /** Four 64-bit words cut from five 51-bit limbs hold the same integer. */
  lemma StoredValue(x: Limbs)
    requires Below(x, 0x8000000000000)
    ensures Eval(x) == x.l1 % 0x2000 * 0x8000000000000 + x.l0 + 0x1_0000_0000_0000_0000 * (
                       x.l2 % 0x4000000 * 0x4000000000 + x.l1 / 0x2000 + 0x1_0000_0000_0000_0000 * (
                       x.l3 % 0x8000000000 * 0x2000000 + x.l2 / 0x4000000 + 0x1_0000_0000_0000_0000 * (
                       x.l4 % 0x10000000000000 * 0x1000 + x.l3 / 0x8000000000)))
  {
  }

  lemma FourWords(o0: u64, o1: u64, o2: u64, o3: u64)
    ensures Encode(o0, 8) + (Encode(o1, 8) + (Encode(o2, 8) + Encode(o3, 8)))
         == Encode(o0 as int + 0x1_0000_0000_0000_0000 *
                   (o1 as int + 0x1_0000_0000_0000_0000 *
                   (o2 as int + 0x1_0000_0000_0000_0000 * o3 as int)), 32)
  {
    hide Encode, LittleEndian, Pow2;
    Pow2Word64();
    var b0, b1, b2, b3 := Encode(o0, 8), Encode(o1, 8), Encode(o2, 8), Encode(o3, 8);
    DecodeEncodes(o0, 8);
    DecodeEncodes(o1, 8);
    DecodeEncodes(o2, 8);
    DecodeEncodes(o3, 8);
    LittleEndianConcat(b2, b3);
    LittleEndianConcat(b1, b2 + b3);
    LittleEndianConcat(b0, b1 + (b2 + b3));
    EncodeDecodes(b0 + (b1 + (b2 + b3)));
  }

  /** output := the little-endian bytes of the unique representative below p. */
  method Fcontract(output: array<u8>, input: array<u64>)
    requires output.Length == 32 && input.Length == 5
    requires Reduced(At(input))
    modifies output, input
    ensures output[..] == Encode(old(Value(At(input))), 32)
  {
    hide Carry, FoldTop, CarryLow, Trim, Eval, F, Encode, Reduced, AlmostCarried, At;
    ContractValue(At(input));
    FirstCarryFull(input);
    SecondCarryFull(input);
    FcontractTrim(input);
    FcontractStore(output, input);
  }

  lemma ContractValue(x: Limbs)
    requires Reduced(x)
    ensures AlmostCarried(FoldTop(Carry(x)))
    ensures var z := CarryLow(FoldTop(Carry(FoldTop(Carry(x)))));
            Below(z, 0x8000000000000) && Below(Trim(z), 0x8000000000000) && Eval(Trim(z)) == Value(x)
  {
    hide Carry, FoldTop, CarryLow, Trim, Eval, F, Reduced, AlmostCarried;
    var y := FoldTop(Carry(x));
    var z := CarryLow(FoldTop(Carry(y)));
    FirstRound(x);
    SecondRound(y);
    CarryPreserves(x);
    FoldTopPreserves(Carry(x));
    ReducePreserves(y);
    TrimCanonical(z);
  }

  /** Contracting what was expanded gives the string back, its top bit cleared, reduced modulo p. */
  method ContractExpanded(output: array<u8>, input: array<u8>)
    requires output.Length == 32 && input.Length == 32
    modifies output
    ensures output[..] == Encode(F(LittleEndian(old(input[..][31 := input[31] % 128]))), 32)
  {
    hide LittleEndian, Encode, F, Eval, Reduced;
    var limbs := new u64[5];
    Fexpand(limbs, input);
    Fcontract(output, limbs);
  }
}
