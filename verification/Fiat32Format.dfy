/** Bytes to limbs and back for the 32-bit implementation. */
module Fiat32Format {
  import opened Bits
  import opened Field
  import opened Rfc7748
  import opened Radix51
  import opened Fiat32Field

  // ----- Words in a byte string -----

  /** Eight 32-bit words, most significant last. */
  function Words(a0: int, a1: int, a2: int, a3: int, a4: int, a5: int, a6: int, a7: int): int
  {
    a0 + 0x1_0000_0000 * (a1 + 0x1_0000_0000 * (a2 + 0x1_0000_0000 * (a3 + 0x1_0000_0000 * (a4
    + 0x1_0000_0000 * (a5 + 0x1_0000_0000 * (a6 + 0x1_0000_0000 * a7))))))
  }

  lemma Pow2Word32()
    ensures Pow2(32) == 0x1_0000_0000
  {
    Pow2By8(0); Pow2By8(8); Pow2By8(16); Pow2By8(24);
  }

  lemma WordsOfBytes(s: seq<u8>)
    requires |s| == 32
    ensures LittleEndian(s) == Words(LittleEndian(s[0..4]), LittleEndian(s[4..8]), LittleEndian(s[8..12]),
                                     LittleEndian(s[12..16]),
                                     LittleEndian(s[16..20]), LittleEndian(s[20..24]), LittleEndian(s[24..28]),
                                       LittleEndian(s[28..32]))
  {
    hide LittleEndian, Pow2;
    Pow2Word32();
    var t6 := s[24..28] + s[28..32];
    var t5 := s[20..24] + t6;
    var t4 := s[16..20] + t5;
    var t3 := s[12..16] + t4;
    var t2 := s[8..12] + t3;
    var t1 := s[4..8] + t2;
    assert s == s[0..4] + t1;
    LittleEndianConcat(s[24..28], s[28..32]);
    LittleEndianConcat(s[20..24], t6);
    LittleEndianConcat(s[16..20], t5);
    LittleEndianConcat(s[12..16], t4);
    LittleEndianConcat(s[8..12], t3);
    LittleEndianConcat(s[4..8], t2);
    LittleEndianConcat(s[0..4], t1);
  }

  lemma FourBytes(a: u8, b: u8, c: u8, d: u8)
    ensures LittleEndian([a, b, c, d]) == a as int + 0x100 * b as int + 0x1_0000 * c as int + 0x100_0000 * d as int
  {
    assert [d][1..] == [] && [c, d][1..] == [d] && [b, c, d][1..] == [c, d] && [a, b, c, d][1..] == [b, c, d];
    assert LittleEndian([d]) == d;
    assert LittleEndian([c, d]) == c as int + 0x100 * d as int;
    assert LittleEndian([b, c, d]) == b as int + 0x100 * LittleEndian([c, d]);
  }

  method GetLe32(a: array<u8>, o: nat) returns (l: u32)
    requires o + 4 <= a.Length
    ensures l == LittleEndian(a[o..o + 4])
  {
    LittleEndianBound(a[o..o + 4]);
    Pow2Word32();
    l := LittleEndian(a[o..o + 4]);
  }

  // ----- From bytes -----

  /** The ten fields of eight words; bit 255 is in none of them. */
  function Unpack(a0: int, a1: int, a2: int, a3: int, a4: int, a5: int, a6: int, a7: int): Fe
  {
    Fe(Limbs(a0 % 0x4000000, a1 / 0x80000 + a2 % 0x2000 * 0x2000, a3 / 0x40,
             a4 / 0x2000000 + a5 % 0x80000 * 0x80, a6 / 0x1000 + a7 % 0x40 * 0x100000),
       Limbs(a0 / 0x4000000 + a1 % 0x80000 * 0x40, a2 / 0x2000 + a3 % 0x40 * 0x80000, a4 % 0x2000000,
             a5 / 0x80000 + a6 % 0x1000 * 0x2000, a7 / 0x40 % 0x2000000))
  }

  lemma UnpackValue(a0: u32, a1: u32, a2: u32, a3: u32, a4: u32, a5: u32, a6: u32, a7: u32)
    ensures Eval32(Unpack(a0, a1, a2, a3, a4, a5, a6, a7)) == Words(a0, a1, a2, a3, a4, a5, a6, a7 % 0x8000_0000)
  {
    TopField(a7);
  }

  /** The top word without its highest bit, split where the last two limbs meet. */
  lemma TopField(a: u32)
    ensures a % 0x8000_0000 == a % 0x40 + 0x40 * (a / 0x40 % 0x2000000)
  {
  }

  lemma UnpackTight(a0: u32, a1: u32, a2: u32, a3: u32, a4: u32, a5: u32, a6: u32, a7: u32)
    ensures Tight(Unpack(a0, a1, a2, a3, a4, a5, a6, a7))
  {
  }

  lemma LowBits(x: nat, k: nat, w: nat)
    requires w == Pow2(k)
    ensures And(x, w - 1) == x % w
  {
    AndLowMask(x, k);
  }

  /** `(x >> ..) | ((y & (2^k - 1)) << j)` for a low part below 2^j. */
  lemma Field32(lo: nat, y: nat, k: nat, w: nat, j: nat, v: nat)
    requires w == Pow2(k) && v == Pow2(j) && lo < v
    ensures Or(lo, And(y, w - 1) * v) == lo + y % w * v
  {
    hide Or, And, Pow2;
    LowBits(y, k, w);
    OrAbove(lo, y % w, j, v);
  }

  /** h := the u-coordinate, with bit 255 ignored. */
  method FeFromBytes(h: array<u32>, s: array<u8>)
    requires h.Length == 10 && s.Length == 32
    modifies h
    ensures Tight(At32(h))
    ensures Eval32(At32(h)) == LittleEndian(s[..][31 := s[31] % 128])
    ensures Value32(At32(h)) == DecodeU(s[..])
  {
    hide LittleEndian, Eval32, Words, Tight, Unpack;
    var a0 := GetLe32(s, 0);
    var a1 := GetLe32(s, 4);
    var a2 := GetLe32(s, 8);
    var a3 := GetLe32(s, 12);
    var a4 := GetLe32(s, 16);
    var a5 := GetLe32(s, 20);
    var a6 := GetLe32(s, 24);
    var a7 := GetLe32(s, 28);
    Store32(h, a0, a1, a2, a3, a4, a5, a6, a7);
    UnpackTight(a0, a1, a2, a3, a4, a5, a6, a7);
    UnpackValue(a0, a1, a2, a3, a4, a5, a6, a7);
    ghost var b := s[..];
    assert b[0..4] == s[0..4] && b[4..8] == s[4..8] && b[8..12] == s[8..12] && b[12..16] == s[12..16];
    assert b[16..20] == s[16..20] && b[20..24] == s[20..24] && b[24..28] == s[24..28] && b[28..32] == s[28..32];
    TopWord(b);
  }

  /** Clearing bit 255 touches only the last word. */
  lemma TopWord(s: seq<u8>)
    requires |s| == 32
    ensures LittleEndian(s[31 := s[31] % 128])
         == Words(LittleEndian(s[0..4]), LittleEndian(s[4..8]), LittleEndian(s[8..12]), LittleEndian(s[12..16]),
                  LittleEndian(s[16..20]), LittleEndian(s[20..24]), LittleEndian(s[24..28]),
                    LittleEndian(s[28..32]) % 0x8000_0000)
  {
    hide LittleEndian, Words;
    var t := s[31 := s[31] % 128];
    WordsOfBytes(t);
    assert t[0..4] == s[0..4] && t[4..8] == s[4..8] && t[8..12] == s[8..12] && t[12..16] == s[12..16];
    assert t[16..20] == s[16..20] && t[20..24] == s[20..24] && t[24..28] == s[24..28];
    assert t[28..32] == [s[28], s[29], s[30], s[31] % 128] && s[28..32] == [s[28], s[29], s[30], s[31]];
    FourBytes(s[28], s[29], s[30], s[31] % 128);
    FourBytes(s[28], s[29], s[30], s[31]);
    TopByte(s[28] as int + 0x100 * s[29] as int + 0x1_0000 * s[30] as int, s[31]);
  }

  lemma TopByte(x: int, b: u8)
    requires 0 <= x < 0x100_0000
    ensures (x + 0x100_0000 * b as int) % 0x8000_0000 == x + 0x100_0000 * (b % 128) as int
  {
    DivModUnique(x + 0x100_0000 * b as int, 0x8000_0000, b as int / 128, x + 0x100_0000 * (b % 128) as int);
  }

  method Store32(h: array<u32>, a0: u32, a1: u32, a2: u32, a3: u32, a4: u32, a5: u32, a6: u32, a7: u32)
    requires h.Length == 10
    modifies h
    ensures At32(h) == Unpack(a0, a1, a2, a3, a4, a5, a6, a7)
  {
    StoreFields0To4(h, a0, a1, a2, a3);
    StoreFields5To9(h, a4, a5, a6, a7);
  }

  method StoreFields0To4(h: array<u32>, a0: u32, a1: u32, a2: u32, a3: u32)
    requires h.Length == 10
    modifies h
    ensures h[0] == a0 % 0x4000000 && h[1] as int == a0 as int / 0x4000000 + a1 as int % 0x80000 * 0x40
    ensures h[2] as int == a1 as int / 0x80000 + a2 as int % 0x2000 * 0x2000
    ensures h[3] as int == a2 as int / 0x2000 + a3 as int % 0x40 * 0x80000 && h[4] == a3 / 0x40
  {
    hide And, Or, Pow2;
    Pow2Limb26();
    Pow2Small(6); Pow2Small(13); Pow2Small(19);
    LowBits(a0, 26, 0x4000000);
    Field32(a0 / 0x4000000, a1, 19, 0x80000, 6, 0x40);
    Field32(a1 / 0x80000, a2, 13, 0x2000, 13, 0x2000);
    Field32(a2 / 0x2000, a3, 6, 0x40, 19, 0x80000);
    h[0] := And(a0, 0x3ffffff);
    h[1] := Or(a0 / 0x4000000, And(a1, 0x7ffff) * 0x40);
    h[2] := Or(a1 / 0x80000, And(a2, 0x1fff) * 0x2000);
    h[3] := Or(a2 / 0x2000, And(a3, 0x3f) * 0x80000);
    h[4] := a3 / 0x40;
  }

  method StoreFields5To9(h: array<u32>, a4: u32, a5: u32, a6: u32, a7: u32)
    requires h.Length == 10
    modifies h
    ensures h[0] == old(h[0]) && h[1] == old(h[1]) && h[2] == old(h[2]) && h[3] == old(h[3]) && h[4] == old(h[4])
    ensures h[5] == a4 % 0x2000000 && h[6] as int == a4 as int / 0x2000000 + a5 as int % 0x80000 * 0x80
    ensures h[7] as int == a5 as int / 0x80000 + a6 as int % 0x1000 * 0x2000
    ensures h[8] as int == a6 as int / 0x1000 + a7 as int % 0x40 * 0x100000 && h[9] == a7 / 0x40 % 0x2000000
  {
    hide And, Or, Pow2;
    Pow2Limb26();
    Pow2Small(6); Pow2Small(7); Pow2Small(12); Pow2Small(13); Pow2Small(19); Pow2Small(20);
    LowBits(a4, 25, 0x2000000);
    Field32(a4 / 0x2000000, a5, 19, 0x80000, 7, 0x80);
    Field32(a5 / 0x80000, a6, 12, 0x1000, 13, 0x2000);
    Field32(a6 / 0x1000, a7, 6, 0x40, 20, 0x100000);
    LowBits(a7 / 0x40, 25, 0x2000000);
    h[5] := And(a4, 0x1ffffff);
    h[6] := Or(a4 / 0x2000000, And(a5, 0x7ffff) * 0x80);
    h[7] := Or(a5 / 0x80000, And(a6, 0xfff) * 0x2000);
    h[8] := Or(a6 / 0x1000, And(a7, 0x3f) * 0x100000);
    h[9] := And(a7 / 0x40, 0x1ffffff);
  }

  // ----- Freezing -----

  function U32(x: int): (r: u32)
  {
    x % 0x1_0000_0000
  }

  /** a - b - c in `w` bits, and the borrow: the sign bit of the 32-bit difference. */
  function SubBorrow(c: int, a: int, b: int, w: nat): (r: (nat, nat))
    requires w > 0
  {
    var x := U32(a - b - c);
    (And(x, w - 1), x / 0x8000_0000)
  }

  /** a + b + c in `w` bits, and the carry. */
  function AddCarry(c: int, a: int, b: int, w: nat): (r: (nat, nat))
    requires w > 0
  {
    var x := U32(a + b + c);
    (And(x, w - 1), x / w % 2)
  }

  lemma SubBorrowExact(c: int, a: int, b: int, k: nat, w: nat)
    requires w == Pow2(k) && (w == 0x4000000 || w == 0x2000000) && 0 <= c <= 1
    requires -(w as int) <= a - b - c < w
    ensures var r := SubBorrow(c, a, b, w);
            0 <= r.0 < w && 0 <= r.1 <= 1 && r.0 == a - b - c + w * r.1
  {
    hide And, Pow2;
    var d := a - b - c;
    var x := U32(d);
    LowBits(x, k, w);
    if d >= 0 {
      DivModUnique(d, 0x1_0000_0000, 0, d);
    } else {
      DivModUnique(d, 0x1_0000_0000, -1, d + 0x1_0000_0000);
      if w == 0x4000000 { DivModUnique(x, w, 63, d + w); } else { DivModUnique(x, w, 127, d + w); }
    }
  }

  lemma AddCarryExact(c: int, a: int, b: int, k: nat, w: nat)
    requires w == Pow2(k) && (w == 0x4000000 || w == 0x2000000) && 0 <= c <= 1
    requires 0 <= a < w && 0 <= b < w
    ensures var r := AddCarry(c, a, b, w);
            0 <= r.0 < w && 0 <= r.1 <= 1 && r.0 == a + b + c - w * r.1
  {
    hide And, Pow2;
    var x := a + b + c;
    assert U32(x) == x;
    LowBits(x, k, w);
    if x < w { DivModUnique(x, w, 0, x); } else { DivModUnique(x, w, 1, x - w); }
  }

  /** Every limb within its 26 or 25 bits. */
  predicate Packed(x: Fe)
  {
    Below(x.ev, 0x4000000) && Below(x.od, 0x2000000)
  }

  /** h - p, limb by limb with borrows b0 to b9. */
  function Borrowed(h: Fe, b0: int, b1: int, b2: int, b3: int, b4: int, b5: int, b6: int, b7: int, b8: int, b9: int): Fe
  {
    Fe(Limbs(h.ev.l0 - 0x3ffffed + 0x4000000 * b0, h.ev.l1 - 0x3ffffff - b1 + 0x4000000 * b2,
             h.ev.l2 - 0x3ffffff - b3 + 0x4000000 * b4, h.ev.l3 - 0x3ffffff - b5 + 0x4000000 * b6,
               h.ev.l4 - 0x3ffffff - b7 + 0x4000000 * b8),
       Limbs(h.od.l0 - 0x1ffffff - b0 + 0x2000000 * b1, h.od.l1 - 0x1ffffff - b2 + 0x2000000 * b3,
             h.od.l2 - 0x1ffffff - b4 + 0x2000000 * b5, h.od.l3 - 0x1ffffff - b6 + 0x2000000 * b7,
               h.od.l4 - 0x1ffffff - b8 + 0x2000000 * b9))
  }

  lemma BorrowIdentity(h: Fe, b0: int, b1: int, b2: int, b3: int, b4: int, b5: int, b6: int, b7: int, b8: int, b9: int)
    ensures Eval32(Borrowed(h, b0, b1, b2, b3, b4, b5, b6, b7, b8, b9))
         == Eval32(h) - 0x7fffffffffffffffffffffffffffffffffffffffffffffffffffffffffffffed
            + 0x8000000000000000000000000000000000000000000000000000000000000000 * b9
  {
  }

  /** y + m p, limb by limb with carries c0 to c9. */
  function Added(y: Fe, m: int, c0: int, c1: int, c2: int, c3: int, c4: int, c5: int, c6: int, c7: int, c8: int,
                 c9: int): Fe
  {
    Fe(Limbs(y.ev.l0 + m * 0x3ffffed - 0x4000000 * c0, y.ev.l1 + m * 0x3ffffff + c1 - 0x4000000 * c2,
             y.ev.l2 + m * 0x3ffffff + c3 - 0x4000000 * c4, y.ev.l3 + m * 0x3ffffff + c5 - 0x4000000 * c6,
               y.ev.l4 + m * 0x3ffffff + c7 - 0x4000000 * c8),
       Limbs(y.od.l0 + m * 0x1ffffff + c0 - 0x2000000 * c1, y.od.l1 + m * 0x1ffffff + c2 - 0x2000000 * c3,
             y.od.l2 + m * 0x1ffffff + c4 - 0x2000000 * c5, y.od.l3 + m * 0x1ffffff + c6 - 0x2000000 * c7,
               y.od.l4 + m * 0x1ffffff + c8 - 0x2000000 * c9))
  }

  lemma AddIdentity(y: Fe, m: int, c0: int, c1: int, c2: int, c3: int, c4: int, c5: int, c6: int, c7: int, c8: int,
                    c9: int)
    requires m == 0 || m == 1
    ensures Eval32(Added(y, m, c0, c1, c2, c3, c4, c5, c6, c7, c8, c9))
         == Eval32(y) + m * 0x7fffffffffffffffffffffffffffffffffffffffffffffffffffffffffffffed
            - 0x8000000000000000000000000000000000000000000000000000000000000000 * c9
  {
  }

  /** Subtract p through all ten limbs; the final borrow says whether the value was below p. */
  function SubtractP(h: Fe): (r: (Fe, nat))
  {
    var s0 := SubBorrow(0, h.ev.l0, 0x3ffffed, 0x4000000);
    var s1 := SubBorrow(s0.1, h.od.l0, 0x1ffffff, 0x2000000);
    var s2 := SubBorrow(s1.1, h.ev.l1, 0x3ffffff, 0x4000000);
    var s3 := SubBorrow(s2.1, h.od.l1, 0x1ffffff, 0x2000000);
    var s4 := SubBorrow(s3.1, h.ev.l2, 0x3ffffff, 0x4000000);
    var s5 := SubBorrow(s4.1, h.od.l2, 0x1ffffff, 0x2000000);
    var s6 := SubBorrow(s5.1, h.ev.l3, 0x3ffffff, 0x4000000);
    var s7 := SubBorrow(s6.1, h.od.l3, 0x1ffffff, 0x2000000);
    var s8 := SubBorrow(s7.1, h.ev.l4, 0x3ffffff, 0x4000000);
    var s9 := SubBorrow(s8.1, h.od.l4, 0x1ffffff, 0x2000000);
    (Fe(Limbs(s0.0, s2.0, s4.0, s6.0, s8.0), Limbs(s1.0, s3.0, s5.0, s7.0, s9.0)), s9.1)
  }

  /** Add p back through all ten limbs when the mask is all ones; the final carry is dropped. */
  function AddBackP(y: Fe, mask: u32): Fe
  {
    var a0 := AddCarry(0, y.ev.l0, And(mask, 0x3ffffed), 0x4000000);
    var a1 := AddCarry(a0.1, y.od.l0, And(mask, 0x1ffffff), 0x2000000);
    var a2 := AddCarry(a1.1, y.ev.l1, And(mask, 0x3ffffff), 0x4000000);
    var a3 := AddCarry(a2.1, y.od.l1, And(mask, 0x1ffffff), 0x2000000);
    var a4 := AddCarry(a3.1, y.ev.l2, And(mask, 0x3ffffff), 0x4000000);
    var a5 := AddCarry(a4.1, y.od.l2, And(mask, 0x1ffffff), 0x2000000);
    var a6 := AddCarry(a5.1, y.ev.l3, And(mask, 0x3ffffff), 0x4000000);
    var a7 := AddCarry(a6.1, y.od.l3, And(mask, 0x1ffffff), 0x2000000);
    var a8 := AddCarry(a7.1, y.ev.l4, And(mask, 0x3ffffff), 0x4000000);
    var a9 := AddCarry(a8.1, y.od.l4, And(mask, 0x1ffffff), 0x2000000);
    Fe(Limbs(a0.0, a2.0, a4.0, a6.0, a8.0), Limbs(a1.0, a3.0, a5.0, a7.0, a9.0))
  }

  lemma SubtractPExact(h: Fe)
    requires Tight(h)
    ensures var r := SubtractP(h);
            && Packed(r.0) && 0 <= r.1 <= 1
            && Eval32(r.0) == Eval32(h) - 0x7fffffffffffffffffffffffffffffffffffffffffffffffffffffffffffffed
                              + 0x8000000000000000000000000000000000000000000000000000000000000000 * r.1
  {
    hide SubBorrow, Eval32, Pow2;
    Pow2Limb26();
    SubBorrowExact(0, h.ev.l0, 0x3ffffed, 26, 0x4000000);
    var s0 := SubBorrow(0, h.ev.l0, 0x3ffffed, 0x4000000);
    SubBorrowExact(s0.1, h.od.l0, 0x1ffffff, 25, 0x2000000);
    var s1 := SubBorrow(s0.1, h.od.l0, 0x1ffffff, 0x2000000);
    SubBorrowExact(s1.1, h.ev.l1, 0x3ffffff, 26, 0x4000000);
    var s2 := SubBorrow(s1.1, h.ev.l1, 0x3ffffff, 0x4000000);
    SubBorrowExact(s2.1, h.od.l1, 0x1ffffff, 25, 0x2000000);
    var s3 := SubBorrow(s2.1, h.od.l1, 0x1ffffff, 0x2000000);
    SubBorrowExact(s3.1, h.ev.l2, 0x3ffffff, 26, 0x4000000);
    var s4 := SubBorrow(s3.1, h.ev.l2, 0x3ffffff, 0x4000000);
    SubBorrowExact(s4.1, h.od.l2, 0x1ffffff, 25, 0x2000000);
    var s5 := SubBorrow(s4.1, h.od.l2, 0x1ffffff, 0x2000000);
    SubBorrowExact(s5.1, h.ev.l3, 0x3ffffff, 26, 0x4000000);
    var s6 := SubBorrow(s5.1, h.ev.l3, 0x3ffffff, 0x4000000);
    SubBorrowExact(s6.1, h.od.l3, 0x1ffffff, 25, 0x2000000);
    var s7 := SubBorrow(s6.1, h.od.l3, 0x1ffffff, 0x2000000);
    SubBorrowExact(s7.1, h.ev.l4, 0x3ffffff, 26, 0x4000000);
    var s8 := SubBorrow(s7.1, h.ev.l4, 0x3ffffff, 0x4000000);
    SubBorrowExact(s8.1, h.od.l4, 0x1ffffff, 25, 0x2000000);
    var s9 := SubBorrow(s8.1, h.od.l4, 0x1ffffff, 0x2000000);
    BorrowIdentity(h, s0.1, s1.1, s2.1, s3.1, s4.1, s5.1, s6.1, s7.1, s8.1, s9.1);
    assert SubtractP(h).0 == Borrowed(h, s0.1, s1.1, s2.1, s3.1, s4.1, s5.1, s6.1, s7.1, s8.1, s9.1);
  }

  lemma AddBackPExact(y: Fe, m: int, mask: u32) returns (c: int)
    requires Packed(y) && (m == 0 || m == 1) && mask as int == m * 0xffff_ffff
    ensures 0 <= c <= 1 && Packed(AddBackP(y, mask))
    ensures Eval32(AddBackP(y, mask))
      == Eval32(y) + m * 0x7fffffffffffffffffffffffffffffffffffffffffffffffffffffffffffffed
                                      - 0x8000000000000000000000000000000000000000000000000000000000000000 * c
  {
    hide AddCarry, Eval32, Pow2, And;
    Masked32(0x3ffffed, mask);
    Masked32(0x3ffffff, mask);
    Masked32(0x1ffffff, mask);
    Pow2Limb26();
    AddCarryExact(0, y.ev.l0, And(mask, 0x3ffffed), 26, 0x4000000);
    var a0 := AddCarry(0, y.ev.l0, And(mask, 0x3ffffed), 0x4000000);
    AddCarryExact(a0.1, y.od.l0, And(mask, 0x1ffffff), 25, 0x2000000);
    var a1 := AddCarry(a0.1, y.od.l0, And(mask, 0x1ffffff), 0x2000000);
    AddCarryExact(a1.1, y.ev.l1, And(mask, 0x3ffffff), 26, 0x4000000);
    var a2 := AddCarry(a1.1, y.ev.l1, And(mask, 0x3ffffff), 0x4000000);
    AddCarryExact(a2.1, y.od.l1, And(mask, 0x1ffffff), 25, 0x2000000);
    var a3 := AddCarry(a2.1, y.od.l1, And(mask, 0x1ffffff), 0x2000000);
    AddCarryExact(a3.1, y.ev.l2, And(mask, 0x3ffffff), 26, 0x4000000);
    var a4 := AddCarry(a3.1, y.ev.l2, And(mask, 0x3ffffff), 0x4000000);
    AddCarryExact(a4.1, y.od.l2, And(mask, 0x1ffffff), 25, 0x2000000);
    var a5 := AddCarry(a4.1, y.od.l2, And(mask, 0x1ffffff), 0x2000000);
    AddCarryExact(a5.1, y.ev.l3, And(mask, 0x3ffffff), 26, 0x4000000);
    var a6 := AddCarry(a5.1, y.ev.l3, And(mask, 0x3ffffff), 0x4000000);
    AddCarryExact(a6.1, y.od.l3, And(mask, 0x1ffffff), 25, 0x2000000);
    var a7 := AddCarry(a6.1, y.od.l3, And(mask, 0x1ffffff), 0x2000000);
    AddCarryExact(a7.1, y.ev.l4, And(mask, 0x3ffffff), 26, 0x4000000);
    var a8 := AddCarry(a7.1, y.ev.l4, And(mask, 0x3ffffff), 0x4000000);
    AddCarryExact(a8.1, y.od.l4, And(mask, 0x1ffffff), 25, 0x2000000);
    var a9 := AddCarry(a8.1, y.od.l4, And(mask, 0x1ffffff), 0x2000000);
    AddIdentity(y, m, a0.1, a1.1, a2.1, a3.1, a4.1, a5.1, a6.1, a7.1, a8.1, a9.1);
    assert AddBackP(y, mask) == Added(y, m, a0.1, a1.1, a2.1, a3.1, a4.1, a5.1, a6.1, a7.1, a8.1, a9.1);
    c := a9.1;
  }

  lemma PackedRange(x: Fe)
    requires Packed(x)
    ensures 0 <= Eval32(x) < 0x8000000000000000000000000000000000000000000000000000000000000000
  {
  }

  lemma TightRange(x: Fe)
    requires Tight(x)
    ensures 0 <= Eval32(x) < 2 * 0x7fffffffffffffffffffffffffffffffffffffffffffffffffffffffffffffed
  {
  }

  /** `nz` when t is not zero, `z` when it is. */
  function Cmovznz32(t: u32, z: u32, nz: u32): (r: nat)
  {
    var m := if t != 0 then 0xffff_ffff else 0;
    Or(And(m, nz), And(0xffff_ffff - m, z))
  }

  lemma Selected(t: u32, z: u32, nz: u32)
    ensures Cmovznz32(t, z, nz) == if t != 0 then nz else z
  {
    hide And, Or;
    Masked32(nz, 0xffff_ffff);
    Masked32(nz, 0);
    Masked32(z, 0xffff_ffff);
    Masked32(z, 0);
  }

  function Freeze(h: Fe): Fe
  {
    var r := SubtractP(h);
    AddBackP(r.0, U32(Cmovznz32(U32(r.1), 0, 0xffff_ffff)))
  }

  /** Freezing tight limbs yields the representative below p, every limb within its bits. */
  lemma FreezeCanonical(h: Fe)
    requires Tight(h)
    ensures Packed(Freeze(h)) && Eval32(Freeze(h)) == Value32(h)
  {
    hide SubtractP, AddBackP, Eval32, F, Tight, Packed, Cmovznz32;
    var r := SubtractP(h);
    SubtractPExact(h);
    Selected(U32(r.1), 0, 0xffff_ffff);
    TightRange(h);
    PackedRange(r.0);
    var c := AddBackPExact(r.0, r.1, U32(Cmovznz32(U32(r.1), 0, 0xffff_ffff)));
    var z := Freeze(h);
    PackedRange(z);
    assert 0 <= Eval32(z) < PRIME;
    Canonical(Eval32(z));
    if r.1 == 0 {
      Congruent(Eval32(h), Eval32(z), 1);
    }
  }

  // ----- To bytes -----

  /** The low byte of `(x >> a) | (y << b)` where the shifted x has at most b bits. */
  lemma SharedByte(lo: nat, hi: nat, b: nat, v: nat, u: nat)
    requires b <= 8 && v == Pow2(b) && u * v == 0x100 && lo < v
    ensures Or(lo, hi * v) % 0x100 == lo + hi % u * v
  {
    hide Or, Pow2;
    OrAbove(lo, hi, b, v);
    ScaledRemainder(hi, u, v);
    DivModUnique(lo + hi * v, 0x100, hi / u, lo + hi % u * v);
  }

  /** The four pieces of a limb that byte boundaries cut: its low bits below `a`, two whole bytes, and
      the rest. */
  function Digit(h: int, a: int, k: int): int
    requires a > 0
  {
    if k == 0 then h % a else if k == 1 then h / a % 0x100 else if k == 2 then h / (a * 0x100) % 0x100
      else h / (a * 0x1_0000)
  }

  lemma Digits(h: int, a: int)
    requires a > 0
    ensures h == Digit(h, a, 0) + a * (Digit(h, a, 1) + 0x100 * (Digit(h, a, 2) + 0x100 * Digit(h, a, 3)))
  {
    var q := h / a;
    var q2 := q / 0x100;
    assert h == a * q + h % a;
    QuotientOfQuotient(h, a, 0x100);
    QuotientOfQuotient(h, a, 0x1_0000);
    assert q / 0x1_0000 == q2 / 0x100;
  }

  lemma QuotientOfQuotient(h: int, a: int, b: int)
    requires a > 0 && b > 0
    ensures h / (a * b) == h / a / b
  {
    var q, s := h / a, h % a;
    var r, t := q / b, q % b;
    NestedQuotient(a, b, r, t, s);
    assert h == a * (b * r + t) + s;
    DivModUnique(h, a * b, r, a * t + s);
  }

  lemma NestedQuotient(a: int, b: int, r: int, t: int, s: int)
    requires 0 < a && 0 <= t < b && 0 <= s < a
    ensures a * (b * r + t) + s == r * (a * b) + (a * t + s)
    ensures 0 < a * b && 0 <= a * t + s < a * b
  {
    assert a * (b * r + t) == a * (b * r) + a * t;
    assert a * (b * r) == r * (a * b);
    MulMonotone(a, a, t, b - 1);
    assert a * (b - 1) == a * b - a;
  }

  /** The first 16 bytes hold limbs 0 to 4. */
  predicate LowBytes(s: seq<u8>, x: Fe)
    requires |s| == 32
  {
    && s[0] as int == Digit(x.ev.l0, 0x100, 0)
    && s[1] as int == Digit(x.ev.l0, 0x100, 1)
    && s[2] as int == Digit(x.ev.l0, 0x100, 2)
    && s[3] as int == Digit(x.ev.l0, 0x100, 3) + 4 * Digit(x.od.l0, 0x40, 0)
    && s[4] as int == Digit(x.od.l0, 0x40, 1)
    && s[5] as int == Digit(x.od.l0, 0x40, 2)
    && s[6] as int == Digit(x.od.l0, 0x40, 3) + 8 * Digit(x.ev.l1, 0x20, 0)
    && s[7] as int == Digit(x.ev.l1, 0x20, 1)
    && s[8] as int == Digit(x.ev.l1, 0x20, 2)
    && s[9] as int == Digit(x.ev.l1, 0x20, 3) + 0x20 * Digit(x.od.l1, 8, 0)
    && s[10] as int == Digit(x.od.l1, 8, 1)
    && s[11] as int == Digit(x.od.l1, 8, 2)
    && s[12] as int == Digit(x.od.l1, 8, 3) + 0x40 * Digit(x.ev.l2, 4, 0)
    && s[13] as int == Digit(x.ev.l2, 4, 1)
    && s[14] as int == Digit(x.ev.l2, 4, 2)
    && s[15] as int == Digit(x.ev.l2, 4, 3)
  }

  /** The last 16 bytes hold limbs 5 to 9. */
  predicate HighBytes(s: seq<u8>, x: Fe)
    requires |s| == 32
  {
    && s[16] as int == Digit(x.od.l2, 0x100, 0)
    && s[17] as int == Digit(x.od.l2, 0x100, 1)
    && s[18] as int == Digit(x.od.l2, 0x100, 2)
    && s[19] as int == Digit(x.od.l2, 0x100, 3) + 2 * Digit(x.ev.l3, 0x80, 0)
    && s[20] as int == Digit(x.ev.l3, 0x80, 1)
    && s[21] as int == Digit(x.ev.l3, 0x80, 2)
    && s[22] as int == Digit(x.ev.l3, 0x80, 3) + 8 * Digit(x.od.l3, 0x20, 0)
    && s[23] as int == Digit(x.od.l3, 0x20, 1)
    && s[24] as int == Digit(x.od.l3, 0x20, 2)
    && s[25] as int == Digit(x.od.l3, 0x20, 3) + 0x10 * Digit(x.ev.l4, 0x10, 0)
    && s[26] as int == Digit(x.ev.l4, 0x10, 1)
    && s[27] as int == Digit(x.ev.l4, 0x10, 2)
    && s[28] as int == Digit(x.ev.l4, 0x10, 3) + 0x40 * Digit(x.od.l4, 4, 0)
    && s[29] as int == Digit(x.od.l4, 4, 1)
    && s[30] as int == Digit(x.od.l4, 4, 2)
    && s[31] as int == Digit(x.od.l4, 4, 3)
  }

  lemma StoredWords(s: seq<u8>, x: Fe)
    requires |s| == 32 && LowBytes(s, x) && HighBytes(s, x)
    ensures Eval32(x) == Words(s[0] as int + 0x100 * s[1] as int + 0x1_0000 * s[2] as int + 0x100_0000 * s[3] as int,
                               s[4] as int + 0x100 * s[5] as int + 0x1_0000 * s[6] as int + 0x100_0000 * s[7] as int,
                               s[8] as int + 0x100 * s[9] as int + 0x1_0000 * s[10] as int + 0x100_0000 * s[11] as int,
                               s[12] as int + 0x100 * s[13] as int + 0x1_0000 * s[14] as int
                                 + 0x100_0000 * s[15] as int,
                               s[16] as int + 0x100 * s[17] as int + 0x1_0000 * s[18] as int
                                 + 0x100_0000 * s[19] as int,
                               s[20] as int + 0x100 * s[21] as int + 0x1_0000 * s[22] as int
                                 + 0x100_0000 * s[23] as int,
                               s[24] as int + 0x100 * s[25] as int + 0x1_0000 * s[26] as int
                                 + 0x100_0000 * s[27] as int,
                               s[28] as int + 0x100 * s[29] as int + 0x1_0000 * s[30] as int
                                 + 0x100_0000 * s[31] as int)
  {
    hide Digit;
    Digits(x.ev.l0, 0x100);
    Digits(x.od.l0, 0x40);
    Digits(x.ev.l1, 0x20);
    Digits(x.od.l1, 8);
    Digits(x.ev.l2, 4);
    Digits(x.od.l2, 0x100);
    Digits(x.ev.l3, 0x80);
    Digits(x.od.l3, 0x20);
    Digits(x.ev.l4, 0x10);
    Digits(x.od.l4, 4);
  }

  /** Three bytes: the rest of the limb before, below the first bits of this one, and the two whole
      bytes of this one. */
  method StoreLimb(s: array<u8>, o: nat, lo: nat, h: u32, b: nat, v: nat, a: nat)
    requires o + 2 < s.Length
    requires b <= 8 && v == Pow2(b) && a * v == 0x100 && lo < v
    modifies s
    ensures s[o] as int == lo + v * Digit(h, a, 0)
    ensures s[o + 1] as int == Digit(h, a, 1) && s[o + 2] as int == Digit(h, a, 2)
    ensures forall k :: 0 <= k < s.Length && k != o && k != o + 1 && k != o + 2 ==> s[k] == old(s[k])
  {
    hide Or, Pow2;
    SharedByte(lo, h, b, v, a);
    s[o] := Or(lo, h as int * v) % 0x100;
    s[o + 1] := h as int / a % 0x100;
    s[o + 2] := h as int / (a * 0x100) % 0x100;
  }

  /** The bits of a limb above its three pieces. */
  lemma TopDigit(h: int, a: int, w: int)
    requires a > 0 && w == a * 0x1_0000
    ensures Digit(h, a, 3) == h / w
  {
  }

  method StoreLow(s: array<u8>, h: array<u32>)
    requires s.Length == 32 && h.Length == 10
    requires Packed(At32(h))
    modifies s
    ensures LowBytes(s[..], At32(h))
  {
    hide Pow2, Digit;
    Pow2Zero(); Pow2Small(2); Pow2Small(3); Pow2Small(5); Pow2Small(6);
    TopDigit(h[0], 0x100, 0x1000000);
    TopDigit(h[1], 0x40, 0x400000);
    TopDigit(h[2], 0x20, 0x200000);
    TopDigit(h[3], 8, 0x80000);
    TopDigit(h[4], 4, 0x40000);
    StoreLimb(s, 0, 0, h[0], 0, 1, 0x100);
    StoreLimb(s, 3, h[0] / 0x1000000, h[1], 2, 4, 0x40);
    StoreLimb(s, 6, h[1] / 0x400000, h[2], 3, 8, 0x20);
    StoreLimb(s, 9, h[2] / 0x200000, h[3], 5, 0x20, 8);
    StoreLimb(s, 12, h[3] / 0x80000, h[4], 6, 0x40, 4);
    s[15] := h[4] / 0x40000;
  }

  method StoreHigh(s: array<u8>, h: array<u32>)
    requires s.Length == 32 && h.Length == 10
    requires Packed(At32(h))
    modifies s
    ensures s[..16] == old(s[..16])
    ensures HighBytes(s[..], At32(h))
  {
    hide Pow2, Digit;
    Pow2Zero(); Pow2Small(1); Pow2Small(3); Pow2Small(4); Pow2Small(6);
    TopDigit(h[5], 0x100, 0x1000000);
    TopDigit(h[6], 0x80, 0x800000);
    TopDigit(h[7], 0x20, 0x200000);
    TopDigit(h[8], 0x10, 0x100000);
    TopDigit(h[9], 4, 0x40000);
    StoreLimb(s, 16, 0, h[5], 0, 1, 0x100);
    StoreLimb(s, 19, h[5] / 0x1000000, h[6], 1, 2, 0x80);
    StoreLimb(s, 22, h[6] / 0x800000, h[7], 3, 8, 0x20);
    StoreLimb(s, 25, h[7] / 0x200000, h[8], 4, 0x10, 0x10);
    StoreLimb(s, 28, h[8] / 0x100000, h[9], 6, 0x40, 4);
    s[31] := h[9] / 0x40000;
  }

  /** s := the little-endian bytes of the unique representative below p. */
  method FeToBytes(s: array<u8>, f: array<u32>)
    requires s.Length == 32 && f.Length == 10
    requires Tight(At32(f))
    modifies s
    ensures s[..] == Encode(Value32(At32(f)), 32)
  {
    hide Freeze, HighBytes, Digit, Encode, Tight, Packed, Value32;
    FreezeCanonical(At32(f));
    var h := FeFreeze(f);
    StoreLow(s, h);
    ghost var low := s[..];
    StoreHigh(s, h);
    assert forall k :: 0 <= k < 16 ==> s[..][k] == s[..16][k] == low[..16][k] == low[k];
    BytesValue(s[..], At32(h));
  }

  method FeFreeze(in1: array<u32>) returns (out: array<u32>)
    requires in1.Length == 10
    requires Packed(Freeze(At32(in1)))
    ensures fresh(out) && out.Length == 10
    ensures At32(out) == Freeze(At32(in1))
  {
    hide Freeze;
    var z := Freeze(At32(in1));
    out := new u32[10] [z.ev.l0, z.od.l0, z.ev.l1, z.od.l1, z.ev.l2, z.od.l2, z.ev.l3, z.od.l3, z.ev.l4, z.od.l4];
  }

  lemma BytesValue(s: seq<u8>, x: Fe)
    requires |s| == 32
    requires LowBytes(s, x) && HighBytes(s, x)
    ensures 0 <= Eval32(x) && s == Encode(Eval32(x), 32)
  {
    hide LowBytes, HighBytes, LittleEndian, Encode, Eval32, Words;
    StoredWords(s, x);
    WordsOfBytes(s);
    assert s[0..4] == [s[0], s[1], s[2], s[3]] && s[4..8] == [s[4], s[5], s[6], s[7]];
    assert s[8..12] == [s[8], s[9], s[10], s[11]] && s[12..16] == [s[12], s[13], s[14], s[15]];
    assert s[16..20] == [s[16], s[17], s[18], s[19]] && s[20..24] == [s[20], s[21], s[22], s[23]];
    assert s[24..28] == [s[24], s[25], s[26], s[27]] && s[28..32] == [s[28], s[29], s[30], s[31]];
    FourBytes(s[0], s[1], s[2], s[3]);
    FourBytes(s[4], s[5], s[6], s[7]);
    FourBytes(s[8], s[9], s[10], s[11]);
    FourBytes(s[12], s[13], s[14], s[15]);
    FourBytes(s[16], s[17], s[18], s[19]);
    FourBytes(s[20], s[21], s[22], s[23]);
    FourBytes(s[24], s[25], s[26], s[27]);
    FourBytes(s[28], s[29], s[30], s[31]);
    EncodeDecodes(s);
  }

  /** Writing out what was read in gives the string back, its top bit cleared, reduced modulo p. */
  method BytesOfBytes(output: array<u8>, input: array<u8>)
    requires output.Length == 32 && input.Length == 32
    modifies output
    ensures output[..] == Encode(F(LittleEndian(old(input[..][31 := input[31] % 128]))), 32)
  {
    hide LittleEndian, Encode, F, Eval32, Tight;
    var limbs := new u32[10];
    FeFromBytes(limbs, input);
    FeToBytes(output, limbs);
  }
}
