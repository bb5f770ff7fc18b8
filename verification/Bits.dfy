/** Machine words as integers.

    The C sources mix arithmetic with `&`, `|`, `^`, `~`, `<<` and `>>` on unsigned words. Here a
    word is an integer in range, the bitwise operators are defined digit by digit on naturals, and
    the lemmas say which of their uses are plain arithmetic. */
module Bits {
  type u8 = x: int | 0 <= x < 0x100
  type u32 = x: int | 0 <= x < 0x1_0000_0000
  type u64 = x: int | 0 <= x < 0x1_0000_0000_0000_0000
  type u128 = x: int | 0 <= x < 0x1_0000_0000_0000_0000_0000_0000_0000_0000

  /** Wrap-around to 64 bits, for the places where the C code relies on it. */
  function U64(x: int): (r: u64)
  {
    x % 0x1_0000_0000_0000_0000
  }

  function Pow2(k: nat): (r: nat)
    ensures 1 <= r
  {
    if k == 0 then 1 else 2 * Pow2(k - 1)
  }

  function And(x: nat, y: nat): (r: nat)
    ensures r <= x && r <= y
    decreases x + y
  {
    if x == 0 && y == 0 then 0
    else (if x % 2 == 1 && y % 2 == 1 then 1 else 0) + 2 * And(x / 2, y / 2)
  }

  function Or(x: nat, y: nat): (r: nat)
    ensures x <= r && y <= r <= x + y
    decreases x + y
  {
    if x == 0 && y == 0 then 0
    else (if x % 2 == 1 || y % 2 == 1 then 1 else 0) + 2 * Or(x / 2, y / 2)
  }

  function Xor(x: nat, y: nat): (r: nat)
    ensures r <= x + y && x <= r + y && y <= r + x
    decreases x + y
  {
    if x == 0 && y == 0 then 0
    else (if x % 2 != y % 2 then 1 else 0) + 2 * Xor(x / 2, y / 2)
  }

  /** `x >> k`, one place at a time. */
  function Shr(x: nat, k: nat): (r: nat)
  {
    if k == 0 then x else Shr(x / 2, k - 1)
  }

  // ----- The last digit and the rest -----

  lemma Half(x: nat, y: nat)
    ensures And(x, y) / 2 == And(x / 2, y / 2)
    ensures And(x, y) % 2 == if x % 2 == 1 && y % 2 == 1 then 1 else 0
  {
  }

  lemma HalfOr(x: nat, y: nat)
    ensures Or(x, y) / 2 == Or(x / 2, y / 2)
    ensures Or(x, y) % 2 == if x % 2 == 1 || y % 2 == 1 then 1 else 0
  {
  }

  lemma HalfXor(x: nat, y: nat)
    ensures Xor(x, y) / 2 == Xor(x / 2, y / 2)
    ensures Xor(x, y) % 2 == if x % 2 != y % 2 then 1 else 0
  {
  }

  // ----- Division by powers of two -----

  lemma DivModUnique(x: int, m: int, q: int, r: int)
    requires m > 0 && x == q * m + r && 0 <= r < m
    ensures x / m == q && x % m == r
  {
    var d := x / m - q;
    assert d * m == r - x % m;
    assert d >= 1 ==> d * m >= m;
    assert d <= -1 ==> d * m <= -m;
  }

  /** Dividing by `2 m` is halving and then dividing by `m`. */
  lemma DivModDouble(x: nat, m: nat)
    requires m > 0
    ensures x / (2 * m) == x / 2 / m
    ensures x % (2 * m) == x % 2 + 2 * (x / 2 % m)
  {
    var h := x / 2;
    var q, r := h / m, h % m;
    assert h == q * m + r;
    assert q * (2 * m) == 2 * (q * m);
    DivModUnique(x, 2 * m, q, x % 2 + 2 * r);
  }

  /** Multiplying by `w` carries the quotient by `v` past `v w` and leaves the remainder below it. */
  lemma ScaledRemainder(hi: nat, v: nat, w: nat)
    requires v > 0 && w > 0
    ensures hi * w == (hi / v) * (v * w) + hi % v * w
    ensures 0 <= hi % v * w <= v * w - w
  {
    var q, r := hi / v, hi % v;
    assert hi == q * v + r;
    assert (q * v + r) * w == (q * v) * w + r * w;
    assert (q * v) * w == q * (v * w);
    assert r * w <= (v - 1) * w;
    assert (v - 1) * w == v * w - w;
  }

  /** Shifting right divides by a power of two. */
  lemma {:induction false} ShrIsDiv(x: nat, k: nat)
    ensures Shr(x, k) == x / Pow2(k)
  {
    if k == 0 {
    } else {
      ShrIsDiv(x / 2, k - 1);
      DivModDouble(x, Pow2(k - 1));
    }
  }

  /** `x & (2^k - 1)` is the remainder by `2^k`. */
  lemma {:induction false} AndLowMask(x: nat, k: nat)
    ensures And(x, Pow2(k) - 1) == x % Pow2(k)
  {
    if k == 0 {
    } else {
      hide And;
      AndLowMask(x / 2, k - 1);
      LowMaskStep(x, Pow2(k - 1));
    }
  }

  lemma LowMaskStep(x: nat, m: nat)
    requires m > 0 && And(x / 2, m - 1) == x / 2 % m
    ensures And(x, 2 * m - 1) == x % (2 * m)
  {
    hide And;
    Half(x, 2 * m - 1);
    DivModDouble(x, m);
  }

  /** Or-ing a shifted word with one that fits below the shift is addition. */
  lemma {:induction false} OrDisjoint(y: nat, x: nat, k: nat)
    requires x < Pow2(k)
    ensures Or(y * Pow2(k), x) == y * Pow2(k) + x
  {
    if k == 0 {
    } else {
      hide Or;
      var s := y * Pow2(k - 1);
      assert y * Pow2(k) == 2 * s;
      HalfOr(2 * s, x);
      OrDisjoint(y, x / 2, k - 1);
    }
  }

  lemma {:induction false} OrComm(x: nat, y: nat)
    ensures Or(x, y) == Or(y, x)
    decreases x + y
  {
    if x == 0 && y == 0 {
    } else {
      hide Or;
      HalfOr(x, y);
      HalfOr(y, x);
      OrComm(x / 2, y / 2);
    }
  }

  /** `lo | (hi << k)` for a `lo` below 2^k. */
  lemma OrAbove(lo: nat, hi: nat, k: nat, w: nat)
    requires w == Pow2(k) && lo < w
    ensures Or(lo, hi * w) == lo + hi * w
  {
    hide Or;
    OrComm(lo, hi * w);
    OrDisjoint(hi, lo, k);
  }

  /** Xor and Or act on the high parts of their arguments separately. */
  lemma {:induction false} ShrOfXor(x: nat, y: nat, k: nat)
    ensures Shr(Xor(x, y), k) == Xor(Shr(x, k), Shr(y, k))
    ensures Shr(Or(x, y), k) == Or(Shr(x, k), Shr(y, k))
  {
    if k == 0 {
    } else {
      hide Xor, Or;
      HalfXor(x, y);
      HalfOr(x, y);
      ShrOfXor(x / 2, y / 2, k - 1);
    }
  }

  lemma {:induction false} AndComm(x: nat, y: nat)
    ensures And(x, y) == And(y, x)
    decreases x + y
  {
    if x == 0 && y == 0 {
    } else {
      hide And;
      Half(x, y);
      Half(y, x);
      AndComm(x / 2, y / 2);
    }
  }

  // ----- Xor as a swap -----

  lemma {:induction false} XorCancel(x: nat, y: nat)
    ensures Xor(x, Xor(x, y)) == y
    ensures Xor(y, Xor(x, y)) == x
    decreases x + y
  {
    if x == 0 && y == 0 {
    } else {
      hide Xor;
      var z := Xor(x, y);
      HalfXor(x, y);
      HalfXor(x, z);
      HalfXor(y, z);
      XorCancel(x / 2, y / 2);
    }
  }

  lemma {:induction false} XorZero(x: nat, y: nat)
    requires Xor(x, y) == 0
    ensures x == y
    decreases x + y
  {
    if x == 0 && y == 0 {
    } else {
      hide Xor;
      HalfXor(x, y);
      XorZero(x / 2, y / 2);
    }
  }

  lemma {:induction false} XorSelf(x: nat)
    ensures Xor(x, x) == 0
  {
    if x == 0 {
    } else {
      hide Xor;
      HalfXor(x, x);
      XorSelf(x / 2);
    }
  }

  lemma {:induction false} WordBound(x: nat, y: nat, k: nat)
    requires x < Pow2(k) && y < Pow2(k)
    ensures Xor(x, y) < Pow2(k) && Or(x, y) < Pow2(k)
  {
    if k == 0 {
    } else {
      hide Xor, Or;
      WordBound(x / 2, y / 2, k - 1);
      assert Xor(x, y) <= 2 * Xor(x / 2, y / 2) + 1 by { HalfXor(x, y); }
      assert Or(x, y) <= 2 * Or(x / 2, y / 2) + 1 by { HalfOr(x, y); }
    }
  }

  lemma OneBitOps(x: nat, y: nat)
    requires x < 2 && y < 2
    ensures Xor(x, y) == if x != y then 1 else 0
    ensures Or(x, y) == if x == 1 || y == 1 then 1 else 0
  {
  }

  // ----- The powers of two that appear as literals in the sources -----

  lemma Pow2Byte()
    ensures Pow2(7) == 0x80 && Pow2(8) == 0x100
  {
  }

  lemma Pow2Small(k: nat)
    ensures k == 1 ==> Pow2(k) == 2
    ensures k == 2 ==> Pow2(k) == 4
    ensures k == 3 ==> Pow2(k) == 8
    ensures k == 4 ==> Pow2(k) == 0x10
    ensures k == 5 ==> Pow2(k) == 0x20
    ensures k == 6 ==> Pow2(k) == 0x40
    ensures k == 7 ==> Pow2(k) == 0x80
    ensures k == 12 ==> Pow2(k) == 0x1000
    ensures k == 13 ==> Pow2(k) == 0x2000
    ensures k == 19 ==> Pow2(k) == 0x80000
    ensures k == 20 ==> Pow2(k) == 0x100000
  {
    if k == 12 || k == 13 { Pow2By8(0); }
    if k == 19 || k == 20 { Pow2By8(0); Pow2By8(8); }
  }

  lemma Pow2Limb26()
    ensures Pow2(25) == 0x2000000 && Pow2(26) == 0x4000000
  {
    Pow2By8(0); Pow2By8(8); Pow2By8(16);
  }

  lemma Pow2Limb51()
    ensures Pow2(51) == 0x8000000000000
  {
    Pow2By8(0); Pow2By8(8); Pow2By8(16); Pow2By8(24); Pow2By8(32); Pow2By8(40);
    assert Pow2(48) == 0x1_0000_0000_0000;
  }

  lemma Pow2Word64()
    ensures Pow2(63) == 0x8000_0000_0000_0000 && Pow2(64) == 0x1_0000_0000_0000_0000
  {
    Pow2By8(0); Pow2By8(8); Pow2By8(16); Pow2By8(24); Pow2By8(32); Pow2By8(40); Pow2By8(48);
    assert Pow2(56) == 0x100_0000_0000_0000;
  }

  lemma Pow2By8(k: nat)
    ensures Pow2(k + 8) == 256 * Pow2(k)
  {
    assert Pow2(k + 2) == 4 * Pow2(k);
    assert Pow2(k + 4) == 4 * Pow2(k + 2);
    assert Pow2(k + 6) == 4 * Pow2(k + 4);
  }

  // ----- Masks: words of all zeros or all ones -----

  predicate IsMask(m: u64)
  {
    m == 0 || m == 0xffff_ffff_ffff_ffff
  }

  lemma Masked(x: u64, m: u64)
    requires IsMask(m)
    ensures And(x, m) == And(m, x) == if m == 0 then 0 else x
  {
    hide And, Pow2;
    AndComm(x, m);
    if m != 0 {
      AndLowMask(x, 64);
      Pow2Word64();
    }
  }

  lemma XorWord32(x: u32, y: u32)
    ensures Xor(x, y) < 0x1_0000_0000
  {
    hide Xor, Pow2;
    Pow2Zero();
    Pow2By8(0); Pow2By8(8); Pow2By8(16); Pow2By8(24);
    WordBound(x, y, 32);
  }

  lemma Masked32(x: u32, m: u32)
    requires m == 0 || m == 0xffff_ffff
    ensures And(x, m) == And(m, x) == if m == 0 then 0 else x
  {
    hide And, Pow2;
    AndComm(x, m);
    if m != 0 {
      AndLowMask(x, 32);
      Pow2By8(0); Pow2By8(8); Pow2By8(16); Pow2By8(24);
      assert Pow2(0) == 1 by { Pow2Zero(); }
    }
  }

  lemma Pow2Zero()
    ensures Pow2(0) == 1
  {
  }
}
