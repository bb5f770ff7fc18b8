/** X25519 as section 5 of RFC 7748 defines it: the little-endian encodings, the clamped scalar and
    the Montgomery ladder with its deferred conditional swap, over the field modulo 2^255 - 19. */
module Rfc7748 {
  import opened Bits
  import opened Field

  // ----- Little-endian strings -----

  function LittleEndian(b: seq<u8>): (n: nat)
  {
    if b == [] then 0 else b[0] + 256 * LittleEndian(b[1..])
  }

  function Encode(n: nat, len: nat): (b: seq<u8>)
    ensures |b| == len
  {
    if len == 0 then [] else [n % 256] + Encode(n / 256, len - 1)
  }

  lemma {:induction false} EncodeDecodes(b: seq<u8>)
    ensures Encode(LittleEndian(b), |b|) == b
  {
    if b == [] {
    } else {
      var r := LittleEndian(b[1..]);
      assert (b[0] + 256 * r) % 256 == b[0] && (b[0] + 256 * r) / 256 == r;
      EncodeDecodes(b[1..]);
    }
  }

  lemma {:induction false} DecodeEncodes(n: nat, len: nat)
    requires n < Pow2(8 * len)
    ensures LittleEndian(Encode(n, len)) == n
  {
    if len == 0 {
    } else {
      NextByte(len);
      DecodeEncodes(n / 256, len - 1);
      assert Encode(n, len)[1..] == Encode(n / 256, len - 1);
    }
  }

  lemma {:induction false} Pow2Add(m: nat, n: nat)
    ensures Pow2(m + n) == Pow2(m) * Pow2(n)
  {
    if m == 0 {
    } else {
      Pow2Add(m - 1, n);
      assert 2 * Pow2(m - 1) * Pow2(n) == 2 * (Pow2(m - 1) * Pow2(n));
    }
  }

  /** Bit `t` of a little-endian number is a bit of one byte. */
  lemma {:induction false} BitOfBytes(b: seq<u8>, t: nat)
    requires t < 8 * |b|
    ensures Shr(LittleEndian(b), t) % 2 == Shr(b[t / 8], t % 8) % 2
  {
    var r := LittleEndian(b[1..]);
    if t < 8 {
      LowBit(b[0], r, 8, t);
      Pow2Byte();
    } else {
      ShrAdd(b[0] + 256 * r, 8, t - 8);
      ShrIsDiv(b[0] + 256 * r, 8);
      Pow2Byte();
      assert Shr(b[0] + 256 * r, 8) == r;
      BitOfBytes(b[1..], t - 8);
      assert b[1..][(t - 8) / 8] == b[t / 8];
    }
  }

  lemma {:induction false} LowBit(x: nat, r: nat, j: nat, t: nat)
    requires t < j
    ensures Shr(x + Pow2(j) * r, t) % 2 == Shr(x, t) % 2
  {
    var m := Pow2(j - 1) * r;
    assert Pow2(j) * r == 2 * m;
    if t == 0 {
    } else {
      assert (x + 2 * m) / 2 == x / 2 + m;
      LowBit(x / 2, r, j - 1, t - 1);
    }
  }

  lemma {:induction false} ShrAdd(x: nat, m: nat, n: nat)
    ensures Shr(x, m + n) == Shr(Shr(x, m), n)
  {
    if m == 0 {
    } else {
      ShrAdd(x / 2, m - 1, n);
    }
  }

  // ----- Decoding the arguments -----

  /** The scalar with its three low bits and its top bit cleared and bit 254 set. */
  function Clamp(k: seq<u8>): (r: seq<u8>)
    requires |k| == 32
    ensures |r| == 32
  {
    k[0 := And(k[0], 248)][31 := ClampTop(k[31])]
  }

  function ClampTop(b: u8): (r: u8)
    ensures 64 <= r < 128
  {
    OrTop(b);
    Or(And(b, 127), 64)
  }

  lemma OrTop(b: u8)
    ensures 64 <= Or(And(b, 127), 64) < 128
  {
    AndLowMask(b, 7);
    Pow2Byte();
    WordBound(And(b, 127), 64, 7);
  }

  /** The low byte loses its three low bits and nothing else. */
  lemma ClampLow(b: u8)
    ensures And(b, 248) == b - b % 8
  {
    hide And;
    EvenAnd(b, 124);
    EvenAnd(b / 2, 62);
    EvenAnd(b / 2 / 2, 31);
    AndLowMask(b / 8, 5);
    Pow2Small(5);
  }

  /** The top byte keeps its six low bits, below a one and a zero. */
  lemma ClampHigh(b: u8)
    ensures ClampTop(b) == 64 + b % 64
  {
    hide And, Or;
    AndLowMask(b, 7);
    Pow2Small(6);
    Pow2Byte();
    if b % 128 < 64 {
      OrAbove(b % 128, 1, 6, 64);
    } else {
      OrInto(b % 64, 6);
    }
  }

  lemma {:induction false} OrInto(z: nat, k: nat)
    requires z < Pow2(k)
    ensures Or(Pow2(k) + z, Pow2(k)) == Pow2(k) + z
  {
    if k > 0 {
      hide Or;
      HalfOr(Pow2(k) + z, Pow2(k));
      OrInto(z / 2, k - 1);
    }
  }

  /** What clamping is for: every clamped scalar is 2^254 plus a multiple of 8 below 2^254. It keeps every
      other bit of the secret: bits 3 to 253 are those of the string. */
  lemma ClampedScalar(k: seq<u8>, n: nat) returns (m: nat)
    requires |k| == 32 && n == 254
    ensures 8 * m < Pow2(n) && DecodeScalar(k) == Pow2(n) + 8 * m
    ensures m == LittleEndian(k) % Pow2(n) / 8
  {
    hide DecodeScalar, LittleEndian, Pow2;
    var low, mid, top, w := k[0], LittleEndian(k[1..31]), k[31], Pow2(n - 9);
    ClampParts(k, n - 6);
    Weights(n);
    assert mid < Pow2(n - 14) by { LittleEndianBound(k[1..31]); }
    m := low / 8 + 32 * mid + w * (top % 64);
    ClampedSum(w, low - low % 8, mid, 64 + top % 64, m);
    KeptBits(w, low, mid, top, m);
  }

  lemma ClampParts(k: seq<u8>, n: nat)
    requires |k| == 32 && n == 248
    ensures var mid := LittleEndian(k[1..31]);
      && DecodeScalar(k) == k[0] - k[0] % 8 + 256 * mid + Pow2(n) * (64 + k[31] % 64)
      && LittleEndian(k) == k[0] + 256 * mid + Pow2(n) * k[31]
  {
    hide And, Or, LittleEndian, ClampTop, Pow2;
    var c := Clamp(k);
    ClampLow(k[0]);
    ClampHigh(k[31]);
    assert c[1..31] == k[1..31];
    SplitEnds(c, n);
    SplitEnds(k, n);
  }

  lemma Weights(n: nat)
    requires n == 254
    ensures var w := Pow2(n - 9); Pow2(n - 6) == 8 * w && Pow2(n) == 512 * w && 256 * Pow2(n - 14) == 8 * w
  {
    var w := Pow2(n - 9);
    Pow2By8(n - 8);
    Pow2By8(n - 14);
    assert Pow2(n - 8) == 2 * w && Pow2(n - 7) == 4 * w && Pow2(n - 6) == 8 * w;
  }

  /** The number of the whole string without its top two and its low three bits. */
  lemma KeptBits(w: nat, low: nat, mid: nat, top: nat, m: int)
    requires low < 256 && 256 * mid <= 8 * w - 256 && m == low / 8 + 32 * mid + w * (top % 64)
    ensures (low + 256 * mid + (8 * w) * top) % (512 * w) / 8 == m
  {
    var q, r := top / 64, top % 64;
    var x, y := w * q, w * r;
    TopSplit(w, top, q, r, x, y);
    var rest := low + 256 * mid + 8 * y;
    DivModUnique(rest + 512 * x, 512 * w, q, rest);
    assert rest / 8 == low / 8 + 32 * mid + y;
  }

  lemma TopSplit(w: nat, top: nat, q: nat, r: nat, x: nat, y: nat)
    requires top == 64 * q + r && r < 64 && x == w * q && y == w * r
    ensures (8 * w) * top == 512 * x + 8 * y && q * (512 * w) == 512 * x && y <= 63 * w
  {
    assert w * (64 * q + r) == 64 * (w * q) + w * r;
    assert (8 * w) * top == 8 * (w * top);
    assert q * (512 * w) == 512 * (w * q);
    assert w * r <= w * 63;
  }

  lemma ClampedSum(w: nat, low: nat, mid: nat, top: nat, m: int)
    requires low % 8 == 0 && low < 256 && 64 <= top < 128 && 256 * mid <= 8 * w - 256
    requires m == low / 8 + 32 * mid + w * (top - 64)
    ensures low + 256 * mid + (8 * w) * top == 512 * w + 8 * m
    ensures 0 <= m < 64 * w
  {
    assert w * (top - 64) == w * top - w * 64;
    assert w * top <= w * 127 && w * top >= w * 64;
  }

  lemma EvenAnd(x: nat, y: nat)
    ensures And(x, 2 * y) == 2 * And(x / 2, y)
  {
    hide And;
    Half(x, 2 * y);
  }

  lemma SplitEnds(c: seq<u8>, n: nat)
    requires |c| == 32 && n == 248
    ensures LittleEndian(c) == c[0] + 256 * LittleEndian(c[1..31]) + Pow2(n) * c[31]
  {
    assert c[1..] == c[1..31] + c[31..];
    LittleEndianConcat(c[1..31], c[31..]);
    assert LittleEndian(c[31..]) == c[31];
    var w := Pow2(n - 8);
    Pow2By8(n - 8);
    assert 256 * (w * c[31]) == (256 * w) * c[31];
  }

  lemma NextByte(n: nat)
    requires n > 0
    ensures Pow2(8 * n) == 256 * Pow2(8 * (n - 1))
  {
    Pow2By8(8 * (n - 1));
  }

  lemma {:induction false} LittleEndianConcat(a: seq<u8>, b: seq<u8>)
    ensures LittleEndian(a + b) == LittleEndian(a) + Pow2(8 * |a|) * LittleEndian(b)
  {
    if a == [] {
      assert a + b == b;
    } else {
      hide Pow2;
      var c, w := a + b, Pow2(8 * (|a| - 1));
      assert c[1..] == a[1..] + b;
      LittleEndianConcat(a[1..], b);
      NextByte(|a|);
      assert LittleEndian(c) == a[0] + 256 * (LittleEndian(a[1..]) + w * LittleEndian(b));
      Regroup(a[0], LittleEndian(a[1..]), LittleEndian(b), w);
    }
  }

  lemma Regroup(x: int, y: int, n: int, w: int)
    ensures x + 256 * (y + w * n) == (x + 256 * y) + (256 * w) * n
  {
  }

  lemma {:induction false} LittleEndianBound(b: seq<u8>)
    ensures LittleEndian(b) < Pow2(8 * |b|)
  {
    if b == [] {
    } else {
      LittleEndianBound(b[1..]);
      NextByte(|b|);
    }
  }

  function DecodeScalar(k: seq<u8>): (n: nat)
    requires |k| == 32
  {
    LittleEndian(Clamp(k))
  }

  /** The u-coordinate, its top bit ignored, as a field element. */
  function DecodeU(u: seq<u8>): (n: nat)
    requires |u| == 32
  {
    F(LittleEndian(u[31 := u[31] % 128]))
  }

  // ----- The ladder -----

  datatype Quad = Quad(x2: int, z2: int, x3: int, z3: int)

  function CSwap(swap: nat, q: Quad): Quad
  {
    if swap == 1 then Quad(q.x3, q.z3, q.x2, q.z2) else q
  }

  /** One iteration's field arithmetic: double (x2 : z2), add (x3 : z3), with a24 = 121665. */
  function Step(x1: int, q: Quad): Quad
  {
    var a := Add(q.x2, q.z2);
    var aa := Mul(a, a);
    var b := Sub(q.x2, q.z2);
    var bb := Mul(b, b);
    var e := Sub(aa, bb);
    var c := Add(q.x3, q.z3);
    var d := Sub(q.x3, q.z3);
    var da := Mul(d, a);
    var cb := Mul(c, b);
    Quad(Mul(aa, bb), Mul(e, Add(aa, Mul(121665, e))),
         Mul(Add(da, cb), Add(da, cb)), Mul(x1, Mul(Sub(da, cb), Sub(da, cb))))
  }

  /** The loop over bits t-1 down to 0 of `k`, with the swap carried from one bit to the next. */
  function Loop(x1: int, k: nat, t: nat, q: Quad, swap: nat): Quad
  {
    if t == 0 then CSwap(swap, q)
    else
      var bit := Shr(k, t - 1) % 2;
      Loop(x1, k, t - 1, Step(x1, CSwap((swap + bit) % 2, q)), bit)
  }

  /** x2 / z2, with the inverse of z2 taken as z2^(p-2). */
  function Affine(q: Quad): int
  {
    Mul(q.x2, Pow(q.z2, PRIME - 2))
  }

  function X25519(k: seq<u8>, u: seq<u8>): (r: seq<u8>)
    requires |k| == 32 && |u| == 32
    ensures |r| == 32
  {
    var x1 := DecodeU(u);
    Encode(Affine(Loop(x1, DecodeScalar(k), 255, Quad(1, 0, x1, 1), 0)), 32)
  }
}
