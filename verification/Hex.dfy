/** Keys as hexadecimal text (section 8 of RFC 4648), by the branch-free formulas. */
module Hex {
  import opened Encoding

  // ----- One digit -----

  function HexDigit(n: bv8): bv8
  {
    if n < 10 then n + 48 else n + 87
  }

  predicate IsHex(c: bv8)
  {
    48 <= c <= 57 || 65 <= c <= 70 || 97 <= c <= 102
  }

  function HexValue(c: bv8): bv8
  {
    if c <= 57 then c - 48 else if c <= 70 then c - 55 else c - 87
  }

  function Lower(c: bv8): bv8
  {
    if 65 <= c <= 70 then c + 32 else c
  }

  function DigitTrick(n: bv8): bv8
  {
    var x := n as bv32;
    Low(87 + x + (((x - 10) >> 8) & 0xffffffd9))
  }

  function Num(c: bv8): bv8 { c ^ 48 }

  function NumMask(c: bv8): bv8 { Low(((Num(c) as bv32) - 10) >> 8) }

  function Alpha(c: bv8): bv8 { Low(((c as bv32) & 0xffffffdf) - 55) }

  function AlphaMask(c: bv8): bv8
  {
    var a := Alpha(c) as bv32;
    Low(((a - 10) ^ (a - 16)) >> 8)
  }

  /** The flag a character adds, and the value it contributes. */
  function BadTrick(c: bv8): bv8 { Low(Sar8(((NumMask(c) | AlphaMask(c)) as bv32) - 1)) }

  function ValueByMasks(c: bv8): bv8 { (NumMask(c) & Num(c)) | (AlphaMask(c) & Alpha(c)) }

  lemma DigitByTrick(n: bv8)
    requires n < 16
    ensures DigitTrick(n) == HexDigit(n)
  {
  }

  lemma MasksDecide(c: bv8)
    ensures BadTrick(c) == 0 <==> IsHex(c)
    ensures IsHex(c) ==> ValueByMasks(c) == HexValue(c) && HexValue(c) < 16
  {
  }

  lemma DigitValue(n: bv8)
    requires n < 16
    ensures IsHex(HexDigit(n)) && HexValue(HexDigit(n)) == n
  {
  }

  lemma ValueDigit(c: bv8)
    requires IsHex(c)
    ensures HexValue(c) < 16 && HexDigit(HexValue(c)) == Lower(c)
  {
  }

  function High(b: bv8): bv8 { Low((b as bv32) >> 4) }

  function LowNibble(b: bv8): bv8 { Low((b as bv32) & 0xf) }

  function Join(h: bv8, l: bv8): bv8 { Low((h as bv32) * 16) | l }

  lemma Nibbles(b: bv8)
    ensures High(b) < 16 && LowNibble(b) < 16 && Join(High(b), LowNibble(b)) == b
  {
  }

  lemma Joined(h: bv8, l: bv8)
    requires h < 16 && l < 16
    ensures High(Join(h, l)) == h && LowNibble(Join(h, l)) == l
  {
  }

  // ----- Whole texts -----

  function ToHex(bytes: seq<bv8>): (t: seq<bv8>)
    ensures |t| == 2 * |bytes|
  {
    if bytes == [] then []
    else [HexDigit(High(bytes[0])), HexDigit(LowNibble(bytes[0]))] + ToHex(bytes[1..])
  }

  function FromHex(t: seq<bv8>): (bytes: seq<bv8>)
    requires |t| % 2 == 0
    ensures 2 * |bytes| == |t|
  {
    if t == [] then [] else [Join(HexValue(t[0]), HexValue(t[1]))] + FromHex(t[2..])
  }

  predicate AllHex(t: seq<bv8>)
  {
    forall i :: 0 <= i < |t| ==> IsHex(t[i])
  }

  function Lowered(t: seq<bv8>): (r: seq<bv8>)
    ensures |r| == |t|
  {
    if t == [] then [] else [Lower(t[0])] + Lowered(t[1..])
  }

  lemma {:induction false} DecodeHex(bytes: seq<bv8>)
    ensures AllHex(ToHex(bytes)) && FromHex(ToHex(bytes)) == bytes
  {
    hide HexDigit, HexValue, IsHex, High, LowNibble, Join;
    if bytes == [] {
    } else {
      var b := bytes[0];
      Nibbles(b);
      DigitValue(High(b));
      DigitValue(LowNibble(b));
      DecodeHex(bytes[1..]);
      assert ToHex(bytes)[2..] == ToHex(bytes[1..]);
    }
  }

  lemma {:induction false} EncodeHex(t: seq<bv8>)
    requires |t| % 2 == 0 && AllHex(t)
    ensures ToHex(FromHex(t)) == Lowered(t)
  {
    hide HexDigit, HexValue, IsHex, High, LowNibble, Join, Lower;
    if t == [] {
    } else {
      ValueDigit(t[0]);
      ValueDigit(t[1]);
      Joined(HexValue(t[0]), HexValue(t[1]));
      EncodeHex(t[2..]);
      assert t[1..][1..] == t[2..];
      assert FromHex(t)[1..] == FromHex(t[2..]);
      assert Lowered(t) == [Lower(t[0])] + ([Lower(t[1])] + Lowered(t[2..]));
    }
  }

  /** A text decodes to a key exactly if its lower-case form is the key's text. */
  lemma {:induction false} HexExactly(t: seq<bv8>, key: seq<bv8>)
    requires |t| == 2 * |key|
    ensures AllHex(t) && FromHex(t) == key <==> Lowered(t) == ToHex(key)
  {
    hide HexDigit, HexValue, IsHex, High, LowNibble, Join, Lower;
    if AllHex(t) && FromHex(t) == key {
      EncodeHex(t);
    }
    if Lowered(t) == ToHex(key) {
      DecodeHex(key);
      LoweredHex(t);
    }
  }

  lemma {:induction false} LoweredHex(t: seq<bv8>)
    requires |t| % 2 == 0 && AllHex(Lowered(t))
    ensures AllHex(t) && FromHex(Lowered(t)) == FromHex(t)
  {
    hide HexValue, IsHex, Join, Lower;
    if t == [] {
    } else {
      var l := Lowered(t);
      assert l == [Lower(t[0])] + ([Lower(t[1])] + Lowered(t[1..][1..])) && t[1..][1..] == t[2..];
      assert l[2..] == Lowered(t[2..]) && l[0] == Lower(t[0]) && l[1] == Lower(t[1]);
      LowerHex(t[0]);
      LowerHex(t[1]);
      LoweredHex(t[2..]);
      forall i | 0 <= i < |t| ensures IsHex(t[i]) {
        if i >= 2 {
          assert t[i] == t[2..][i - 2];
        }
      }
    }
  }

  lemma LowerHex(c: bv8)
    requires IsHex(Lower(c))
    ensures IsHex(c) && HexValue(Lower(c)) == HexValue(c)
  {
  }

  // ----- The code -----

  method KeyToHex(hex: array<bv8>, key: array<bv8>)
    requires hex.Length == 65 && key.Length == 32 && hex != key
    modifies hex
    ensures hex[..] == ToHex(key[..]) + [0]
  {
    hide HexDigit, DigitTrick, High, LowNibble, ToHex;
    var i := 0;
    assert key[0..] == key[..];
    while i < 32
      invariant 0 <= i <= 32
      invariant hex[..2 * i] + ToHex(key[i..]) == ToHex(key[..])
    {
      ghost var done := hex[..2 * i];
      Nibbles(key[i]);
      DigitByTrick(High(key[i]));
      DigitByTrick(LowNibble(key[i]));
      hex[2 * i], hex[2 * i + 1] := DigitTrick(High(key[i])), DigitTrick(LowNibble(key[i]));
      HexStep(key[i..]);
      assert hex[..2 * (i + 1)] == done + [hex[2 * i], hex[2 * i + 1]];
      i := i + 1;
    }
    HexStep([]);
    assert key[32..] == [];
    hex[2 * i] := 0;
  }

  lemma HexStep(bytes: seq<bv8>)
    ensures bytes == [] ==> ToHex(bytes) == []
    ensures bytes != [] ==>
      ToHex(bytes) == [HexDigit(High(bytes[0])), HexDigit(LowNibble(bytes[0]))] + ToHex(bytes[1..])
  {
  }

  ghost predicate Progress(t: seq<bv8>, i: nat, key: seq<bv8>, ret: bv8)
    requires |t| % 2 == 0 && 2 * i <= |t|
  {
    && (ret == 0 <==> AllHex(t[..2 * i]))
    && (AllHex(t[..2 * i]) ==> key + FromHex(t[2 * i..]) == FromHex(t))
  }

  lemma ProgressStep(t: seq<bv8>, i: nat, key: seq<bv8>, ret: bv8, flags: bv8, b: bv8)
    requires |t| % 2 == 0 && 2 * i + 2 <= |t| && Progress(t, i, key, ret)
    requires flags == 0 <==> ret == 0 && IsHex(t[2 * i]) && IsHex(t[2 * i + 1])
    requires IsHex(t[2 * i]) && IsHex(t[2 * i + 1]) ==> b == Join(HexValue(t[2 * i]), HexValue(t[2 * i + 1]))
    ensures Progress(t, i + 1, key + [b], flags)
  {
    hide HexValue, IsHex, Join;
    var rest := t[2 * i..];
    assert rest[2..] == t[2 * (i + 1)..];
    var longer := t[..2 * (i + 1)];
    assert longer == t[..2 * i] + [t[2 * i], t[2 * i + 1]];
    assert AllHex(longer) <==> AllHex(t[..2 * i]) && IsHex(t[2 * i]) && IsHex(t[2 * i + 1]) by {
      HexConcat(t[..2 * i], t[2 * i], t[2 * i + 1]);
    }
    assert FromHex(rest) == [Join(HexValue(rest[0]), HexValue(rest[1]))] + FromHex(rest[2..]);
  }

  lemma HexConcat(a: seq<bv8>, x: bv8, y: bv8)
    ensures AllHex(a + [x, y]) <==> AllHex(a) && IsHex(x) && IsHex(y)
  {
    hide IsHex;
    var s := a + [x, y];
    assert s[|a|] == x && s[|a| + 1] == y;
    if AllHex(s) {
      forall i | 0 <= i < |a| ensures IsHex(a[i]) { assert s[i] == a[i]; }
    }
  }

  /** Two characters into one byte, with the flags they add. */
  method DecodePair(hi: bv8, lo: bv8, ret: bv8) returns (b: bv8, flags: bv8)
    ensures flags == 0 <==> ret == 0 && IsHex(hi) && IsHex(lo)
    ensures IsHex(hi) && IsHex(lo) ==> b == Join(HexValue(hi), HexValue(lo))
  {
    hide IsHex, HexValue, BadTrick, ValueByMasks;
    MasksDecide(hi);
    MasksDecide(lo);
    flags := ret | BadTrick(hi);
    OrZero(ret, BadTrick(hi));
    var acc := Low((ValueByMasks(hi) as bv32) * 16);
    OrZero(flags, BadTrick(lo));
    flags := flags | BadTrick(lo);
    b := acc | ValueByMasks(lo);
  }

  /** Decodes a key from a C string; true exactly for 64 hex digits of either case. */
  method KeyFromHex(key: array<bv8>, hex: seq<bv8>) returns (ok: bool)
    requires key.Length == 32
    modifies key
    ensures ok <==> |hex| == 64 && AllHex(hex)
    ensures ok ==> key[..] == FromHex(hex)
  {
    hide Progress, IsHex, HexValue, Join, NoFlags;
    if |hex| != 64 {
      return false;
    }
    var ret: bv8, i := 0, 0;
    assert Progress(hex, 0, key[..0], 0) by { ProgressStart(hex); }
    while i < 64
      invariant 0 <= i <= 64 && i % 2 == 0
      invariant Progress(hex, i / 2, key[..i / 2], ret)
    {
      ghost var done, was := key[..i / 2], ret;
      var b;
      b, ret := DecodePair(hex[i], hex[i + 1], ret);
      key[i / 2] := b;
      ProgressStep(hex, i / 2, done, was, ret, b);
      assert key[..i / 2 + 1] == done + [b];
      i := i + 2;
    }
    assert key[..32] == key[..];
    ProgressEnd(hex, key[..], ret);
    ok := NoFlags(ret);
  }

  lemma ProgressStart(t: seq<bv8>)
    requires |t| % 2 == 0
    ensures Progress(t, 0, [], 0)
  {
    assert t[0..] == t;
  }

  lemma ProgressEnd(t: seq<bv8>, key: seq<bv8>, ret: bv8)
    requires |t| == 64 && Progress(t, 32, key, ret)
    ensures (ret == 0 <==> AllHex(t)) && (AllHex(t) ==> key == FromHex(t))
  {
    hide IsHex, HexValue, Join;
    assert t[..64] == t && t[64..] == [];
    assert FromHex([]) == [] && key + [] == key;
  }
}
