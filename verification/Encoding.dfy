/** Keys as text, by the branch-free formulas: base64 (sections 3.5 and 4 of RFC 4648) and hex
    (section 8). `int` arithmetic is two's complement on 32-bit words. */
module Encoding {
  // ----- Machine arithmetic -----

  /** Arithmetic right shift by 8 of a signed 32-bit word. */
  function Sar8(x: bv32): bv32
  {
    if x >= 0x80000000 then (x >> 8) | 0xff000000 else x >> 8
  }

  /** A `char` as an `int`, where `char` is signed or not. */
  function Widen(c: bv8, signed: bool): bv32
  {
    if signed && c >= 128 then (c as bv32) | 0xffffff00 else c as bv32
  }

  /** The low byte. */
  function Low(x: bv32): bv8
  {
    (x & 0xff) as bv8
  }

  // ----- The base64 alphabet -----

  /** The character of a 6-bit value. */
  function Letter(v: bv8): bv8
  {
    if v < 26 then v + 65 else if v < 52 then v + 71 else if v < 62 then v - 4 else if v == 62 then 43 else 47
  }

  /** The value of a character, or -1. */
  function Value(c: bv8): bv32
  {
    if 65 <= c <= 90 then (c as bv32) - 65
    else if 97 <= c <= 122 then (c as bv32) - 71
    else if 48 <= c <= 57 then (c as bv32) + 4
    else if c == 43 then 62
    else if c == 47 then 63
    else 0xffffffff
  }

  function LetterTrick(v: bv8): bv8
  {
    var x := v as bv32;
    Low(x + 65 + (Sar8(25 - x) & 6) - (Sar8(51 - x) & 75) - (Sar8(61 - x) & 15) + (Sar8(62 - x) & 3))
  }

  function ValueTrick(s: bv32): bv32
  {
    0xffffffff
    + (Sar8((64 - s) & (s - 91)) & (s - 64))
    + (Sar8((96 - s) & (s - 123)) & (s - 70))
    + (Sar8((47 - s) & (s - 58)) & (s + 5))
    + (Sar8((42 - s) & (s - 44)) & 63)
    + (Sar8((46 - s) & (s - 48)) & 64)
  }

  lemma LetterByTrick(v: bv8)
    requires v < 64
    ensures LetterTrick(v) == Letter(v)
  {
  }

  lemma ValueByTrick(c: bv8, signed: bool)
    ensures ValueTrick(Widen(c, signed)) == Value(c)
  {
  }

  lemma ValueOfLetter(v: bv8)
    requires v < 64
    ensures Value(Letter(v)) == v as bv32 && Letter(v) != 61
  {
  }

  lemma LetterOfValue(c: bv8)
    requires Value(c) != 0xffffffff
    ensures Value(c) < 64 && Letter(Low(Value(c))) == c
  {
  }

  // ----- Four characters for three bytes -----

  function Sextet0(a: bv8): bv8 { Low(((a as bv32) >> 2) & 63) }

  function Sextet1(a: bv8, b: bv8): bv8 { Low((((a as bv32) << 4) | ((b as bv32) >> 4)) & 63) }

  function Sextet2(b: bv8, c: bv8): bv8 { Low((((b as bv32) << 2) | ((c as bv32) >> 6)) & 63) }

  function Sextet3(c: bv8): bv8 { Low((c as bv32) & 63) }

  function Four(a: bv8, b: bv8, c: bv8): (r: seq<bv8>)
    ensures |r| == 4
  {
    [Letter(Sextet0(a)), Letter(Sextet1(a, b)), Letter(Sextet2(b, c)), Letter(Sextet3(c))]
  }

  function Pack(v0: bv32, v1: bv32, v2: bv32, v3: bv32): bv32
  {
    (v0 << 18) | (v1 << 12) | (v2 << 6) | v3
  }

  function Byte0(val: bv32): bv8 { Low(val >> 16) }

  function Byte1(val: bv32): bv8 { Low(val >> 8) }

  function Byte2(val: bv32): bv8 { Low(val) }

  predicate Negative(val: bv32) { val >= 0x80000000 }

  lemma PackSextets(a: bv8, b: bv8, c: bv8)
    ensures Sextet0(a) < 64 && Sextet1(a, b) < 64 && Sextet2(b, c) < 64 && Sextet3(c) < 64
    ensures var val := Pack(Sextet0(a) as bv32, Sextet1(a, b) as bv32, Sextet2(b, c) as bv32, Sextet3(c) as bv32);
      !Negative(val) && Byte0(val) == a && Byte1(val) == b && Byte2(val) == c
  {
  }

  predicate Digit(v: bv32) { v < 64 || v == 0xffffffff }

  /** A packed word is negative exactly if some character was outside the alphabet. */
  lemma PackSign(v0: bv32, v1: bv32, v2: bv32, v3: bv32)
    requires Digit(v0) && Digit(v1) && Digit(v2) && Digit(v3)
    ensures Negative(Pack(v0, v1, v2, v3)) <==> v0 >= 64 || v1 >= 64 || v2 >= 64 || v3 >= 64
  {
  }

  lemma UnpackSextets(v0: bv32, v1: bv32, v2: bv32, v3: bv32)
    requires v0 < 64 && v1 < 64 && v2 < 64 && v3 < 64
    ensures var val := Pack(v0, v1, v2, v3); var a, b, c := Byte0(val), Byte1(val), Byte2(val);
      Sextet0(a) == Low(v0) && Sextet1(a, b) == Low(v1) && Sextet2(b, c) == Low(v2) && Sextet3(c) == Low(v3)
  {
  }

  function GroupValue(c0: bv8, c1: bv8, c2: bv8, c3: bv8): bv32
  {
    Pack(Value(c0), Value(c1), Value(c2), Value(c3))
  }

  lemma FourDecodes(a: bv8, b: bv8, c: bv8)
    ensures var s := Four(a, b, c); var val := GroupValue(s[0], s[1], s[2], s[3]);
      !Negative(val) && Byte0(val) == a && Byte1(val) == b && Byte2(val) == c
  {
    hide Letter, Value, Pack, Sextet0, Sextet1, Sextet2, Sextet3, Byte0, Byte1, Byte2, Negative;
    PackSextets(a, b, c);
    ValueOfLetter(Sextet0(a));
    ValueOfLetter(Sextet1(a, b));
    ValueOfLetter(Sextet2(b, c));
    ValueOfLetter(Sextet3(c));
  }

  lemma ValueDigit(c: bv8)
    ensures Digit(Value(c)) && (Value(c) < 64 ==> Letter(Low(Value(c))) == c)
  {
    if Value(c) != 0xffffffff {
      LetterOfValue(c);
    }
  }

  lemma DecodesFour(c0: bv8, c1: bv8, c2: bv8, c3: bv8)
    ensures var val := GroupValue(c0, c1, c2, c3);
      && (Negative(val) <==> Value(c0) >= 64 || Value(c1) >= 64 || Value(c2) >= 64 || Value(c3) >= 64)
      && (!Negative(val) ==> Four(Byte0(val), Byte1(val), Byte2(val)) == [c0, c1, c2, c3])
  {
    hide Letter, Value, Pack, Sextet0, Sextet1, Sextet2, Sextet3, Byte0, Byte1, Byte2, Negative, Low, Digit;
    ValueDigit(c0);
    ValueDigit(c1);
    ValueDigit(c2);
    ValueDigit(c3);
    PackSign(Value(c0), Value(c1), Value(c2), Value(c3));
    if !Negative(GroupValue(c0, c1, c2, c3)) {
      UnpackSextets(Value(c0), Value(c1), Value(c2), Value(c3));
    }
  }

  // ----- Whole texts -----

  const PAD: bv8 := 61
  const ZERO_LETTER: bv8 := 65

  /** Base64 of a byte string two longer than a multiple of three. */
  function ToText(bytes: seq<bv8>): (t: seq<bv8>)
    requires |bytes| % 3 == 2
    ensures 3 * |t| == 4 * (|bytes| + 1)
  {
    if |bytes| == 2 then Four(bytes[0], bytes[1], 0)[..3] + [PAD]
    else Four(bytes[0], bytes[1], bytes[2]) + ToText(bytes[3..])
  }

  function FromText(t: seq<bv8>): (bytes: seq<bv8>)
    requires |t| > 0 && |t| % 4 == 0
    ensures 4 * (|bytes| + 1) == 3 * |t|
  {
    if |t| == 4 then
      var val := GroupValue(t[0], t[1], t[2], ZERO_LETTER);
      [Byte0(val), Byte1(val)]
    else
      var val := GroupValue(t[0], t[1], t[2], t[3]);
      [Byte0(val), Byte1(val), Byte2(val)] + FromText(t[4..])
  }

  /** What the accumulated flags test: no group negative, nothing below the last byte, one pad. */
  predicate Canonical(t: seq<bv8>)
    requires |t| > 0 && |t| % 4 == 0
  {
    if |t| == 4 then
      var val := GroupValue(t[0], t[1], t[2], ZERO_LETTER);
      !Negative(val) && Byte2(val) == 0 && t[3] == PAD
    else !Negative(GroupValue(t[0], t[1], t[2], t[3])) && Canonical(t[4..])
  }

  /** Decoding inverts encoding. */
  lemma {:induction false} DecodeEncoded(bytes: seq<bv8>)
    requires |bytes| % 3 == 2
    ensures Canonical(ToText(bytes)) && FromText(ToText(bytes)) == bytes
  {
    hide Four, GroupValue, Negative, Byte0, Byte1, Byte2;
    var t := ToText(bytes);
    if |bytes| == 2 {
      FourDecodes(bytes[0], bytes[1], 0);
      assert Four(bytes[0], bytes[1], 0)[3] == ZERO_LETTER by { LastLetter(bytes[0], bytes[1]); }
      assert bytes == [bytes[0], bytes[1]];
    } else {
      var f := Four(bytes[0], bytes[1], bytes[2]);
      FourDecodes(bytes[0], bytes[1], bytes[2]);
      DecodeEncoded(bytes[3..]);
      assert t[4..] == ToText(bytes[3..]) && t[..4] == f;
      assert t[0] == f[0] && t[1] == f[1] && t[2] == f[2] && t[3] == f[3];
      assert bytes == [bytes[0], bytes[1], bytes[2]] + bytes[3..];
    }
  }

  lemma LastLetter(a: bv8, b: bv8)
    ensures Four(a, b, 0)[3] == ZERO_LETTER
  {
  }

  /** Encoding inverts decoding on every text that decodes. */
  lemma {:induction false} EncodeDecoded(t: seq<bv8>)
    requires |t| > 0 && |t| % 4 == 0 && Canonical(t)
    ensures |FromText(t)| % 3 == 2 && ToText(FromText(t)) == t
  {
    hide Four, GroupValue, Negative, Byte0, Byte1, Byte2, ToText, FromText, Canonical;
    var bytes := FromText(t);
    FromTextStep(t);
    if |t| == 4 {
      DecodesFour(t[0], t[1], t[2], ZERO_LETTER);
      TextLast(bytes);
      assert t == [t[0], t[1], t[2], ZERO_LETTER][..3] + [PAD];
    } else {
      DecodesFour(t[0], t[1], t[2], t[3]);
      EncodeDecoded(t[4..]);
      assert bytes[3..] == FromText(t[4..]);
      TextMore(bytes);
      assert t == [t[0], t[1], t[2], t[3]] + t[4..];
    }
  }

  lemma LowBits(v0: bv32, v1: bv32, v2: bv32)
    requires v0 < 64 && v1 < 64 && v2 < 64
    ensures Byte2(Pack(v0, v1, v2, 0)) == 0 <==> v2 & 3 == 0
  {
  }

  lemma ZeroLetter()
    ensures Value(ZERO_LETTER) == 0
  {
  }

  ghost predicate InAlphabet(t: seq<bv8>)
  {
    forall i :: 0 <= i < |t| ==> Value(t[i]) < 64
  }

  lemma CanonicalLast(t: seq<bv8>)
    requires |t| == 4
    ensures Canonical(t)
      <==> Value(t[0]) < 64 && Value(t[1]) < 64 && Value(t[2]) < 64 && Value(t[2]) & 3 == 0 && t[3] == PAD
  {
    hide Value, Pack, Negative, Byte2;
    DecodesFour(t[0], t[1], t[2], ZERO_LETTER);
    ZeroLetter();
    if Value(t[0]) < 64 && Value(t[1]) < 64 && Value(t[2]) < 64 {
      LowBits(Value(t[0]), Value(t[1]), Value(t[2]));
    }
  }

  lemma CanonicalStep(t: seq<bv8>)
    requires |t| > 4 && |t| % 4 == 0
    ensures Canonical(t) <==> InAlphabet(t[..4]) && Canonical(t[4..])
  {
    hide Value, InAlphabet, GroupValue, Negative;
    DecodesFour(t[0], t[1], t[2], t[3]);
    AlphabetFour(t[0], t[1], t[2], t[3]);
    assert t[..4] == [t[0], t[1], t[2], t[3]];
  }

  /** The texts that decode are exactly those whose characters are in the alphabet up to one final
      pad, with no stray bits in the last character. */
  lemma {:induction false} CanonicalExactly(t: seq<bv8>)
    requires |t| > 0 && |t| % 4 == 0
    ensures Canonical(t) <==> InAlphabet(t[..|t| - 1]) && Value(t[|t| - 2]) & 3 == 0 && t[|t| - 1] == PAD
  {
    hide Value, Canonical, InAlphabet;
    var n, body := |t|, t[..|t| - 1];
    if n == 4 {
      CanonicalLast(t);
      AlphabetThree(t[0], t[1], t[2]);
      assert body == [t[0], t[1], t[2]];
    } else {
      var rest := t[4..];
      CanonicalStep(t);
      CanonicalExactly(rest);
      assert body == t[..4] + rest[..n - 5];
      AlphabetConcat(t[..4], rest[..n - 5]);
    }
  }

  lemma AlphabetThree(c0: bv8, c1: bv8, c2: bv8)
    ensures InAlphabet([c0, c1, c2]) <==> Value(c0) < 64 && Value(c1) < 64 && Value(c2) < 64
  {
    hide Value;
    var s := [c0, c1, c2];
    assert s[0] == c0 && s[1] == c1 && s[2] == c2;
  }

  lemma AlphabetConcat(a: seq<bv8>, b: seq<bv8>)
    ensures InAlphabet(a + b) <==> InAlphabet(a) && InAlphabet(b)
  {
    hide Value;
    if InAlphabet(a + b) {
      forall i | 0 <= i < |a| ensures Value(a[i]) < 64 { assert a[i] == (a + b)[i]; }
      forall i | 0 <= i < |b| ensures Value(b[i]) < 64 { assert b[i] == (a + b)[|a| + i]; }
    }
  }

  lemma AlphabetFour(c0: bv8, c1: bv8, c2: bv8, c3: bv8)
    ensures InAlphabet([c0, c1, c2, c3]) <==> Value(c0) < 64 && Value(c1) < 64 && Value(c2) < 64 && Value(c3) < 64
  {
    hide Value;
    var s := [c0, c1, c2, c3];
    assert s[0] == c0 && s[1] == c1 && s[2] == c2 && s[3] == c3;
  }

  /** A text decodes to a key exactly if it is the key's text. */
  lemma TextExactly(t: seq<bv8>, key: seq<bv8>)
    requires |t| > 0 && |t| % 4 == 0 && |key| % 3 == 2
    ensures Canonical(t) && FromText(t) == key <==> t == ToText(key)
  {
    hide Canonical, FromText, ToText;
    DecodeEncoded(key);
    if Canonical(t) {
      EncodeDecoded(t);
    }
  }

  // ----- The code -----

  /** dest[at..at+4] := the four characters of three bytes. */
  method EncodeBase64(dest: array<bv8>, at: nat, src: seq<bv8>)
    requires |src| == 3 && at + 4 <= dest.Length
    modifies dest
    ensures dest[at..at + 4] == Four(src[0], src[1], src[2])
    ensures dest[..at] == old(dest[..at]) && dest[at + 4..] == old(dest[at + 4..])
  {
    hide Letter, LetterTrick, Sextet0, Sextet1, Sextet2, Sextet3, Four;
    var input := [Sextet0(src[0]), Sextet1(src[0], src[1]), Sextet2(src[1], src[2]), Sextet3(src[2])];
    ghost var four, was := Four(src[0], src[1], src[2]), dest[..];
    FourLetters(src[0], src[1], src[2], input, four);
    var i := 0;
    while i < 4
      invariant 0 <= i <= 4
      invariant dest[..] == was[..at] + four[..i] + was[at + i..]
    {
      LetterByTrick(input[i]);
      dest[at + i] := LetterTrick(input[i]);
      i := i + 1;
    }
  }

  lemma FourLetters(a: bv8, b: bv8, c: bv8, input: seq<bv8>, four: seq<bv8>)
    requires input == [Sextet0(a), Sextet1(a, b), Sextet2(b, c), Sextet3(c)] && four == Four(a, b, c)
    ensures forall j :: 0 <= j < 4 ==> four[j] == Letter(input[j]) && input[j] < 64
  {
    hide Letter, Sextet0, Sextet1, Sextet2, Sextet3;
    PackSextets(a, b, c);
  }

  /** base64 := the text of a key and the terminating null. */
  method KeyToBase64(base64: array<bv8>, key: array<bv8>)
    requires base64.Length == 45 && key.Length == 32 && base64 != key
    modifies base64
    ensures base64[..] == ToText(key[..]) + [0]
  {
    hide ToText, Four;
    var i := 0;
    assert key[0..] == key[..];
    while i < 10
      invariant 0 <= i <= 10
      invariant base64[..4 * i] + ToText(key[3 * i..]) == ToText(key[..])
    {
      ghost var done := base64[..4 * i];
      EncodeBase64(base64, 4 * i, [key[3 * i], key[3 * i + 1], key[3 * i + 2]]);
      TextMore(key[3 * i..]);
      assert key[3 * i..][3..] == key[3 * (i + 1)..];
      assert base64[..4 * (i + 1)] == done + base64[4 * i..4 * i + 4];
      i := i + 1;
    }
    EncodeBase64(base64, 4 * i, [key[3 * i], key[3 * i + 1], 0]);
    TextLast(key[3 * i..]);
    base64[43] := PAD;
    base64[44] := 0;
    assert base64[..] == base64[..40] + base64[40..43] + [PAD, 0];
  }

  lemma TextMore(bytes: seq<bv8>)
    requires |bytes| % 3 == 2 && |bytes| > 2
    ensures ToText(bytes) == Four(bytes[0], bytes[1], bytes[2]) + ToText(bytes[3..])
  {
  }

  lemma TextLast(bytes: seq<bv8>)
    requires |bytes| == 2
    ensures ToText(bytes) == Four(bytes[0], bytes[1], 0)[..3] + [PAD]
  {
  }

  method DecodeBase64(src: seq<bv8>, signed: bool) returns (val: bv32)
    requires |src| == 4
    ensures val == GroupValue(src[0], src[1], src[2], src[3])
  {
    hide ValueTrick, Widen, Value;
    val := 0;
    var i := 0;
    while i < 4
      invariant 0 <= i <= 4
      invariant i == 0 ==> val == 0
      invariant i == 1 ==> val == Value(src[0]) << 18
      invariant i == 2 ==> val == (Value(src[0]) << 18) | (Value(src[1]) << 12)
      invariant i == 3 ==> val == (Value(src[0]) << 18) | (Value(src[1]) << 12) | (Value(src[2]) << 6)
      invariant i == 4 ==> val == GroupValue(src[0], src[1], src[2], src[3])
    {
      ValueByTrick(src[i], signed);
      val := val | (ValueTrick(Widen(src[i], signed)) << (18 - 6 * i));
      i := i + 1;
    }
  }

  lemma FromTextStep(t: seq<bv8>)
    requires |t| > 0 && |t| % 4 == 0
    ensures |t| == 4 ==> (var val := GroupValue(t[0], t[1], t[2], ZERO_LETTER);
      FromText(t) == [Byte0(val), Byte1(val)] && (Canonical(t) <==> !Negative(val) && Byte2(val) == 0 && t[3] == PAD))
    ensures |t| > 4 ==> (var val := GroupValue(t[0], t[1], t[2], t[3]);
      FromText(t) == [Byte0(val), Byte1(val), Byte2(val)] + FromText(t[4..])
        && (Canonical(t) <==> !Negative(val) && Canonical(t[4..])))
  {
    hide GroupValue, Negative, Byte0, Byte1, Byte2;
  }

  /** The sign bit as a byte, and the final test of the accumulated flags. */
  function SignBit(val: bv32): (r: bv8)
    ensures r == 0 <==> !Negative(val)
  {
    (val >> 31) as bv8
  }

  function NoFlags(ret: bv8): (r: bool)
    ensures r <==> ret == 0
  {
    1 & Sar8((ret as bv32) - 1) == 1
  }

  lemma OrZero(x: bv8, y: bv8)
    ensures x | y == 0 <==> x == 0 && y == 0
  {
  }

  /** One group of four characters into three bytes of the key, its sign into the flags. */
  method DecodeInto(key: array<bv8>, base64: seq<bv8>, i: nat, ret: bv8, signed: bool)
    returns (flags: bv8, ghost val: bv32)
    requires 3 * i + 3 <= key.Length && 4 * i + 4 <= |base64|
    modifies key
    ensures val == GroupValue(base64[4 * i], base64[4 * i + 1], base64[4 * i + 2], base64[4 * i + 3])
    ensures flags == 0 <==> ret == 0 && !Negative(val)
    ensures key[..3 * i + 3] == old(key[..3 * i]) + [Byte0(val), Byte1(val), Byte2(val)]
  {
    hide GroupValue, Negative, Byte0, Byte1, Byte2, SignBit;
    var v := DecodeBase64(base64[4 * i..4 * i + 4], signed);
    val := v;
    OrZero(ret, SignBit(v));
    flags := ret | SignBit(v);
    key[3 * i], key[3 * i + 1], key[3 * i + 2] := Byte0(v), Byte1(v), Byte2(v);
  }

  /** The invariant of the loop over groups: what is decoded and what is still to come. */
  ghost predicate Progress(t: seq<bv8>, i: nat, key: seq<bv8>, ret: bv8)
    requires |t| == 44 && i <= 10
  {
    && (ret == 0 && Canonical(t[4 * i..]) <==> Canonical(t))
    && key + FromText(t[4 * i..]) == FromText(t)
  }

  lemma ProgressStep(t: seq<bv8>, i: nat, key: seq<bv8>, ret: bv8, flags: bv8)
    requires |t| == 44 && i < 10 && Progress(t, i, key, ret)
    requires var val := GroupValue(t[4 * i], t[4 * i + 1], t[4 * i + 2], t[4 * i + 3]);
      flags == 0 <==> ret == 0 && !Negative(val)
    ensures var val := GroupValue(t[4 * i], t[4 * i + 1], t[4 * i + 2], t[4 * i + 3]);
      Progress(t, i + 1, key + [Byte0(val), Byte1(val), Byte2(val)], flags)
  {
    hide FromText, Canonical, GroupValue, Negative, Byte0, Byte1, Byte2;
    var rest := t[4 * i..];
    FromTextStep(rest);
    assert rest[4..] == t[4 * (i + 1)..];
  }

  /** Decodes a key from a C string; true exactly for the canonical texts. */
  method KeyFromBase64(key: array<bv8>, base64: seq<bv8>, signed: bool) returns (ok: bool)
    requires key.Length == 32
    modifies key
    ensures ok <==> |base64| == 44 && Canonical(base64)
    ensures ok ==> key[..] == FromText(base64)
  {
    hide FromText, Canonical, GroupValue, Negative, Byte0, Byte1, Byte2, SignBit, NoFlags, Progress, InAlphabet;
    if |base64| != 44 {
      return false;
    }
    if base64[43] != PAD {
      CanonicalExactly(base64);
      return false;
    }
    var ret: bv8, i := 0, 0;
    assert Progress(base64, 0, key[..0], 0) by { ProgressStart(base64); }
    while i < 10
      invariant 0 <= i <= 10
      invariant Progress(base64, i, key[..3 * i], ret)
    {
      ghost var val, done, was := 0, key[..3 * i], ret;
      ret, val := DecodeInto(key, base64, i, ret, signed);
      ProgressStep(base64, i, done, was, ret);
      i := i + 1;
    }
    var val := DecodeBase64([base64[40], base64[41], base64[42], ZERO_LETTER], signed);
    ghost var done := key[..30];
    ProgressEnd(base64, done, ret, val);
    OrZero(SignBit(val), Byte2(val));
    OrZero(ret, SignBit(val) | Byte2(val));
    ret := ret | (SignBit(val) | Byte2(val));
    key[30], key[31] := Byte0(val), Byte1(val);
    assert key[..] == done + [Byte0(val), Byte1(val)];
    ok := NoFlags(ret);
  }

  lemma ProgressStart(t: seq<bv8>)
    requires |t| == 44
    ensures Progress(t, 0, [], 0)
  {
    hide FromText, Canonical;
    assert t[0..] == t;
  }

  lemma ProgressEnd(t: seq<bv8>, key: seq<bv8>, ret: bv8, val: bv32)
    requires |t| == 44 && Progress(t, 10, key, ret) && t[43] == PAD
    requires val == GroupValue(t[40], t[41], t[42], ZERO_LETTER)
    ensures key + [Byte0(val), Byte1(val)] == FromText(t)
    ensures Canonical(t) <==> ret == 0 && !Negative(val) && Byte2(val) == 0
  {
    hide FromText, Canonical, GroupValue, Negative, Byte0, Byte1, Byte2;
    FromTextStep(t[40..]);
  }
}
