/** The key half of the configuration's text codec is the base64 codec, and needs no assumption. */
module KeyText {
  import opened Bits
  import opened Text
  import opened Encoding

  // ----- Bytes and 8-bit words -----

  datatype Octet = Octet(b0: bool, b1: bool, b2: bool, b3: bool, b4: bool, b5: bool, b6: bool, b7: bool)

  function Odd(x: nat): bool { x % 2 == 1 }

  function OfInt(x: u8): Octet
  {
    var x1 := x / 2; var x2 := x1 / 2; var x3 := x2 / 2; var x4 := x3 / 2; var x5 := x4 / 2; var x6 := x5 / 2;
    var x7 := x6 / 2;
    Octet(Odd(x), Odd(x1), Odd(x2), Odd(x3), Odd(x4), Odd(x5), Odd(x6), Odd(x7))
  }

  /** Twice a number, plus one or not. */
  function Shifted(b: bool, x: nat): nat { (if b then 1 else 0) + 2 * x }

  lemma ShiftedHalf(x: nat)
    ensures Shifted(Odd(x), x / 2) == x
  {
  }

  lemma HalfShifted(b: bool, x: nat)
    ensures Odd(Shifted(b, x)) == b && Shifted(b, x) / 2 == x
  {
  }

  function ToInt(o: Octet): (x: u8)
  {
    var x6 := Shifted(o.b6, Shifted(o.b7, 0));
    var x4 := Shifted(o.b4, Shifted(o.b5, x6));
    var x2 := Shifted(o.b2, Shifted(o.b3, x4));
    Shifted(o.b0, Shifted(o.b1, x2))
  }

  function OfWord(w: bv8): Octet
  {
    Octet(w & 1 != 0, w & 2 != 0, w & 4 != 0, w & 8 != 0, w & 16 != 0, w & 32 != 0, w & 64 != 0, w & 128 != 0)
  }

  function ToWord(o: Octet): bv8
  {
    (if o.b0 then 1 else 0) | (if o.b1 then 2 else 0) | (if o.b2 then 4 else 0) | (if o.b3 then 8 else 0)
    | (if o.b4 then 16 else 0) | (if o.b5 then 32 else 0) | (if o.b6 then 64 else 0) | (if o.b7 then 128 else 0)
  }

  lemma IntOctet(x: u8)
    ensures ToInt(OfInt(x)) == x
  {
    hide Odd, Shifted;
    var x1 := x / 2; var x2 := x1 / 2; var x3 := x2 / 2; var x4 := x3 / 2; var x5 := x4 / 2; var x6 := x5 / 2;
    var x7 := x6 / 2;
    ShiftedHalf(x);
    ShiftedHalf(x1);
    ShiftedHalf(x2);
    ShiftedHalf(x3);
    ShiftedHalf(x4);
    ShiftedHalf(x5);
    ShiftedHalf(x6);
    ShiftedHalf(x7);
    assert x7 / 2 == 0;
  }

  lemma OctetInt(o: Octet)
    ensures OfInt(ToInt(o)) == o
  {
    hide Odd, Shifted;
    var x7 := Shifted(o.b7, 0);
    var x6 := Shifted(o.b6, x7);
    var x5 := Shifted(o.b5, x6);
    var x4 := Shifted(o.b4, x5);
    var x3 := Shifted(o.b3, x4);
    var x2 := Shifted(o.b2, x3);
    var x1 := Shifted(o.b1, x2);
    HalfShifted(o.b7, 0);
    HalfShifted(o.b6, x7);
    HalfShifted(o.b5, x6);
    HalfShifted(o.b4, x5);
    HalfShifted(o.b3, x4);
    HalfShifted(o.b2, x3);
    HalfShifted(o.b1, x2);
    HalfShifted(o.b0, x1);
  }

  lemma WordOctet(w: bv8)
    ensures ToWord(OfWord(w)) == w
  {
  }

  lemma OctetWord(o: Octet)
    ensures OfWord(ToWord(o)) == o
  {
  }

  function ToBv(x: u8): bv8 { ToWord(OfInt(x)) }

  function FromBv(b: bv8): (x: u8) { ToInt(OfWord(b)) }

  lemma ByteInverse(x: u8)
    ensures FromBv(ToBv(x)) == x
  {
    hide OfInt, ToInt, OfWord, ToWord;
    OctetWord(OfInt(x));
    IntOctet(x);
  }

  lemma BvInverse(b: bv8)
    ensures ToBv(FromBv(b)) == b
  {
    hide OfInt, ToInt, OfWord, ToWord;
    OctetInt(OfWord(b));
    WordOctet(b);
  }

  function ToBvs(k: seq<u8>): (r: seq<bv8>)
    ensures |r| == |k|
  {
    if k == [] then [] else [ToBv(k[0])] + ToBvs(k[1..])
  }

  function FromBvs(k: seq<bv8>): (r: seq<u8>)
    ensures |r| == |k|
  {
    if k == [] then [] else [FromBv(k[0])] + FromBvs(k[1..])
  }

  lemma {:induction false} BytesInverse(k: seq<u8>)
    ensures FromBvs(ToBvs(k)) == k
  {
    hide ToBv, FromBv;
    if k != [] {
      BytesInverse(k[1..]);
      ByteInverse(k[0]);
      assert ToBvs(k)[1..] == ToBvs(k[1..]);
    }
  }

  function Chars(t: seq<bv8>): (s: string)
    ensures |s| == |t|
  {
    if t == [] then [] else [FromBv(t[0]) as char] + Chars(t[1..])
  }

  /** The bytes of a C string; a character beyond a byte cannot occur in one. */
  function Bytes(s: string): (t: seq<bv8>)
    ensures |t| == |s|
  {
    if s == [] then [] else [ToBv(s[0] as int % 256)] + Bytes(s[1..])
  }

  lemma {:induction false} CharsInverse(t: seq<bv8>)
    ensures Bytes(Chars(t)) == t
  {
    hide ToBv, FromBv;
    if t != [] {
      CharsInverse(t[1..]);
      BvInverse(t[0]);
      var x := FromBv(t[0]);
      assert (x as char) as int % 256 == x;
      assert Chars(t)[1..] == Chars(t[1..]);
    }
  }

  function KeyToText(k: seq<u8>): string
  {
    if |k| == 32 then Chars(ToText(ToBvs(k))) else []
  }

  function ParseKeyText(s: string): Option<seq<u8>>
  {
    if |s| == 44 && Canonical(Bytes(s)) then Some(FromBvs(FromText(Bytes(s)))) else None
  }

  lemma LetterDense(b: bv8)
    requires Value(b) < 64 || b == PAD
    ensures var c := FromBv(b) as char; !IsSpace(c) && c != '#'
  {
    assert b >= 43;
    var x := FromBv(b);
    assert x >= 43;
  }

  lemma {:induction false} CharsDense(t: seq<bv8>)
    requires forall i :: 0 <= i < |t| ==> Value(t[i]) < 64 || t[i] == PAD
    ensures Dense(Chars(t))
  {
    hide Value, FromBv, IsSpace;
    if t != [] {
      CharsDense(t[1..]);
      LetterDense(t[0]);
      var s := Chars(t);
      forall i | 0 <= i < |s| ensures !IsSpace(s[i]) && s[i] != '#' {
        if i > 0 {
          assert s[i] == Chars(t[1..])[i - 1];
        }
      }
    }
  }

  /** Every key's text is one word that parses back to the key. */
  lemma KeyTextFaithful(k: seq<u8>)
    requires |k| == 32
    ensures var t := KeyToText(k); t != [] && Dense(t) && ParseKeyText(t) == Some(k)
  {
    hide Value, ToText, FromText, Canonical, Chars, Bytes, ToBvs, FromBvs;
    var key := ToBvs(k);
    var text := ToText(key);
    DecodeEncoded(key);
    CanonicalExactly(text);
    forall i | 0 <= i < |text| ensures Value(text[i]) < 64 || text[i] == PAD {
      if i < |text| - 1 {
        assert text[..|text| - 1][i] == text[i];
      }
    }
    CharsDense(text);
    CharsInverse(text);
    BytesInverse(k);
  }
}
