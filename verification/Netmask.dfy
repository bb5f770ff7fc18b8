/** Whether an allowed IP has bits set beyond its prefix length. */
module Netmask {
  import opened Bits
  import Rfc7748

  /** An address as its 32-bit words in network order, the first the most significant. */
  function Address(words: seq<u32>): nat
  {
    if words == [] then 0 else Address(words[..|words| - 1]) * 0x1_0000_0000 + words[|words| - 1]
  }

  /** The bits below `host` of an address. */
  function HostPart(words: seq<u32>, host: nat): nat
  {
    Address(words) % Pow2(host)
  }

  /** Dropping zero words from the end drops their bits. */
  lemma LastWordHost(words: seq<u32>, host: nat)
    requires words != []
    ensures host <= 32 ==> HostPart(words, host) == words[|words| - 1] % Pow2(host)
    ensures host > 32 ==>
      (HostPart(words, host) == 0 <==> words[|words| - 1] == 0 && HostPart(words[..|words| - 1], host - 32) == 0)
  {
    var high, low := Address(words[..|words| - 1]), words[|words| - 1];
    Pow2Word();
    if host <= 32 {
      Rfc7748.Pow2Add(host, 32 - host);
      LowDigits(high, low, Pow2(host), Pow2(32 - host));
    } else {
      Rfc7748.Pow2Add(32, host - 32);
      HighDigits(high, low, 0x1_0000_0000, Pow2(host - 32));
    }
  }

  lemma Pow2Word()
    ensures Pow2(32) == 0x1_0000_0000
  {
    Rfc7748.Pow2Add(16, 16);
    assert Pow2(16) == 0x10000 by { Rfc7748.Pow2Add(8, 8); Pow2Byte(); }
  }

  lemma LowDigits(high: nat, low: nat, a: nat, b: nat)
    requires a > 0 && a * b == 0x1_0000_0000
    ensures (high * 0x1_0000_0000 + low) % a == low % a
  {
    var q := low / a;
    assert high * 0x1_0000_0000 == (high * b) * a by {
      assert high * (a * b) == (high * b) * a;
    }
    assert (high * b) * a + q * a == (high * b + q) * a;
    DivModUnique(high * 0x1_0000_0000 + low, a, high * b + q, low % a);
  }

  lemma HighDigits(high: nat, low: nat, w: nat, c: nat)
    requires 0 < w && low < w && c > 0
    ensures w * c > 0 && ((high * w + low) % (w * c) == 0 <==> low == 0 && high % c == 0)
  {
    assert w * c >= 1 * c by { Grows(w, c); }
    var q, r := high / c, high % c;
    assert high * w + low == q * (w * c) + (r * w + low) by {
      assert high == q * c + r;
      assert (q * c + r) * w == q * c * w + r * w;
      assert q * c * w == q * (w * c);
    }
    assert 0 <= r * w + low < w * c by { Fits(r, low, w, c); }
    DivModUnique(high * w + low, w * c, q, r * w + low);
    assert r > 0 ==> r * w >= w by { if r > 0 { Grows(r, w); } }
  }

  lemma Grows(m: nat, c: nat)
    requires m >= 1
    ensures m * c >= c
  {
  }

  lemma Fits(r: nat, low: nat, w: nat, c: nat)
    requires r < c && low < w
    ensures r * w + low < w * c
  {
    assert r * w <= (c - 1) * w;
    assert (c - 1) * w == c * w - w;
  }

  /** The scan from the last word; true exactly if the host part is zero. */
  method Validate(words: seq<u32>, cidr: nat) returns (ok: bool)
    requires words != []
    ensures ok <==> cidr >= 32 * |words| || HostPart(words, 32 * |words| - cidr) == 0
  {
    hide HostPart, Address, And, Pow2, LowMask;
    var i := |words|;
    assert words[..i] == words;
    while i > 0
      invariant 0 <= i <= |words|
      invariant (cidr >= 32 * |words| || HostPart(words, 32 * |words| - cidr) == 0)
        <==> (cidr >= 32 * i || HostPart(words[..i], 32 * i - cidr) == 0)
    {
      i := i - 1;
      if cidr >= 32 * (i + 1) {
        return true;
      }
      ghost var part := words[..i + 1];
      assert part[..i] == words[..i] && part[i] == words[i];
      LastWordHost(part, 32 * (i + 1) - cidr);
      var bits := if cidr > 32 * i then 32 - (cidr - 32 * i) else 32;
      MaskBits(words[i], bits);
      WholeWord(words[i]);
      if And(words[i], LowMask(bits)) != 0 {
        return false;
      }
    }
    ok := true;
  }

  function LowMask(k: nat): nat
  {
    Pow2(k) - 1
  }

  lemma MaskBits(x: u32, k: nat)
    ensures And(x, LowMask(k)) == x % Pow2(k)
  {
    AndLowMask(x, k);
  }

  lemma WholeWord(x: u32)
    ensures x % Pow2(32) == x
  {
    Pow2Word();
  }
}
