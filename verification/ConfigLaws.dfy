/** What the reader's values mean, letter by letter: what is accepted, what is refused, and what is filled
    in where a value is left out. */
module ConfigLaws {
  import opened Bits
  import opened Tlv
  import opened WgDevice
  import opened Text
  import opened GetDevice
  import opened KeyText
  import opened Config
  import opened SyncConf

  // ----- Letters and digits -----

  /** One letter is the other, or the same letter in the other case. */
  predicate SameLetter(a: char, b: char)
  {
    a == b || ('a' <= a <= 'z' && b as int == a as int - 32) || ('A' <= a <= 'Z' && b as int == a as int + 32)
  }

  lemma LowerExactly(a: char, b: char)
    ensures ToLower(a) == ToLower(b) <==> SameLetter(a, b)
  {
  }

  /** Comparing without case is comparing letter by letter, and nothing but letters has a case. */
  lemma CaseExactly(a: string, b: string)
    ensures SameNoCase(a, b) <==> |a| == |b| && forall i :: 0 <= i < |a| ==> SameLetter(a[i], b[i])
  {
    hide ToLower, SameLetter;
    forall i | 0 <= i < |a| && i < |b| ensures ToLower(a[i]) == ToLower(b[i]) <==> SameLetter(a[i], b[i]) {
      LowerExactly(a[i], b[i]);
    }
  }

  /** A key is recognised in any case, and its value is all that follows. */
  lemma KeyInAnyCase(k: string, key: string, value: string)
    requires |k| == |key| && value != [] && forall i :: 0 <= i < |k| ==> SameLetter(k[i], key[i])
    ensures GetValue(k + value, key) == Some(value)
  {
    hide SameNoCase, SameLetter;
    CaseExactly(k, key);
    assert (k + value)[..|key|] == k && (k + value)[|key|..] == value;
  }

  /** A key without a value is no key. */
  lemma ValueMissing(k: string, key: string)
    requires |k| <= |key|
    ensures GetValue(k, key) == None
  {
  }

  predicate Off(v: string)
  {
    |v| == 3 && (v[0] == 'o' || v[0] == 'O') && (v[1] == 'f' || v[1] == 'F') && (v[2] == 'f' || v[2] == 'F')
  }

  lemma OffExactly(v: string)
    ensures SameNoCase(v, "off") <==> Off(v)
  {
    var off := "off";
    assert off[0] == 'o' && off[1] == 'f' && off[2] == 'f' && |off| == 3;
    CaseExactly(v, off);
  }

  predicate Decimal(v: string)
  {
    v != [] && forall i :: 0 <= i < |v| ==> '0' <= v[i] <= '9'
  }

  predicate HexDigits(v: string)
  {
    v != [] && forall i :: 0 <= i < |v| ==> '0' <= v[i] <= '9' || 'a' <= v[i] <= 'f' || 'A' <= v[i] <= 'F'
  }

  /** The value of digits in a base, by their character codes. */
  function Worth(v: string, base: nat): int
  {
    if v == [] then 0
    else
      var c := v[|v| - 1] as int;
      base * Worth(v[..|v| - 1], base) + if c <= 57 then c - 48 else if c <= 70 then c - 55 else c - 87
  }

  /** A text is a number exactly if it is digits to the end, in either case. */
  lemma {:induction false} NumberExactly(v: string)
    ensures Number(v, 10) == (if Decimal(v) then Some(Worth(v, 10)) else None)
    ensures Number(v, 16) == (if HexDigits(v) then Some(Worth(v, 16)) else None)
  {
    if v != [] {
      var n := |v| - 1;
      var init := v[..n];
      NumberExactly(init);
      assert forall i :: 0 <= i < |init| ==> init[i] == v[i];
      assert Worth([], 10) == 0 && Worth([], 16) == 0;
      LastDigit(v);
    }
  }

  lemma LastDigit(v: string)
    requires v != []
    ensures var init := v[..|v| - 1]; var c := v[|v| - 1];
      && (Decimal(v) <==> (init == [] || Decimal(init)) && DigitValue(c) < 10)
      && (HexDigits(v) <==> (init == [] || HexDigits(init)) && DigitValue(c) < 16)
  {
    var init := v[..|v| - 1];
    assert forall i :: 0 <= i < |init| ==> init[i] == v[i];
  }

  // ----- Numbers -----

  /** A keepalive is "off" in any case, or a decimal number up to 65535; nothing else is. */
  lemma KeepaliveExactly(v: string)
    ensures ParseKeepalive(v) ==
      if Off(v) then Some(0)
      else if Decimal(v) && Worth(v, 10) <= 65535 then Some(Worth(v, 10))
      else None
  {
    hide Number, SameNoCase, Off;
    OffExactly(v);
    NumberExactly(v);
  }

  /** A mark is "off" in any case, or a number up to 0xffffffff, decimal or after 0x hexadecimal. */
  lemma FwmarkExactly(v: string)
    ensures ParseFwmark(v) ==
      if Off(v) then Some(0)
      else if Decimal(v) && Worth(v, 10) <= 0xffffffff then Some(Worth(v, 10))
      else if |v| > 2 && v[0] == '0' && v[1] == 'x' && HexDigits(v[2..]) && Worth(v[2..], 16) <= 0xffffffff
      then Some(Worth(v[2..], 16))
      else None
  {
    hide Number, SameNoCase, Off;
    OffExactly(v);
    NumberExactly(v);
    if |v| > 2 {
      NumberExactly(v[2..]);
    }
  }

  /** Every number in range is read from its numeral, in decimal and in hexadecimal, and no other is. */
  lemma NumeralsRead(n: nat)
    ensures ParseKeepalive(Numeral(n, 10)) == (if n <= 65535 then Some(n) else None)
    ensures ParseFwmark(Numeral(n, 10)) == (if n <= 0xffffffff then Some(n) else None)
    ensures ParseFwmark("0x" + Numeral(n, 16)) == (if n <= 0xffffffff then Some(n) else None)
  {
    hide Numeral, Number, Off, HexDigits, ParseKeepalive, ParseFwmark;
    var d, h := Numeral(n, 10), "0x" + Numeral(n, 16);
    NumberOfNumeral(n, 10);
    NumberOfNumeral(n, 16);
    NumberExactly(d);
    NumberExactly(Numeral(n, 16));
    KeepaliveExactly(d);
    FwmarkExactly(d);
    FwmarkExactly(h);
    assert !Off(d) by { NumeralPlain(n, 10); NotOff(d); }
    assert h[0] == '0' && h[1] == 'x' && h[2..] == Numeral(n, 16);
    assert !Off(h) by { NotOff(h); }
  }

  lemma NotOff(v: string)
    requires v != [] && '0' <= v[0] <= '9'
    ensures !Off(v)
  {
  }

  // ----- Allowed IPs -----

  /** An address with a prefix length is IPv6 if it has a colon; the length may be up to 128 then, and up to
      32 otherwise. */
  lemma EntryExactly(c: Codec, t: string, n: nat)
    requires Free(t, '/')
    ensures var family := if Free(t, ':') then 2 else 10; var bytes := c.parseIp(family, t);
      ParseEntry(c, t + "/" + Numeral(n, 10)) ==
        if bytes.None? || n > (if Free(t, ':') then 32 else 128) then None
        else Some(AllowedIp(family, Copied(Zeros(16), bytes.value), n))
  {
    hide IndexOf, Numeral, Number, Zeros, Copied;
    var mask := Numeral(n, 10);
    var entry := t + "/" + mask;
    IndexOfConcat(t, '/', mask);
    assert entry[..|t|] == t && entry[|t| + 1..] == mask;
    ColonIndex(t);
    NumeralPlain(n, 10);
    NumberOfNumeral(n, 10);
  }

  lemma ColonIndex(t: string)
    ensures IndexOf(t, ':') < |t| <==> !Free(t, ':')
  {
    if IndexOf(t, ':') == |t| {
      assert t[..|t|] == t;
    }
  }

  /** An address without a prefix length is one with all its bits: 32 of an IPv4, 128 of an IPv6 address. */
  lemma EntryWithoutMask(c: Codec, t: string)
    requires Free(t, '/')
    ensures Free(t, ':') ==> ParseEntry(c, t) == ParseEntry(c, t + "/32")
    ensures !Free(t, ':') ==> ParseEntry(c, t) == ParseEntry(c, t + "/128")
  {
    hide IndexOf, Number, Zeros, Copied;
    IndexOfNone(t, '/');
    assert t[..|t|] == t;
    ColonIndex(t);
    assert Numeral(32, 10) == "32" && Numeral(128, 10) == "128" by { Widths(); }
    assert t + "/" + "32" == t + "/32" && t + "/" + "128" == t + "/128";
    EntryExactly(c, t, 32);
    EntryExactly(c, t, 128);
  }

  lemma Widths()
    ensures Numeral(32, 10) == "32" && Numeral(128, 10) == "128"
  {
    assert Digit(3) == '3' && Digit(2) == '2' && Digit(1) == '1' && Digit(8) == '8';
    assert Numeral(3, 10) == "3" && Numeral(12, 10) == "12";
  }

  /** A prefix length that is no decimal number is refused. */
  lemma MaskRefused(c: Codec, t: string, mask: string)
    requires Free(t, '/') && !Decimal(mask)
    ensures ParseEntry(c, t + "/" + mask) == None
  {
    hide IndexOf, Number, Zeros, Copied;
    var entry := t + "/" + mask;
    IndexOfConcat(t, '/', mask);
    assert entry[..|t|] == t && entry[|t| + 1..] == mask;
    NumberExactly(mask);
  }

  // ----- Endpoints -----

  /** An endpoint without a port is refused. */
  lemma PortMissing(c: Codec, t: string)
    requires t == [] || (t[0] != '[' && (Free(t, ':') || t[|t| - 1] == ':')) || (t[0] == '[' && Free(t, ']'))
    ensures ParseEndpoint(c, t) == None
  {
    hide IndexOf, LastIndexOf;
    if t != [] && t[0] == '[' {
      IndexOfNone(t, ']');
    } else if t != [] && !Free(t, ':') {
      LastIndexOfConcat(t[..|t| - 1], ':', "");
      assert t == t[..|t| - 1] + [':'] + "";
    }
  }

  // ----- Lines -----

  lemma SpaceExactly(c: char)
    ensures IsSpace(c) <==> c == ' ' || c == '\t' || c == '\n' || c == '\r' || c as int == 11 || c as int == 12
  {
  }

  /** A comment says nothing. */
  lemma {:induction false} CommentIgnored(c: Codec, s: State, line: string, comment: string)
    ensures ReadLine(c, s, line + "#" + comment) == ReadLine(c, s, line)
  {
    hide Process;
    CleanComment(line, comment);
  }

  lemma {:induction false} CleanComment(line: string, comment: string)
    ensures Clean(line + "#" + comment) == Clean(line)
  {
    var all := line + "#" + comment;
    if line == [] {
      assert all[0] == '#';
    } else {
      assert all[0] == line[0] && all[1..] == line[1..] + "#" + comment;
      CleanComment(line[1..], comment);
    }
  }

  /** White space says nothing, wherever it stands. */
  lemma SpaceIgnored(c: Codec, s: State, a: string, x: char, b: string)
    requires x == ' ' || x == '\t' || x == '\n' || x == '\r'
    ensures ReadLine(c, s, a + [x] + b) == ReadLine(c, s, a + b)
  {
    hide Process;
    CleanSpace(a, x, b);
  }

  lemma {:induction false} CleanSpace(a: string, x: char, b: string)
    requires IsSpace(x)
    ensures Clean(a + [x] + b) == Clean(a + b)
  {
    var with, without := a + [x] + b, a + b;
    if a == [] {
      assert with[0] == x && with[1..] == b && without == b;
      assert [] + Clean(b) == Clean(b);
    } else {
      assert with[0] == a[0] == without[0] && with[1..] == a[1..] + [x] + b && without[1..] == a[1..] + b;
      CleanSpace(a[1..], x, b);
    }
  }

  /** Before the first section, a line that is no section is refused. */
  lemma SectionFirst(c: Codec, conf: Conf, line: string)
    requires line != [] && line[0] != '['
    ensures Process(c, State(conf, Nowhere), line) == None
  {
    assert "[Interface]"[0] == '[' && "[Peer]"[0] == '[';
  }

  /** A line without an equals sign that is no section is refused, in every section. */
  lemma NoEquals(c: Codec, s: State, line: string)
    requires Free(line, '=') && (line == [] || line[0] != '[')
    ensures Process(c, s, line) == None
  {
    hide GetValue, SameNoCase;
    assert !SameNoCase(line, "[Interface]") && !SameNoCase(line, "[Peer]") by { NotHeading(line); }
    NoValue(line, "ListenPort=", 10);
    NoValue(line, "FwMark=", 6);
    NoValue(line, "PrivateKey=", 10);
    NoValue(line, "Endpoint=", 8);
    NoValue(line, "PublicKey=", 9);
    NoValue(line, "AllowedIPs=", 10);
    NoValue(line, "PersistentKeepalive=", 19);
    NoValue(line, "PresharedKey=", 12);
  }

  lemma NotHeading(line: string)
    requires line == [] || line[0] != '['
    ensures !SameNoCase(line, "[Interface]") && !SameNoCase(line, "[Peer]")
  {
    assert "[Interface]"[0] == '[' && "[Peer]"[0] == '[' && |"[Interface]"| == 11 && |"[Peer]"| == 6;
  }

  lemma NoValue(line: string, key: string, at: nat)
    requires Free(line, '=') && at < |key| && key[at] == '='
    ensures GetValue(line, key) == None
  {
    if |key| < |line| {
      assert line[..|key|][at] == line[at];
    }
  }

  // ----- The whole file -----

  /** A configuration with a peer that has no key is refused, and any other is what was read. */
  lemma KeylessRefused(s: State, i: nat)
    requires i < |s.conf.peers| && !s.conf.peers[i].hasKey
    ensures Finish(s) == None
  {
  }

  /** What every file leaves: nothing it does not say is set, peers are to have their allowed IPs replaced
      and none is to be removed, and unless it is to be appended the whole device is replaced. */
  ghost predicate Plain(conf: Conf, append: bool)
  {
    && conf.replacePeers == !append && (!append ==> conf.hasPrivateKey && conf.hasListenPort && conf.hasFwmark)
    && (append && !conf.hasPrivateKey ==> conf.privateKey == Zeros(32))
    && (append && !conf.hasListenPort ==> conf.listenPort == 0) && (append && !conf.hasFwmark ==> conf.fwmark == 0)
    && forall i :: 0 <= i < |conf.peers| ==> PlainPeer(conf.peers[i])
  }

  ghost predicate PlainPeer(p: PeerConf)
  {
    && !p.peer.removeMe && p.peer.replaceIps && (!p.peer.hasPsk ==> p.peer.psk == Zeros(32))
    && (!p.peer.hasKeepalive ==> p.peer.keepalive == 0) && (!p.hasKey ==> p.peer.key == Zeros(32))
  }

  lemma PeerLinePlain(c: Codec, p: PeerConf, line: string)
    requires PlainPeer(p)
    ensures var r := PeerLine(c, p, line); r.Some? ==> PlainPeer(r.value)
  {
    hide GetValue, ParseEntries, Split, ParseEndpoint, ParseKeepalive, ParseKeyText, Copied, Zeros;
  }

  lemma DeviceLinePlain(c: Codec, conf: Conf, line: string, append: bool)
    requires Plain(conf, append)
    ensures var r := DeviceLine(c, conf, line); r.Some? ==> Plain(r.value, append)
  {
    hide GetValue, ParseFwmark, ParseKeyText, PlainPeer, Zeros;
  }

  lemma ProcessPlain(c: Codec, s: State, line: string, append: bool)
    requires Plain(s.conf, append)
    ensures var r := Process(c, s, line); r.Some? ==> Plain(r.value.conf, append)
  {
    hide SameNoCase, PeerLine, DeviceLine, PlainPeer;
    assert PlainPeer(BLANK_PEER) by { BlankPlain(); }
    DeviceLinePlain(c, s.conf, line, append);
    if s.conf.peers != [] {
      PeerLinePlain(c, s.conf.peers[|s.conf.peers| - 1], line);
    }
  }

  lemma BlankPlain()
    ensures PlainPeer(BLANK_PEER)
  {
  }

  lemma {:induction false} LinesPlain(c: Codec, s: State, lines: seq<string>, append: bool)
    requires Plain(s.conf, append)
    ensures var r := ReadLines(c, s, lines); r.Some? ==> Plain(r.value.conf, append)
    decreases |lines|
  {
    hide Process, Clean, Plain;
    if lines != [] {
      var line := Clean(lines[0]);
      ProcessPlain(c, s, line, append);
      var next := ReadLine(c, s, lines[0]);
      if next.Some? {
        LinesPlain(c, next.value, lines[1..], append);
      }
    }
  }

  function Peers(conf: Conf): seq<Peer>
  {
    seq(|conf.peers|, i requires 0 <= i < |conf.peers| => conf.peers[i].peer)
  }

  /** Whatever a file says, as it is read from nothing: appending leaves unsaid what the file does not say,
      and the peers are such as synchronising asks for. */
  lemma FilePlain(c: Codec, lines: seq<string>, append: bool)
    ensures var r := ReadLines(c, Init(append), lines); r.Some? ==> Plain(r.value.conf, append)
    ensures var r := ReadLines(c, Init(append), lines); r.Some? ==> FromConfig(Peers(r.value.conf))
    ensures Init(true) == State(Conf(false, false, false, false, Zeros(32), 0, 0, []), Nowhere)
  {
    hide ReadLines;
    LinesPlain(c, Init(append), lines, append);
  }
}
