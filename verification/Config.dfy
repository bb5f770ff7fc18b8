/** The configuration reader: one line at a time, into a device under construction. Addresses,
    services and names are read by the library functions of a codec. */
module Config {
  import opened Bits
  import opened Tlv
  import opened WgDevice
  import opened Text
  import opened KeyText
  import opened SetDevice
  import opened GetDevice

  /** The library's conversions between text and bytes. */
  datatype Codec = Codec(
    ipText: (nat, seq<u8>) -> string, parseIp: (nat, string) -> Option<seq<u8>>,
    parsePort: string -> Option<nat>,
    nameInfo: seq<u8> -> Option<(string, string)>, resolve: (string, string) -> Option<seq<u8>>)

  datatype PeerConf = PeerConf(hasKey: bool, peer: Peer)

  datatype Conf = Conf(
    replacePeers: bool, hasPrivateKey: bool, hasListenPort: bool, hasFwmark: bool,
    privateKey: seq<u8>, listenPort: nat, fwmark: nat, peers: seq<PeerConf>)

  datatype Section = Nowhere | InDevice | InPeer

  /** What the reader has understood so far. */
  datatype State = State(conf: Conf, section: Section)

  // ----- Values -----

  function ParseFwmark(value: string): Option<nat>
  {
    if SameNoCase(value, "off") then Some(0)
    else if value == [] || !IsDigit(value[0]) then None
    else
      var n := if |value| > 2 && value[0] == '0' && value[1] == 'x' then Number(value[2..], 16) else Number(value, 10);
      if n.Some? && n.value <= 0xffffffff then n else None
  }

  function ParseKeepalive(value: string): Option<nat>
  {
    if SameNoCase(value, "off") then Some(0)
    else if value == [] || !IsDigit(value[0]) then None
    else
      var n := Number(value, 10);
      if n.Some? && n.value <= 65535 then n else None
  }

  function ParseCidr(mask: string, limit: nat): (r: Option<nat>)
    ensures r.Some? ==> r.value <= limit
  {
    if mask == [] || !IsDigit(mask[0]) then None
    else
      var n := Number(mask, 10);
      if n.Some? && n.value <= limit then n else None
  }

  /** One entry of an allowed-IP list: an address, and a prefix length unless it is the whole address. */
  function ParseEntry(c: Codec, entry: string): Option<AllowedIp>
  {
    var n := IndexOf(entry, '/');
    var text := entry[..n];
    var family := if IndexOf(text, ':') < |text| then AF_INET6 else AF_INET;
    var limit := if family == AF_INET then 32 else 128;
    var bytes := c.parseIp(family, text);
    var cidr := if n < |entry| then ParseCidr(entry[n + 1..], limit) else Some(limit);
    if bytes.None? || cidr.None? then None
    else Some(AllowedIp(family, Copied(Zeros(16), bytes.value), cidr.value))
  }

  function ParseEntries(c: Codec, entries: seq<string>): Option<seq<AllowedIp>>
  {
    if entries == [] then Some([])
    else
      var ip := ParseEntry(c, entries[0]);
      var rest := ParseEntries(c, entries[1..]);
      if ip.None? || rest.None? then None else Some([ip.value] + rest.value)
  }

  function ParseEndpoint(c: Codec, value: string): Option<seq<u8>>
  {
    if value == [] then None
    else if value[0] == '[' then
      var e := IndexOf(value, ']');
      if e + 2 < |value| && value[e + 1] == ':' then c.resolve(value[1..e], value[e + 2..]) else None
    else
      var e := LastIndexOf(value, ':');
      if e + 1 < |value| then c.resolve(value[..e], value[e + 1..]) else None
  }

  // ----- Lines -----

  const BLANK_PEER := PeerConf(false, Peer(false, true, false, false, Zeros(32), Zeros(32), Zeros(28), 0, []))

  /** The last peer of a list, changed. */
  function WithLast(conf: Conf, p: PeerConf): Conf
    requires conf.peers != []
  {
    conf.(peers := conf.peers[..|conf.peers| - 1] + [p])
  }

  function DeviceLine(c: Codec, conf: Conf, line: string): Option<Conf>
  {
    var port, mark, key := GetValue(line, "ListenPort="), GetValue(line, "FwMark="), GetValue(line, "PrivateKey=");
    if port.Some? then
      var n := c.parsePort(port.value);
      if n.None? then None else Some(conf.(listenPort := n.value, hasListenPort := true))
    else if mark.Some? then
      var n := ParseFwmark(mark.value);
      if n.None? then None else Some(conf.(fwmark := n.value, hasFwmark := true))
    else if key.Some? then
      var k := ParseKeyText(key.value);
      if k.None? then None else Some(conf.(privateKey := k.value, hasPrivateKey := true))
    else None
  }

  function PeerLine(c: Codec, p: PeerConf, line: string): Option<PeerConf>
  {
    var endpoint, key, ips := GetValue(line, "Endpoint="), GetValue(line, "PublicKey="), GetValue(line, "AllowedIPs=");
    var keepalive, psk := GetValue(line, "PersistentKeepalive="), GetValue(line, "PresharedKey=");
    if endpoint.Some? then
      var e := ParseEndpoint(c, endpoint.value);
      if e.None? then None else Some(p.(peer := p.peer.(endpoint := Copied(p.peer.endpoint, e.value))))
    else if key.Some? then
      var k := ParseKeyText(key.value);
      if k.None? then None else Some(PeerConf(true, p.peer.(key := k.value)))
    else if ips.Some? then
      var list := ParseEntries(c, Split(ips.value, ','));
      if list.None? then None else Some(p.(peer := p.peer.(replaceIps := true, ips := p.peer.ips + list.value)))
    else if keepalive.Some? then
      var n := ParseKeepalive(keepalive.value);
      if n.None? then None else Some(p.(peer := p.peer.(keepalive := n.value, hasKeepalive := true)))
    else if psk.Some? then
      var k := ParseKeyText(psk.value);
      if k.None? then None else Some(p.(peer := p.peer.(psk := k.value, hasPsk := true)))
    else None
  }

  /** What one line, cleaned and not empty, does. */
  function Process(c: Codec, s: State, line: string): Option<State>
  {
    if SameNoCase(line, "[Interface]") then Some(State(s.conf, InDevice))
    else if SameNoCase(line, "[Peer]") then Some(State(s.conf.(peers := s.conf.peers + [BLANK_PEER]), InPeer))
    else if s.section == InDevice then
      var conf := DeviceLine(c, s.conf, line);
      if conf.None? then None else Some(s.(conf := conf.value))
    else if s.section == InPeer && s.conf.peers != [] then
      var p := PeerLine(c, s.conf.peers[|s.conf.peers| - 1], line);
      if p.None? then None else Some(s.(conf := WithLast(s.conf, p.value)))
    else None
  }

  function ReadLine(c: Codec, s: State, input: string): Option<State>
  {
    var line := Clean(input);
    if line == [] then Some(s) else Process(c, s, line)
  }

  function ReadLines(c: Codec, s: State, lines: seq<string>): Option<State>
    decreases |lines|
  {
    if lines == [] then Some(s)
    else
      var next := ReadLine(c, s, lines[0]);
      if next.None? then None else ReadLines(c, next.value, lines[1..])
  }

  function Init(append: bool): State
  {
    State(Conf(!append, !append, !append, !append, Zeros(32), 0, 0, []), Nowhere)
  }

  /** A configuration is complete if every peer has its key. */
  function Finish(s: State): Option<Conf>
  {
    if forall i :: 0 <= i < |s.conf.peers| ==> s.conf.peers[i].hasKey then Some(s.conf) else None
  }

  // ----- The reader -----

  /** The cursor at the end of a list. */
  function Tail<T>(list: seq<T>): Cursor
  {
    if list == [] then Null else At(|list| - 1)
  }

  /** Hanging a node behind the node a tail pointer names: whatever followed that node is lost. */
  function Link<T>(list: seq<T>, tail: Cursor, x: T): seq<T>
    requires tail.At? ==> tail.n < |list|
  {
    if tail.Null? then [x] else list[..tail.n + 1] + [x]
  }

  /** Behind the true tail nothing is lost. */
  lemma LinkAtTail<T>(list: seq<T>, x: T)
    ensures Link(list, Tail(list), x) == list + [x] && Tail(list + [x]) == At(|list|)
  {
    if list == [] {
      assert list + [x] == [x];
    } else {
      assert list[..|list|] == list;
    }
  }

  lemma {:induction false} EntriesAppend(c: Codec, a: seq<string>, x: string)
    requires ParseEntries(c, a).Some?
    ensures ParseEntries(c, a + [x]) ==
      if ParseEntry(c, x).None? then None else Some(ParseEntries(c, a).value + [ParseEntry(c, x).value])
  {
    hide ParseEntry;
    if a == [] {
      assert a + [x] == [x];
      assert [x][1..] == [];
      if ParseEntry(c, x).Some? {
        assert [ParseEntry(c, x).value] + [] == [] + [ParseEntry(c, x).value];
      }
    } else {
      assert (a + [x])[1..] == a[1..] + [x];
      EntriesAppend(c, a[1..], x);
      var ip, rest := ParseEntry(c, a[0]).value, ParseEntries(c, a[1..]).value;
      assert ParseEntries(c, a).value == [ip] + rest;
      if ParseEntry(c, x).Some? {
        assert [ip] + (rest + [ParseEntry(c, x).value]) == ([ip] + rest) + [ParseEntry(c, x).value];
      }
    }
  }

  lemma {:induction false} EntriesFail(c: Codec, a: seq<string>, b: seq<string>)
    requires ParseEntries(c, a).None?
    ensures ParseEntries(c, a + b).None?
  {
    hide ParseEntry;
    if a != [] {
      assert (a + b)[1..] == a[1..] + b;
      if ParseEntry(c, a[0]).Some? {
        EntriesFail(c, a[1..], b);
      }
    }
  }

  /** Appends the entries of a comma-separated list behind the tail, and moves the tail. */
  method ParseAllowedIps(c: Codec, value: string, first: seq<AllowedIp>, last: Cursor)
    returns (ok: bool, ips: seq<AllowedIp>, tail: Cursor)
    requires last == Tail(first)
    ensures var entries := if value == [] then Some([]) else ParseEntries(c, Split(value, ','));
      ok == entries.Some? && (ok ==> ips == first + entries.value && tail == Tail(ips))
  {
    hide ParseEntry, ParseEntries, Split, Pieces, Link;
    if value == [] {
      assert first + [] == first;
      return true, first, last;
    }
    ghost var done: seq<string> := [];
    ghost var got: seq<AllowedIp> := [];
    var sep := Some(value);
    ips, tail := first, last;
    NoEntries(c);
    PiecesStart(value);
    assert first + got == first;
    while sep.Some?
      invariant Split(value, ',') == done + Pieces(sep)
      invariant ParseEntries(c, done) == Some(got) && ips == first + got && tail == Tail(ips)
      decreases if sep.Some? then |sep.value| + 1 else 0
    {
      var text := sep.value;
      var n := IndexOf(text, ',');
      var entry := text[..n];
      sep := if n < |text| then Some(text[n + 1..]) else None;
      PiecesStep(done, text, entry, sep);
      var ip := ParseEntry(c, entry);
      EntriesAppend(c, done, entry);
      if ip.None? {
        EntriesFail(c, done + [entry], Pieces(sep));
        return false, ips, tail;
      }
      LinkAtTail(ips, ip.value);
      ips, tail := Link(ips, tail, ip.value), At(|ips|);
      done, got := done + [entry], got + [ip.value];
    }
    PiecesEnd(done);
    ok := true;
  }

  /** The entries still to come, where `sep` is the rest of the list or null. */
  function Pieces(sep: Option<string>): seq<string>
  {
    if sep.Some? then Split(sep.value, ',') else []
  }

  lemma PiecesStart(value: string)
    ensures Split(value, ',') == [] + Pieces(Some(value))
  {
    hide Split;
  }

  lemma PiecesStep(done: seq<string>, text: string, entry: string, sep: Option<string>)
    requires var n := IndexOf(text, ','); entry == text[..n] && sep == if n < |text| then Some(text[n + 1..]) else None
    ensures done + Pieces(Some(text)) == (done + [entry]) + Pieces(sep)
  {
    hide Split;
    SplitStep(text);
    assert Pieces(Some(text)) == [entry] + Pieces(sep);
  }

  lemma PiecesEnd(done: seq<string>)
    ensures done + Pieces(None) == done
  {
  }

  lemma NoEntries(c: Codec)
    ensures ParseEntries(c, []) == Some([])
  {
  }

  lemma SplitStep(text: string)
    ensures var n := IndexOf(text, ',');
      Split(text, ',') == if n == |text| then [text[..n]] else [text[..n]] + Split(text[n + 1..], ',')
  {
    hide IndexOf;
    var n := IndexOf(text, ',');
    assert n == |text| ==> text[..n] == text;
  }

  class Context {
    var conf: Conf
    var lastPeer: Cursor
    var lastIp: Cursor
    var isPeer: bool
    var isDevice: bool

    /** The tail pointers are the true tails, and at most one section is open. */
    ghost predicate Valid()
      reads this
    {
      && lastPeer == Tail(conf.peers)
      && lastIp == (if conf.peers == [] then Null else Tail(conf.peers[|conf.peers| - 1].peer.ips))
      && !(isPeer && isDevice) && (isPeer ==> conf.peers != [])
    }

    ghost function Understood(): State
      reads this
    {
      State(conf, if isDevice then InDevice else if isPeer then InPeer else Nowhere)
    }

    constructor (append: bool)
      ensures Valid() && Understood() == Init(append)
    {
      conf := Conf(!append, !append, !append, !append, Zeros(32), 0, 0, []);
      lastPeer, lastIp, isPeer, isDevice := Null, Null, false, false;
    }

    method ProcessDeviceLine(c: Codec, line: string) returns (ok: bool)
      requires Valid() && isDevice
      modifies this`conf
      ensures ok == DeviceLine(c, old(conf), line).Some?
      ensures ok ==> Valid() && conf == DeviceLine(c, old(conf), line).value
    {
      hide GetValue, ParseFwmark, ParseKeyText;
      var value := GetValue(line, "ListenPort=");
      if value.Some? {
        var n := c.parsePort(value.value);
        if n.None? { return false; }
        conf := conf.(listenPort := n.value, hasListenPort := true);
        return true;
      }
      value := GetValue(line, "FwMark=");
      if value.Some? {
        var n := ParseFwmark(value.value);
        if n.None? { return false; }
        conf := conf.(fwmark := n.value, hasFwmark := true);
        return true;
      }
      value := GetValue(line, "PrivateKey=");
      if value.Some? {
        var k := ParseKeyText(value.value);
        if k.None? { return false; }
        conf := conf.(privateKey := k.value, hasPrivateKey := true);
        return true;
      }
      return false;
    }

    /** Changes the peer the last-peer pointer names, and the tail of its allowed IPs. */
    method SetLast(p: PeerConf, tail: Cursor)
      requires Valid() && isPeer && tail == Tail(p.peer.ips)
      modifies this`conf, this`lastIp
      ensures Valid() && conf == WithLast(old(conf), p)
    {
      conf, lastIp := conf.(peers := conf.peers[lastPeer.n := p]), tail;
      assert conf.peers == old(conf.peers)[..|old(conf.peers)| - 1] + [p];
    }

    method ProcessPeerLine(c: Codec, line: string) returns (ok: bool)
      requires Valid() && isPeer
      modifies this`conf, this`lastIp
      ensures var p := PeerLine(c, old(conf.peers)[|old(conf.peers)| - 1], line);
        ok == p.Some? && (ok ==> Valid() && conf == WithLast(old(conf), p.value))
    {
      hide GetValue, ParseEndpoint, ParseEntries, ParseKeepalive, ParseKeyText, Split, WithLast, Tail, Copied;
      assert lastPeer == At(|conf.peers| - 1) by { TailOf(conf.peers); }
      var p := conf.peers[lastPeer.n];
      var value := GetValue(line, "Endpoint=");
      if value.Some? {
        var e := ParseEndpoint(c, value.value);
        if e.None? { return false; }
        SetLast(p.(peer := p.peer.(endpoint := Copied(p.peer.endpoint, e.value))), lastIp);
        return true;
      }
      value := GetValue(line, "PublicKey=");
      if value.Some? {
        var k := ParseKeyText(value.value);
        if k.None? { return false; }
        SetLast(PeerConf(true, p.peer.(key := k.value)), lastIp);
        return true;
      }
      value := GetValue(line, "AllowedIPs=");
      if value.Some? {
        ValueNotEmpty(line, "AllowedIPs=");
        var ips, tail;
        ok, ips, tail := ParseAllowedIps(c, value.value, p.peer.ips, lastIp);
        if !ok { return false; }
        SetLast(p.(peer := p.peer.(replaceIps := true, ips := ips)), tail);
        return true;
      }
      value := GetValue(line, "PersistentKeepalive=");
      if value.Some? {
        var n := ParseKeepalive(value.value);
        if n.None? { return false; }
        SetLast(p.(peer := p.peer.(keepalive := n.value, hasKeepalive := true)), lastIp);
        return true;
      }
      value := GetValue(line, "PresharedKey=");
      if value.Some? {
        var k := ParseKeyText(value.value);
        if k.None? { return false; }
        SetLast(p.(peer := p.peer.(psk := k.value, hasPsk := true)), lastIp);
        return true;
      }
      return false;
    }

    method ProcessLine(c: Codec, line: string) returns (ok: bool)
      requires Valid()
      modifies this
      ensures var s := Process(c, old(Understood()), line);
        ok == s.Some? && (ok ==> Valid() && Understood() == s.value)
    {
      hide SameNoCase, DeviceLine, PeerLine, Link;
      if SameNoCase(line, "[Interface]") {
        isPeer, isDevice := false, true;
        return true;
      }
      if SameNoCase(line, "[Peer]") {
        LinkAtTail(conf.peers, BLANK_PEER);
        lastIp := Null;
        conf := conf.(peers := Link(conf.peers, lastPeer, BLANK_PEER));
        lastPeer := At(|conf.peers| - 1);
        isPeer, isDevice := true, false;
        return true;
      }
      if isDevice {
        ok := ProcessDeviceLine(c, line);
      } else if isPeer {
        ok := ProcessPeerLine(c, line);
      } else {
        ok := false;
      }
    }

    method ReadOneLine(c: Codec, input: string) returns (ok: bool)
      requires Valid()
      modifies this
      ensures var s := ReadLine(c, old(Understood()), input);
        ok == s.Some? && (ok ==> Valid() && Understood() == s.value)
    {
      hide Process, Clean;
      var end := IndexOf(input, '#');
      var line: string, i := [], 0;
      while i < end
        invariant 0 <= i <= end
        invariant Clean(input) == line + Clean(input[i..])
        invariant unchanged(this)
      {
        CleanStep(input, i);
        if !IsSpace(input[i]) {
          line := line + [input[i]];
        }
        i := i + 1;
      }
      CleanEnd(input[i..]);
      assert line + [] == line;
      if line == [] {
        return true;
      }
      ok := ProcessLine(c, line);
    }
  }

  lemma TailOf<T>(list: seq<T>)
    requires list != []
    ensures Tail(list) == At(|list| - 1)
  {
  }

  lemma ValueNotEmpty(line: string, key: string)
    ensures GetValue(line, key).Some? ==> GetValue(line, key).value != []
  {
  }

  lemma CleanStep(input: string, i: nat)
    requires i < IndexOf(input, '#')
    ensures Clean(input[i..]) == (if IsSpace(input[i]) then [] else [input[i]]) + Clean(input[i + 1..])
  {
    assert input[..IndexOf(input, '#')][i] != '#';
    assert input[i..][1..] == input[i + 1..];
  }

  lemma CleanEnd(s: string)
    requires s == [] || s[0] == '#'
    ensures Clean(s) == []
  {
  }
}
