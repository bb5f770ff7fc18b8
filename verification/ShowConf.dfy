/** Printing a device as a configuration, and reading it back. */
module ShowConf {
  import opened Bits
  import opened Tlv
  import opened WgDevice
  import opened Text
  import opened KeyText
  import opened SetDevice
  import opened GetDevice
  import opened Config
  import R = Reassembly

  // ----- The text -----

  function Field(name: string, value: string): string
  {
    name + " = " + value + "\n"
  }

  predicate Known(family: nat)
  {
    family == AF_INET || family == AF_INET6
  }

  function AddressText(c: Codec, ip: AllowedIp): string
  {
    c.ipText(ip.family, if ip.family == AF_INET then Member(ip.ip, 4) else ip.ip) + "/" + Numeral(ip.cidr, 10)
  }

  /** The list as printed: an entry of an unknown family prints nothing, separators go by position. */
  function IpsText(c: Codec, ips: seq<AllowedIp>): string
  {
    if ips == [] then ""
    else
      (if Known(ips[0].family) then AddressText(c, ips[0]) + (if |ips| > 1 then ", " else "") else "")
      + IpsText(c, ips[1..])
  }

  function EndpointText(c: Codec, endpoint: seq<u8>): Option<string>
  {
    if !Known(Family(endpoint)) then None
    else
      var name := c.nameInfo(endpoint);
      if name.None? then None
      else
        var (host, service) := name.value;
        if Family(endpoint) == AF_INET6 && IndexOf(host, ':') < |host| then Some("[" + host + "]:" + service)
        else Some(host + ":" + service)
  }

  function OptionalLine(present: bool, name: string, value: string): seq<string>
  {
    if present then [Field(name, value)] else []
  }

  function EndpointLine(c: Codec, p: Peer): seq<string>
  {
    var e := EndpointText(c, p.endpoint);
    if e.Some? then [Field("Endpoint", e.value)] else []
  }

  function PeerLines(c: Codec, p: Peer): seq<string>
  {
    ["[Peer]" + "\n", Field("PublicKey", KeyToText(p.key))]
    + OptionalLine(p.hasPsk, "PresharedKey", KeyToText(p.psk))
    + OptionalLine(p.ips != [], "AllowedIPs", IpsText(c, p.ips))
    + EndpointLine(c, p)
    + OptionalLine(p.keepalive != 0, "PersistentKeepalive", Numeral(p.keepalive, 10))
  }

  function PeersLines(c: Codec, peers: seq<Peer>): seq<string>
  {
    if peers == [] then []
    else PeerLines(c, peers[0]) + (if |peers| > 1 then ["\n"] else []) + PeersLines(c, peers[1..])
  }

  function DeviceLines(c: Codec, dev: Device): seq<string>
  {
    ["[Interface]" + "\n"]
    + OptionalLine(dev.listenPort != 0, "ListenPort", Numeral(dev.listenPort, 10))
    + OptionalLine(dev.fwmark != 0, "FwMark", "0x" + Numeral(dev.fwmark, 16))
    + OptionalLine(dev.hasPrivateKey, "PrivateKey", KeyToText(dev.privateKey))
    + ["\n"]
  }

  function ShowLines(c: Codec, dev: Device): seq<string>
  {
    DeviceLines(c, dev) + PeersLines(c, dev.peers)
  }

  // ----- Reading one printed line -----

  lemma CleanField(name: string, value: string)
    requires Dense(name) && Free(value, '#')
    ensures Clean(Field(name, value)) == name + "=" + Clean(value)
    ensures Dense(value) ==> Clean(value) == value
  {
    hide Clean, IsSpace;
    CleanDense(name);
    if Dense(value) {
      CleanDense(value);
    }
    CleanLiterals();
    CleanConcat(name, " = ");
    CleanConcat(name + " = ", value);
    CleanConcat(name + " = " + value, "\n");
    assert Free(name + " = ", '#') && Free(name + " = " + value, '#');
  }

  lemma CleanLiterals()
    ensures Clean(" = ") == "=" && Clean("\n") == ""
  {
    CleanChar(' ');
    CleanChar('=');
    CleanChar('\n');
    CleanConcat(" ", "= ");
    CleanConcat("=", " ");
    assert " " + "= " == " = " && "=" + " " == "= ";
  }

  lemma CleanChar(x: char)
    ensures Clean([x]) == if x == '#' || IsSpace(x) then [] else [x]
  {
    hide IsSpace;
    assert [x][1..] == [];
  }

  lemma CleanSection(name: string)
    requires Dense(name)
    ensures Clean(name + "\n") == name
  {
    hide Clean, IsSpace;
    CleanDense(name);
    CleanLiterals();
    CleanConcat(name, "\n");
  }

  lemma NoMatch(line: string, key: string, i: nat)
    requires i < |line| && i < |key| && ToLower(line[i]) != ToLower(key[i])
    ensures GetValue(line, key).None?
  {
    if |key| < |line| {
      assert line[..|key|][i] == line[i];
    }
  }

  lemma Match(key: string, value: string)
    requires value != []
    ensures GetValue(key + value, key) == Some(value)
  {
    var line := key + value;
    assert line[..|key|] == key && line[|key|..] == value;
  }

  lemma NotSection(line: string)
    requires line != [] && 'A' <= line[0] <= 'Z'
    ensures !SameNoCase(line, "[Interface]") && !SameNoCase(line, "[Peer]")
  {
    assert "[Interface]"[0] == '[' && "[Peer]"[0] == '[';
    assert ToLower(line[0]) != '[' == ToLower('[');
  }

  // ----- What is asked of the codec -----

  ghost predicate IpFaithful(c: Codec, family: nat, b: seq<u8>)
  {
    var t := c.ipText(family, b);
    && Dense(t) && Free(t, ',') && Free(t, '/') && c.parseIp(family, t) == Some(b)
    && (family == AF_INET <==> Free(t, ':'))
  }

  ghost predicate PortFaithful(c: Codec, n: nat)
  {
    c.parsePort(Numeral(n, 10)) == Some(n)
  }

  /** A socket address as it is resolved: of the length of its family. */
  function Address(endpoint: seq<u8>): seq<u8>
  {
    if Family(endpoint) == AF_INET then Member(endpoint, 16) else endpoint
  }

  /** The name of an endpoint is one a line can hold, and resolves to an address of its family. */
  ghost predicate EndpointNamed(c: Codec, endpoint: seq<u8>)
  {
    var name := c.nameInfo(endpoint);
    && name.Some?
    && var (host, service) := name.value;
      && Dense(host) && Dense(service) && service != [] && Free(service, ':') && Free(host, ']')
      && host != [] && host[0] != '['
      && c.resolve(host, service).Some? && |c.resolve(host, service).value| == |Address(endpoint)|
  }

  /** The address an endpoint's name resolves to. */
  function Resolved(c: Codec, endpoint: seq<u8>): Option<seq<u8>>
  {
    match c.nameInfo(endpoint)
    case None => None
    case Some((host, service)) => c.resolve(host, service)
  }

  ghost predicate Faithful(c: Codec)
  {
    && (forall b: seq<u8> :: |b| == 4 ==> IpFaithful(c, AF_INET, b))
    && (forall b: seq<u8> :: |b| == 16 ==> IpFaithful(c, AF_INET6, b))
    && (forall n: nat :: n < 0x10000 ==> PortFaithful(c, n))
  }

  // ----- The device section -----

  lemma ReadConcat(c: Codec, s: State, a: seq<string>, b: seq<string>)
    requires ReadLines(c, s, a).Some?
    ensures ReadLines(c, s, a + b) == ReadLines(c, ReadLines(c, s, a).value, b)
    decreases |a|
  {
    hide ReadLine;
    if a == [] {
      assert a + b == b;
    } else {
      assert (a + b)[1..] == a[1..] + b;
      ReadConcat(c, ReadLine(c, s, a[0]).value, a[1..], b);
    }
  }

  lemma ReadOne(c: Codec, s: State, line: string)
    ensures ReadLines(c, s, [line]) == ReadLine(c, s, line) && ReadLines(c, s, []) == Some(s)
  {
    hide ReadLine;
    assert [line][1..] == [];
  }

  lemma ReadBlank(c: Codec, s: State)
    ensures ReadLine(c, s, "\n") == Some(s)
  {
    hide Process, Clean;
    CleanLiterals();
  }

  /** One field of the device section. */
  lemma ReadSetting(c: Codec, conf: Conf, name: string, value: string, next: Conf)
    requires Dense(name) && Dense(value) && name != [] && 'A' <= name[0] <= 'Z'
    requires DeviceLine(c, conf, name + "=" + value) == Some(next)
    ensures ReadLine(c, State(conf, InDevice), Field(name, value)) == Some(State(next, InDevice))
  {
    hide Clean, DeviceLine, SameNoCase, IsSpace;
    assert Free(value, '#');
    CleanField(name, value);
    NotSection(name + "=" + value);
  }

  lemma NamesDense()
    ensures Dense("ListenPort") && Dense("FwMark") && Dense("PrivateKey") && Dense("[Interface]") && Dense("[Peer]")
  {
  }

  lemma ReadPort(c: Codec, conf: Conf, n: nat)
    requires Faithful(c) && 0 < n < 0x10000
    ensures ReadLine(c, State(conf, InDevice), Field("ListenPort", Numeral(n, 10)))
      == Some(State(conf.(listenPort := n, hasListenPort := true), InDevice))
  {
    hide Numeral, GetValue, ReadLine, Field, ParseFwmark, Dense;
    var t := Numeral(n, 10);
    NamesDense();
    NumeralPlain(n, 10);
    assert PortFaithful(c, n);
    Match("ListenPort=", t);
    assert "ListenPort" + "=" + t == "ListenPort=" + t;
    ReadSetting(c, conf, "ListenPort", t, conf.(listenPort := n, hasListenPort := true));
  }

  lemma ReadFwmark(c: Codec, conf: Conf, n: nat)
    requires 0 < n <= 0xffffffff
    ensures ReadLine(c, State(conf, InDevice), Field("FwMark", "0x" + Numeral(n, 16)))
      == Some(State(conf.(fwmark := n, hasFwmark := true), InDevice))
  {
    hide Numeral, GetValue, ReadLine, Field, ParseFwmark, Dense;
    var t := "0x" + Numeral(n, 16);
    NamesDense();
    FwmarkText(n);
    NoMatch("FwMark=" + t, "ListenPort=", 0);
    Match("FwMark=", t);
    assert "FwMark" + "=" + t == "FwMark=" + t;
    ReadSetting(c, conf, "FwMark", t, conf.(fwmark := n, hasFwmark := true));
  }

  lemma FwmarkText(n: nat)
    requires n <= 0xffffffff
    ensures var t := "0x" + Numeral(n, 16); Dense(t) && ParseFwmark(t) == Some(n)
  {
    hide Numeral, Number;
    var d := Numeral(n, 16);
    var t := "0x" + d;
    NumeralPlain(n, 16);
    NumberOfNumeral(n, 16);
    assert t[0] == '0' && t[1] == 'x' && t[2..] == d;
    assert "off"[0] == 'o';
    assert !SameNoCase(t, "off");
  }

  lemma ReadPrivateKey(c: Codec, conf: Conf, k: seq<u8>)
    requires |k| == 32
    ensures ReadLine(c, State(conf, InDevice), Field("PrivateKey", KeyToText(k)))
      == Some(State(conf.(privateKey := k, hasPrivateKey := true), InDevice))
  {
    hide GetValue, ReadLine, Field, ParseFwmark, Dense, KeyToText, ParseKeyText;
    var t := KeyToText(k);
    NamesDense();
    KeyTextFaithful(k);
    NoMatch("PrivateKey=" + t, "ListenPort=", 0);
    NoMatch("PrivateKey=" + t, "FwMark=", 0);
    Match("PrivateKey=", t);
    assert "PrivateKey" + "=" + t == "PrivateKey=" + t;
    ReadSetting(c, conf, "PrivateKey", t, conf.(privateKey := k, hasPrivateKey := true));
  }

  // ----- The peer sections -----

  /** Reading the section of a peer, after the peers `done`. */
  function Within(conf: Conf, done: seq<PeerConf>, p: PeerConf): State
  {
    State(conf.(peers := done + [p]), InPeer)
  }

  lemma ReadPeerField(c: Codec, conf: Conf, done: seq<PeerConf>, p: PeerConf, name: string, value: string,
                      text: string, next: PeerConf)
    requires Dense(name) && Free(value, '#') && Clean(value) == text && name != [] && 'A' <= name[0] <= 'Z'
    requires PeerLine(c, p, name + "=" + text) == Some(next)
    ensures ReadLine(c, Within(conf, done, p), Field(name, value)) == Some(Within(conf, done, next))
  {
    hide Clean, PeerLine, SameNoCase, IsSpace, Field;
    CleanField(name, value);
    var line := name + "=" + text;
    NotSection(line);
    var peers := done + [p];
    assert peers[|peers| - 1] == p && peers[..|peers| - 1] == done;
  }

  lemma PeerNamesDense()
    ensures Dense("Endpoint") && Dense("PublicKey") && Dense("AllowedIPs")
  {
  }

  lemma MorePeerNamesDense()
    ensures Dense("PersistentKeepalive") && Dense("PresharedKey")
  {
  }

  lemma DenseClean(t: string)
    requires Dense(t)
    ensures Free(t, '#') && Clean(t) == t
  {
    CleanDense(t);
  }

  lemma ReadPublicKey(c: Codec, conf: Conf, done: seq<PeerConf>, p: PeerConf, k: seq<u8>)
    requires |k| == 32
    ensures ReadLine(c, Within(conf, done, p), Field("PublicKey", KeyToText(k)))
      == Some(Within(conf, done, PeerConf(true, p.peer.(key := k))))
  {
    hide GetValue, ReadLine, Field, Dense, Free, Clean, Split, ParseEntries, ParseEndpoint, ParseKeepalive, Within,
      KeyToText, ParseKeyText;
    var t := KeyToText(k);
    KeyTextFaithful(k);
    PeerNamesDense();
    DenseClean(t);
    NoMatch("PublicKey=" + t, "Endpoint=", 0);
    Match("PublicKey=", t);
    assert "PublicKey" + "=" + t == "PublicKey=" + t;
    ReadPeerField(c, conf, done, p, "PublicKey", t, t, PeerConf(true, p.peer.(key := k)));
  }

  lemma ReadPresharedKey(c: Codec, conf: Conf, done: seq<PeerConf>, p: PeerConf, k: seq<u8>)
    requires |k| == 32
    ensures ReadLine(c, Within(conf, done, p), Field("PresharedKey", KeyToText(k)))
      == Some(Within(conf, done, p.(peer := p.peer.(psk := k, hasPsk := true))))
  {
    hide GetValue, ReadLine, Field, Dense, Free, Clean, Split, ParseEntries, ParseEndpoint, ParseKeepalive, Within,
      KeyToText, ParseKeyText;
    var t := KeyToText(k);
    KeyTextFaithful(k);
    var line := "PresharedKey=" + t;
    MorePeerNamesDense();
    DenseClean(t);
    NoMatch(line, "Endpoint=", 0);
    NoMatch(line, "PublicKey=", 1);
    NoMatch(line, "AllowedIPs=", 0);
    NoMatch(line, "PersistentKeepalive=", 1);
    Match("PresharedKey=", t);
    assert "PresharedKey" + "=" + t == line;
    ReadPeerField(c, conf, done, p, "PresharedKey", t, t, p.(peer := p.peer.(psk := k, hasPsk := true)));
  }

  lemma ReadKeepalive(c: Codec, conf: Conf, done: seq<PeerConf>, p: PeerConf, n: nat)
    requires n < 0x10000
    ensures ReadLine(c, Within(conf, done, p), Field("PersistentKeepalive", Numeral(n, 10)))
      == Some(Within(conf, done, p.(peer := p.peer.(keepalive := n, hasKeepalive := true))))
  {
    hide GetValue, ReadLine, Field, Dense, Free, Clean, Split, ParseEntries, ParseEndpoint, ParseKeepalive, Within,
      Numeral;
    var t := Numeral(n, 10);
    var line := "PersistentKeepalive=" + t;
    MorePeerNamesDense();
    NumeralPlain(n, 10);
    KeepaliveText(n);
    DenseClean(t);
    NoMatch(line, "Endpoint=", 0);
    NoMatch(line, "PublicKey=", 1);
    NoMatch(line, "AllowedIPs=", 0);
    Match("PersistentKeepalive=", t);
    assert "PersistentKeepalive" + "=" + t == line;
    ReadPeerField(c, conf, done, p, "PersistentKeepalive", t, t,
                  p.(peer := p.peer.(keepalive := n, hasKeepalive := true)));
  }

  lemma KeepaliveText(n: nat)
    requires n <= 65535
    ensures ParseKeepalive(Numeral(n, 10)) == Some(n)
  {
    hide Numeral, Number;
    var t := Numeral(n, 10);
    NumeralPlain(n, 10);
    NumberOfNumeral(n, 10);
    assert "off"[0] == 'o';
    assert !SameNoCase(t, "off");
  }

  // ----- Endpoints -----

  lemma PlainEndpoint(c: Codec, host: string, service: string)
    requires Dense(host) && Dense(service) && service != [] && Free(service, ':') && host != [] && host[0] != '['
    ensures var t := host + ":" + service; t != [] && Dense(t) && ParseEndpoint(c, t) == c.resolve(host, service)
  {
    hide LastIndexOf, IndexOf;
    var t := host + ":" + service;
    assert t[0] == host[0];
    LastIndexOfConcat(host, ':', service);
    assert t[..|host|] == host && t[|host| + 1..] == service;
  }

  lemma BracketEndpoint(c: Codec, host: string, service: string)
    requires Dense(host) && Dense(service) && service != [] && Free(host, ']')
    ensures var t := "[" + host + "]:" + service; t != [] && Dense(t) && ParseEndpoint(c, t) == c.resolve(host, service)
  {
    hide LastIndexOf, IndexOf;
    var t, open := "[" + host + "]:" + service, "[" + host;
    var e := |open|;
    assert t == open + [']'] + (":" + service);
    IndexOfConcat(open, ']', ":" + service);
    assert t[e + 1] == ':' && t[1..e] == host && t[e + 2..] == service;
  }

  lemma EndpointParsed(c: Codec, endpoint: seq<u8>)
    requires Known(Family(endpoint)) && EndpointNamed(c, endpoint)
    ensures Resolved(c, endpoint).Some?
    ensures var t := EndpointText(c, endpoint);
      t.Some? && t.value != [] && Dense(t.value) && ParseEndpoint(c, t.value) == Resolved(c, endpoint)
  {
    hide IndexOf, Family, Address, Dense, Free, ParseEndpoint;
    var (host, service) := c.nameInfo(endpoint).value;
    PlainEndpoint(c, host, service);
    BracketEndpoint(c, host, service);
  }

  /** An endpoint is printed in brackets exactly if it is IPv6 and its host has a colon. */
  lemma EndpointBrackets(c: Codec, endpoint: seq<u8>)
    requires |endpoint| == 28 && Known(Family(endpoint)) && EndpointNamed(c, endpoint)
    ensures var t := EndpointText(c, endpoint); var (host, service) := c.nameInfo(endpoint).value;
      t.Some? && t.value ==
        if endpoint[0] == 10 && endpoint[1] == 0 && !Free(host, ':') then "[" + host + "]:" + service
        else host + ":" + service
  {
    hide Dense, Free, IndexOf;
    var (host, service) := c.nameInfo(endpoint).value;
    HasColon(host);
  }

  lemma ReadEndpoint(c: Codec, conf: Conf, done: seq<PeerConf>, p: PeerConf, endpoint: seq<u8>)
    requires Known(Family(endpoint)) && EndpointNamed(c, endpoint)
    ensures var t := EndpointText(c, endpoint); var r := Resolved(c, endpoint);
      t.Some? && r.Some? && ReadLine(c, Within(conf, done, p), Field("Endpoint", t.value))
        == Some(Within(conf, done, p.(peer := p.peer.(endpoint := Copied(p.peer.endpoint, r.value)))))
  {
    hide GetValue, ReadLine, Field, Dense, Free, Clean, Split, ParseEntries, ParseEndpoint, ParseKeepalive, Within,
      EndpointText, EndpointNamed, Known, Copied, Address, Resolved;
    EndpointParsed(c, endpoint);
    var t := EndpointText(c, endpoint).value;
    PeerNamesDense();
    DenseClean(t);
    Match("Endpoint=", t);
    assert "Endpoint" + "=" + t == "Endpoint=" + t;
    var r := Resolved(c, endpoint).value;
    ReadPeerField(c, conf, done, p, "Endpoint", t, t, p.(peer := p.peer.(endpoint := Copied(p.peer.endpoint, r))));
  }

  // ----- Allowed IPs -----

  ghost predicate Printable(c: Codec, ip: AllowedIp)
  {
    && ip.Valid() && Accepted(ip)
    && IpFaithful(c, ip.family, if ip.family == AF_INET then Member(ip.ip, 4) else ip.ip)
  }

  lemma EntryParsed(c: Codec, ip: AllowedIp)
    requires Printable(c, ip)
    ensures var t := AddressText(c, ip);
      t != [] && Dense(t) && Free(t, ',') && ParseEntry(c, t) == Some(R.Normal(ip))
  {
    hide IndexOf, Numeral, Member, Zeros, Number;
    var b := if ip.family == AF_INET then Member(ip.ip, 4) else ip.ip;
    var text, mask := c.ipText(ip.family, b), Numeral(ip.cidr, 10);
    var t := AddressText(c, ip);
    assert t == text + ['/'] + mask;
    NumeralPlain(ip.cidr, 10);
    NumberOfNumeral(ip.cidr, 10);
    IndexOfConcat(text, '/', mask);
    assert t[..|text|] == text && t[|text| + 1..] == mask;
    assert IndexOf(text, ':') < |text| <==> ip.family == AF_INET6 by { HasColon(text); }
    assert Copied(Zeros(16), b) == R.Normal(ip).ip by { Whole(ip); }
  }

  lemma HasColon(text: string)
    ensures IndexOf(text, ':') < |text| <==> !Free(text, ':')
  {
    if IndexOf(text, ':') == |text| {
      assert text[..|text|] == text;
    }
  }

  lemma Whole(ip: AllowedIp)
    requires ip.Valid() && Accepted(ip)
    ensures Copied(Zeros(16), if ip.family == AF_INET then Member(ip.ip, 4) else ip.ip) == R.Normal(ip).ip
  {
    assert Zeros(16)[16..] == [];
  }

  function Entries(c: Codec, ips: seq<AllowedIp>): (r: seq<string>)
    ensures |r| == |ips|
  {
    if ips == [] then [] else [AddressText(c, ips[0])] + Entries(c, ips[1..])
  }

  ghost predicate AllPrintable(c: Codec, ips: seq<AllowedIp>)
  {
    forall i :: 0 <= i < |ips| ==> Printable(c, ips[i])
  }

  lemma {:induction false} IpsParsed(c: Codec, ips: seq<AllowedIp>)
    requires AllPrintable(c, ips)
    ensures var e := Entries(c, ips);
      ParseEntries(c, e) == Some(R.Normals(ips)) && forall i :: 0 <= i < |e| ==> Free(e[i], ',')
    decreases |ips|
  {
    hide AddressText, ParseEntry, Printable, Free, R.Normal;
    if ips != [] {
      var e := Entries(c, ips);
      EntryParsed(c, ips[0]);
      IpsParsed(c, ips[1..]);
      assert e[1..] == Entries(c, ips[1..]);
      forall i | 0 <= i < |e| ensures Free(e[i], ',') {
        if i > 0 {
          assert e[i] == e[1..][i - 1];
        }
      }
    }
  }

  /** Cleaned, the printed list is its entries with a comma between each two. */
  lemma {:induction false} IpsCleaned(c: Codec, ips: seq<AllowedIp>)
    requires AllPrintable(c, ips) && ips != []
    ensures var t := IpsText(c, ips); Free(t, '#') && Clean(t) == Joined(Entries(c, ips), ",") && Clean(t) != []
    decreases |ips|
  {
    hide AddressText, Printable, Clean, IsSpace;
    var a := AddressText(c, ips[0]);
    EntryParsed(c, ips[0]);
    DenseClean(a);
    assert Known(ips[0].family) by { KnownFamily(c, ips[0]); }
    if |ips| == 1 {
      assert IpsText(c, ips[1..]) == "" && IpsText(c, ips) == a;
    } else {
      var rest := IpsText(c, ips[1..]);
      IpsCleaned(c, ips[1..]);
      assert IpsText(c, ips) == a + ", " + rest;
      CommaCleaned();
      CleanConcat(a, ", ");
      CleanConcat(a + ", ", rest);
      assert Entries(c, ips)[1..] == Entries(c, ips[1..]);
    }
  }

  lemma KnownFamily(c: Codec, ip: AllowedIp)
    requires Printable(c, ip)
    ensures Known(ip.family)
  {
  }

  lemma CommaCleaned()
    ensures Clean(", ") == ","
  {
    CleanChar(',');
    CleanChar(' ');
    CleanConcat(",", " ");
    assert "," + " " == ", ";
  }

  lemma ReadAllowedIps(c: Codec, conf: Conf, done: seq<PeerConf>, p: PeerConf, ips: seq<AllowedIp>)
    requires AllPrintable(c, ips) && ips != []
    ensures ReadLine(c, Within(conf, done, p), Field("AllowedIPs", IpsText(c, ips)))
      == Some(Within(conf, done, p.(peer := p.peer.(replaceIps := true, ips := p.peer.ips + R.Normals(ips)))))
  {
    hide GetValue, ReadLine, Field, Dense, Free, Clean, Split, ParseEntries, ParseEndpoint, ParseKeepalive, Within,
      IpsText, Entries,
      AllPrintable, R.Normals, Joined;
    IpsCleaned(c, ips);
    IpsParsed(c, ips);
    var t, e := Clean(IpsText(c, ips)), Entries(c, ips);
    SplitJoined(e, ',');
    PeerNamesDense();
    var line := "AllowedIPs=" + t;
    NoMatch(line, "Endpoint=", 0);
    NoMatch(line, "PublicKey=", 0);
    Match("AllowedIPs=", t);
    assert "AllowedIPs" + "=" + t == line;
    ReadPeerField(c, conf, done, p, "AllowedIPs", IpsText(c, ips), t,
      p.(peer := p.peer.(replaceIps := true, ips := p.peer.ips + R.Normals(ips))));
  }

  // ----- The whole text -----

  /** The endpoint that is read for a peer: what its name resolves to, if it has one. */
  function BackEndpoint(c: Codec, p: Peer): seq<u8>
  {
    var r := Resolved(c, p.endpoint);
    if Known(Family(p.endpoint)) && r.Some? then Copied(Zeros(28), r.value) else Zeros(28)
  }

  /** A peer as it comes back: its settings, the unused parts of its unions cleared. */
  function Back(c: Codec, p: Peer): PeerConf
  {
    PeerConf(true, Peer(false, true, p.hasPsk, p.keepalive != 0, p.key, if p.hasPsk then p.psk else Zeros(32),
                        BackEndpoint(c, p), p.keepalive, R.Normals(p.ips)))
  }

  function Backs(c: Codec, peers: seq<Peer>): (r: seq<PeerConf>)
    ensures |r| == |peers| && forall i :: 0 <= i < |r| ==> r[i] == Back(c, peers[i])
  {
    if peers == [] then [] else [Back(c, peers[0])] + Backs(c, peers[1..])
  }

  /** Whether a peer's endpoint, if it is printed, is named. */
  ghost predicate Named(c: Codec, p: Peer)
  {
    Known(Family(p.endpoint)) && c.nameInfo(p.endpoint).Some? ==> EndpointNamed(c, p.endpoint)
  }

  ghost predicate PeerPrintable(c: Codec, p: Peer)
  {
    p.Valid() && AllPrintable(c, p.ips) && Named(c, p)
  }

  /** A socket address in its canonical form: no padding in an IPv4 one, no flow label in an IPv6 one. */
  function CanonicalAddress(e: seq<u8>): seq<u8>
    requires |e| == 28
  {
    if Family(e) == AF_INET then e[..8] + Zeros(8) else e[..4] + Zeros(4) + e[8..]
  }

  /** The name of an endpoint resolves to its canonical address. */
  predicate Canonically(c: Codec, e: seq<u8>)
    requires |e| == 28
  {
    Known(Family(e)) ==> Resolved(c, e) == Some(CanonicalAddress(e))
  }

  /** Whether the bytes that a name does not tell are zero: `sin_zero`, or `sin6_flowinfo`. */
  predicate Cleared(e: seq<u8>)
  {
    |e| == 28 &&
    if Family(e) == AF_INET then forall i :: 8 <= i < 16 ==> e[i] == 0 else forall i :: 4 <= i < 8 ==> e[i] == 0
  }

  lemma CanonicalExactly(e: seq<u8>)
    requires |e| == 28 && Known(Family(e))
    ensures |CanonicalAddress(e)| == |Address(e)| && (CanonicalAddress(e) == Address(e) <==> Cleared(e))
  {
    hide Family;
    var a, b := CanonicalAddress(e), Address(e);
    if Family(e) == AF_INET {
      assert forall i :: 0 <= i < 8 ==> a[i] == b[i];
      assert forall i :: 8 <= i < 16 ==> a[i] == 0 && b[i] == e[i];
    } else {
      assert forall i :: 8 <= i < 28 ==> a[i] == b[i];
      assert forall i :: 4 <= i < 8 ==> a[i] == 0 && b[i] == e[i];
    }
  }

  /** If its name resolves to the canonical address, an endpoint comes back, the unused part of its union
      cleared, exactly if the bytes that its name does not tell are zero. */
  lemma EndpointBack(c: Codec, p: Peer)
    requires p.Valid() && Known(Family(p.endpoint)) && Canonically(c, p.endpoint)
    ensures BackEndpoint(c, p) == R.SentEndpoint(p) <==> Cleared(p.endpoint)
  {
    hide Family, Cleared, CanonicalAddress, Resolved;
    var e := p.endpoint;
    var a, r := Address(e), CanonicalAddress(e);
    CanonicalExactly(e);
    assert Copied(Zeros(28), r)[..|a|] == r;
    assert R.SentEndpoint(p)[..|a|] == a;
    assert |a| == 28 ==> Zeros(28)[28..] == [];
  }

  /** A device's endpoints all come back exactly if those bytes of each are zero. */
  lemma EndpointsBack(c: Codec, peers: seq<Peer>)
    requires forall i :: 0 <= i < |peers| ==> peers[i].Valid() && Canonically(c, peers[i].endpoint)
    ensures (forall i :: 0 <= i < |peers| ==> Backs(c, peers)[i].peer.endpoint == R.SentEndpoint(peers[i]))
      <==> (forall i :: 0 <= i < |peers| && Known(Family(peers[i].endpoint)) ==> Cleared(peers[i].endpoint))
  {
    hide BackEndpoint, R.SentEndpoint, Cleared, CanonicalAddress, Resolved;
    forall i | 0 <= i < |peers|
      ensures BackEndpoint(c, peers[i]) == R.SentEndpoint(peers[i])
        <==> (Known(Family(peers[i].endpoint)) ==> Cleared(peers[i].endpoint))
    {
      if Known(Family(peers[i].endpoint)) {
        EndpointBack(c, peers[i]);
      } else {
        NoEndpoint(c, peers[i]);
      }
    }
  }

  lemma NoEndpoint(c: Codec, p: Peer)
    requires !Known(Family(p.endpoint))
    ensures BackEndpoint(c, p) == R.SentEndpoint(p)
  {
  }

  /** The address 10.0.0.1, port 51820, with a byte of padding set: it comes back with that byte clear. */
  lemma PaddingLost(c: Codec, p: Peer)
    requires p.endpoint == [2, 0, 0xca, 0x6c, 10, 0, 0, 1, 1] + Zeros(19)
    requires p.Valid() && Canonically(c, p.endpoint)
    ensures Known(Family(p.endpoint)) && BackEndpoint(c, p) != R.SentEndpoint(p)
  {
    hide Resolved;
    assert p.endpoint[8] == 1;
    EndpointBack(c, p);
  }

  /** At most one line, taking the reader from one state to the next. */
  ghost predicate Reads(c: Codec, mid: State, part: seq<string>, end: State)
  {
    |part| <= 1 && if part == [] then mid == end else ReadLine(c, mid, part[0]) == Some(end)
  }

  lemma Next(c: Codec, s: State, lines: seq<string>, part: seq<string>, mid: State, end: State)
    requires ReadLines(c, s, lines) == Some(mid) && Reads(c, mid, part, end)
    ensures ReadLines(c, s, lines + part) == Some(end)
  {
    hide ReadLines, ReadLine;
    ReadConcat(c, s, lines, part);
    if part == [] {
      ReadOne(c, mid, "");
    } else {
      assert part == [part[0]];
      ReadOne(c, mid, part[0]);
    }
  }

  lemma First(c: Codec, s: State, part: seq<string>, end: State)
    requires Reads(c, s, part, end)
    ensures ReadLines(c, s, part) == Some(end)
  {
    hide ReadLines, ReadLine;
    ReadOne(c, s, "");
    Next(c, s, [], part, s, end);
    assert [] + part == part;
  }

  function KeyLine(c: Codec, p: Peer): seq<string> { [Field("PublicKey", KeyToText(p.key))] }

  function PskLine(c: Codec, p: Peer): seq<string> { OptionalLine(p.hasPsk, "PresharedKey", KeyToText(p.psk)) }

  function IpsLine(c: Codec, p: Peer): seq<string> { OptionalLine(p.ips != [], "AllowedIPs", IpsText(c, p.ips)) }

  function KeepaliveLine(p: Peer): seq<string>
  {
    OptionalLine(p.keepalive != 0, "PersistentKeepalive", Numeral(p.keepalive, 10))
  }

  lemma PeerParts(c: Codec, p: Peer)
    ensures PeerLines(c, p) == ["[Peer]" + "\n"] + (KeyLine(c, p) + PskLine(c, p) + IpsLine(c, p)
                                                    + EndpointLine(c, p) + KeepaliveLine(p))
  {
    hide Field, OptionalLine, EndpointLine, IpsText, Numeral;
    var f := Field("PublicKey", KeyToText(p.key));
    assert ["[Peer]" + "\n", f] == ["[Peer]" + "\n"] + [f];
    var a, b, d, e := PskLine(c, p), IpsLine(c, p), EndpointLine(c, p), KeepaliveLine(p);
    assert ["[Peer]" + "\n"] + [f] + a + b + d + e == ["[Peer]" + "\n"] + ([f] + a + b + d + e);
  }

  /** The fields of a peer, one after another. */
  lemma ReadPeer(c: Codec, conf: Conf, done: seq<PeerConf>, p: Peer)
    requires Faithful(c) && PeerPrintable(c, p)
    ensures ReadLines(c, Within(conf, done, BLANK_PEER), KeyLine(c, p) + PskLine(c, p) + IpsLine(c, p)
                      + EndpointLine(c, p) + KeepaliveLine(p))
      == Some(Within(conf, done, Back(c, p)))
  {
    hide Faithful, ReadLines, Reads, Within, AllPrintable, KeyLine, PskLine, IpsLine, EndpointLine, KeepaliveLine,
      R.Normals,
      BackEndpoint;
    var b0, key, psk, ips := BLANK_PEER, KeyLine(c, p), PskLine(c, p), IpsLine(c, p);
    var b1 := PeerConf(true, b0.peer.(key := p.key));
    var b2 := b1.(peer := b1.peer.(psk := if p.hasPsk then p.psk else Zeros(32), hasPsk := p.hasPsk));
    var b3 := b2.(peer := b2.peer.(ips := R.Normals(p.ips)));
    var b4 := b3.(peer := b3.peer.(endpoint := BackEndpoint(c, p)));
    var b5 := b4.(peer := b4.peer.(keepalive := p.keepalive, hasKeepalive := p.keepalive != 0));
    var s := Within(conf, done, b0);
    KeyStep(c, conf, done, b0, p);
    First(c, s, key, Within(conf, done, b1));
    PskStep(c, conf, done, b1, p);
    Next(c, s, key, psk, Within(conf, done, b1), Within(conf, done, b2));
    IpsStep(c, conf, done, b2, p);
    Next(c, s, key + psk, ips, Within(conf, done, b2), Within(conf, done, b3));
    EndpointStep(c, conf, done, b3, p);
    Next(c, s, key + psk + ips, EndpointLine(c, p), Within(conf, done, b3), Within(conf, done, b4));
    KeepaliveStep(c, conf, done, b4, p);
    Next(c, s, key + psk + ips + EndpointLine(c, p), KeepaliveLine(p), Within(conf, done, b4), Within(conf, done, b5));
    assert b5 == Back(c, p);
  }

  lemma KeyStep(c: Codec, conf: Conf, done: seq<PeerConf>, b: PeerConf, p: Peer)
    requires p.Valid()
    ensures Reads(c, Within(conf, done, b), KeyLine(c, p), Within(conf, done, PeerConf(true, b.peer.(key := p.key))))
  {
    hide ReadLine, Field, Within, KeyToText;
    ReadPublicKey(c, conf, done, b, p.key);
  }

  lemma PskStep(c: Codec, conf: Conf, done: seq<PeerConf>, b: PeerConf, p: Peer)
    requires p.Valid() && b.peer.psk == Zeros(32) && !b.peer.hasPsk
    ensures Reads(c, Within(conf, done, b), PskLine(c, p),
      Within(conf, done, b.(peer := b.peer.(psk := if p.hasPsk then p.psk else Zeros(32), hasPsk := p.hasPsk))))
  {
    hide ReadLine, Field, Within, KeyToText, Zeros;
    if p.hasPsk {
      ReadPresharedKey(c, conf, done, b, p.psk);
    }
  }

  lemma IpsStep(c: Codec, conf: Conf, done: seq<PeerConf>, b: PeerConf, p: Peer)
    requires AllPrintable(c, p.ips) && b.peer.ips == [] && b.peer.replaceIps
    ensures Reads(c, Within(conf, done, b), IpsLine(c, p),
      Within(conf, done, b.(peer := b.peer.(ips := R.Normals(p.ips)))))
  {
    hide ReadLine, Field, Within, AllPrintable, IpsText, R.Normals;
    if p.ips != [] {
      ReadAllowedIps(c, conf, done, b, p.ips);
      assert [] + R.Normals(p.ips) == R.Normals(p.ips);
    } else {
      assert R.Normals(p.ips) == [] by { R.NoNormals(); }
    }
  }

  lemma EndpointStep(c: Codec, conf: Conf, done: seq<PeerConf>, b: PeerConf, p: Peer)
    requires Named(c, p) && b.peer.endpoint == Zeros(28)
    ensures Reads(c, Within(conf, done, b), EndpointLine(c, p),
      Within(conf, done, b.(peer := b.peer.(endpoint := BackEndpoint(c, p)))))
  {
    hide ReadLine, Field, Within, EndpointNamed, Family, Copied;
    if Known(Family(p.endpoint)) && c.nameInfo(p.endpoint).Some? {
      ReadEndpoint(c, conf, done, b, p.endpoint);
    }
  }

  lemma KeepaliveStep(c: Codec, conf: Conf, done: seq<PeerConf>, b: PeerConf, p: Peer)
    requires p.Valid() && b.peer.keepalive == 0 && !b.peer.hasKeepalive
    ensures Reads(c, Within(conf, done, b), KeepaliveLine(p),
      Within(conf, done, b.(peer := b.peer.(keepalive := p.keepalive, hasKeepalive := p.keepalive != 0))))
  {
    hide ReadLine, Field, Within, Numeral;
    if p.keepalive != 0 {
      ReadKeepalive(c, conf, done, b, p.keepalive);
    }
  }

  lemma {:induction false} ReadPeers(c: Codec, s: State, done: seq<PeerConf>, peers: seq<Peer>)
    requires Faithful(c) && (forall i :: 0 <= i < |peers| ==> PeerPrintable(c, peers[i])) && s.conf.peers == done
    ensures var r := ReadLines(c, s, PeersLines(c, peers));
      r.Some? && r.value.conf == s.conf.(peers := done + Backs(c, peers))
    decreases |peers|
  {
    hide Faithful, ReadLines, ReadLine, PeerLines, PeerPrintable, Back, Backs;
    if peers == [] {
      ReadOne(c, s, "");
      assert done + Backs(c, peers) == done;
    } else {
      var p, rest := peers[0], peers[1..];
      var next, blank := Within(s.conf, done, Back(c, p)), if |peers| > 1 then ["\n"] else [];
      ReadPeerAndBlank(c, s, done, p, blank);
      ReadConcat(c, s, PeerLines(c, p) + blank, PeersLines(c, rest));
      ReadPeers(c, next, done + [Back(c, p)], rest);
      assert done + [Back(c, p)] + Backs(c, rest) == done + Backs(c, peers);
    }
  }

  lemma ReadPeerAndBlank(c: Codec, s: State, done: seq<PeerConf>, p: Peer, blank: seq<string>)
    requires Faithful(c) && PeerPrintable(c, p) && s.conf.peers == done && (blank == ["\n"] || blank == [])
    ensures ReadLines(c, s, PeerLines(c, p) + blank) == Some(Within(s.conf, done, Back(c, p)))
  {
    hide Faithful, ReadLines, ReadLine, PeerLines, PeerPrintable, Back, Within;
    var next := Within(s.conf, done, Back(c, p));
    ReadOnePeer(c, s, done, p);
    ReadBlank(c, next);
    Next(c, s, PeerLines(c, p), blank, next, next);
  }

  lemma ReadOnePeer(c: Codec, s: State, done: seq<PeerConf>, p: Peer)
    requires Faithful(c) && PeerPrintable(c, p) && s.conf.peers == done
    ensures ReadLines(c, s, PeerLines(c, p)) == Some(Within(s.conf, done, Back(c, p)))
  {
    hide Faithful, ReadLines, ReadLine, PeerPrintable, Back, PeerLines, KeyLine, PskLine, IpsLine, EndpointLine,
      KeepaliveLine, Within;
    var start, section := Within(s.conf, done, BLANK_PEER), ["[Peer]" + "\n"];
    ReadPeerSection(c, s);
    First(c, s, section, start);
    ReadPeer(c, s.conf, done, p);
    PeerParts(c, p);
    ReadConcat(c, s, section, KeyLine(c, p) + PskLine(c, p) + IpsLine(c, p) + EndpointLine(c, p) + KeepaliveLine(p));
  }

  lemma ReadPeerSection(c: Codec, s: State)
    ensures ReadLine(c, s, "[Peer]" + "\n") == Some(Within(s.conf, s.conf.peers, BLANK_PEER))
  {
    hide Clean;
    NamesDense();
    CleanSection("[Peer]");
    assert "[Peer]"[1] == 'P' && "[Interface]"[1] == 'I';
    assert |"[Peer]"| == 6 && |"[Interface]"| == 11;
  }

  lemma ReadDevice(c: Codec, dev: Device)
    requires Faithful(c) && dev.Valid()
    ensures var s := Init(false);
      ReadLines(c, s, DeviceLines(c, dev)) == Some(State(s.conf.(listenPort := dev.listenPort, fwmark := dev.fwmark,
        privateKey := if dev.hasPrivateKey then dev.privateKey else Zeros(32)), InDevice))
  {
    hide Faithful, ReadLines, ReadLine, Field, Numeral;
    var s := Init(false);
    var section, port, mark := ["[Interface]" + "\n"],
      OptionalLine(dev.listenPort != 0, "ListenPort", Numeral(dev.listenPort, 10)),
      OptionalLine(dev.fwmark != 0, "FwMark", "0x" + Numeral(dev.fwmark, 16));
    var key := OptionalLine(dev.hasPrivateKey, "PrivateKey", KeyToText(dev.privateKey));
    var c0 := s.conf;
    ReadDeviceSection(c, s);
    First(c, s, section, State(c0, InDevice));
    var c1 := c0.(listenPort := dev.listenPort);
    if dev.listenPort != 0 { ReadPort(c, c0, dev.listenPort); }
    Next(c, s, section, port, State(c0, InDevice), State(c1, InDevice));
    var c2 := c1.(fwmark := dev.fwmark);
    if dev.fwmark != 0 { ReadFwmark(c, c1, dev.fwmark); }
    Next(c, s, section + port, mark, State(c1, InDevice), State(c2, InDevice));
    var c3 := c2.(privateKey := if dev.hasPrivateKey then dev.privateKey else Zeros(32));
    if dev.hasPrivateKey { ReadPrivateKey(c, c2, dev.privateKey); }
    Next(c, s, section + port + mark, key, State(c2, InDevice), State(c3, InDevice));
    ReadBlank(c, State(c3, InDevice));
    Next(c, s, section + port + mark + key, ["\n"], State(c3, InDevice), State(c3, InDevice));
  }

  lemma ReadDeviceSection(c: Codec, s: State)
    ensures ReadLine(c, s, "[Interface]" + "\n") == Some(State(s.conf, InDevice))
  {
    hide Clean;
    NamesDense();
    CleanSection("[Interface]");
  }

  /** Printing a device and reading the text back, line by line, gives its settings, its peers in
      order, and each peer's keys, allowed IPs, endpoint and keepalive. */
  lemma PrintThenParse(c: Codec, dev: Device)
    requires Faithful(c) && dev.Valid()
    requires forall i :: 0 <= i < |dev.peers| ==> R.AllAccepted(dev.peers[i].ips) && Named(c, dev.peers[i])
    ensures var r := ReadLines(c, Init(false), ShowLines(c, dev));
      r.Some? && Finish(r.value)
        == Some(Conf(true, true, true, true, if dev.hasPrivateKey then dev.privateKey else Zeros(32),
        dev.listenPort, dev.fwmark, Backs(c, dev.peers)))
  {
    hide Faithful, ReadLines, DeviceLines, PeersLines, Back, Named, PeerPrintable, R.AllAccepted;
    forall i | 0 <= i < |dev.peers| ensures PeerPrintable(c, dev.peers[i]) {
      AcceptedPrintable(c, dev.peers[i]);
    }
    ReadDevice(c, dev);
    var s := ReadLines(c, Init(false), DeviceLines(c, dev)).value;
    ReadConcat(c, Init(false), DeviceLines(c, dev), PeersLines(c, dev.peers));
    ReadPeers(c, s, [], dev.peers);
    assert [] + Backs(c, dev.peers) == Backs(c, dev.peers);
    BacksKeyed(c, dev.peers);
  }

  lemma AcceptedPrintable(c: Codec, p: Peer)
    requires Faithful(c) && p.Valid() && R.AllAccepted(p.ips) && Named(c, p)
    ensures PeerPrintable(c, p)
  {
    hide IpFaithful, Named;
    forall i | 0 <= i < |p.ips| ensures Printable(c, p.ips[i]) {
      var ip := p.ips[i];
      assert ip.family == AF_INET ==> IpFaithful(c, AF_INET, Member(ip.ip, 4));
      assert ip.family == AF_INET6 ==> IpFaithful(c, AF_INET6, ip.ip);
    }
  }

  lemma BacksKeyed(c: Codec, peers: seq<Peer>)
    ensures forall i :: 0 <= i < |peers| ==> Backs(c, peers)[i].hasKey
  {
    hide Backs;
  }

  // ----- The printer and the reader at work -----

  /** The value of the allowed-IP line, printed piece by piece. */
  method ShowIps(c: Codec, ips: seq<AllowedIp>) returns (line: string)
    ensures line == IpsText(c, ips)
  {
    hide AddressText;
    line := "";
    var i := 0;
    assert ips[0..] == ips;
    while i < |ips|
      invariant 0 <= i <= |ips|
      invariant line + IpsText(c, ips[i..]) == IpsText(c, ips)
    {
      ghost var was := line;
      var piece := "";
      if Known(ips[i].family) {
        piece := AddressText(c, ips[i]);
        if i + 1 < |ips| {
          piece := piece + ", ";
        }
      }
      line := line + piece;
      assert ips[i..][1..] == ips[i + 1..];
      assert IpsText(c, ips[i..]) == piece + IpsText(c, ips[i + 1..]) by { IpsTextStep(c, ips, i); }
      assert was + (piece + IpsText(c, ips[i + 1..])) == line + IpsText(c, ips[i + 1..]);
      i := i + 1;
    }
    assert ips[|ips|..] == [] && line + "" == line;
  }

  lemma IpsTextStep(c: Codec, ips: seq<AllowedIp>, i: nat)
    requires i < |ips|
    ensures IpsText(c, ips[i..]) ==
      (if Known(ips[i].family) then AddressText(c, ips[i]) + (if i + 1 < |ips| then ", " else "") else "")
        + IpsText(c, ips[i + 1..])
  {
    hide AddressText;
    assert ips[i..][1..] == ips[i + 1..];
  }

  method ShowPeer(c: Codec, p: Peer) returns (out: seq<string>)
    ensures out == PeerLines(c, p)
  {
    hide Field, IpsText, Numeral, KeyToText, EndpointText;
    out := ["[Peer]" + "\n", Field("PublicKey", KeyToText(p.key))];
    if p.hasPsk {
      out := out + [Field("PresharedKey", KeyToText(p.psk))];
    }
    if p.ips != [] {
      var line := ShowIps(c, p.ips);
      out := out + [Field("AllowedIPs", line)];
    }
    var e := EndpointText(c, p.endpoint);
    if e.Some? {
      out := out + [Field("Endpoint", e.value)];
    }
    if p.keepalive != 0 {
      out := out + [Field("PersistentKeepalive", Numeral(p.keepalive, 10))];
    }
  }

  method Show(c: Codec, dev: Device) returns (out: seq<string>)
    requires dev.Valid()
    ensures out == ShowLines(c, dev)
  {
    hide Field, Numeral, KeyToText, PeerLines;
    out := ["[Interface]" + "\n"];
    if dev.listenPort != 0 {
      out := out + [Field("ListenPort", Numeral(dev.listenPort, 10))];
    }
    if dev.fwmark != 0 {
      out := out + [Field("FwMark", "0x" + Numeral(dev.fwmark, 16))];
    }
    if dev.hasPrivateKey {
      out := out + [Field("PrivateKey", KeyToText(dev.privateKey))];
    }
    out := out + ["\n"];
    assert out == DeviceLines(c, dev);
    var i := 0;
    assert dev.peers[0..] == dev.peers;
    while i < |dev.peers|
      invariant 0 <= i <= |dev.peers|
      invariant out + PeersLines(c, dev.peers[i..]) == ShowLines(c, dev)
    {
      ghost var was := out;
      var lines := ShowPeer(c, dev.peers[i]);
      ghost var rest := PeersLines(c, dev.peers[i + 1..]);
      if i + 1 < |dev.peers| {
        lines := lines + ["\n"];
      }
      out := out + lines;
      PeersLinesStep(c, dev.peers, i);
      assert was + (lines + rest) == out + rest;
      i := i + 1;
    }
    assert dev.peers[|dev.peers|..] == [] && out + [] == out;
  }

  lemma PeersLinesStep(c: Codec, peers: seq<Peer>, i: nat)
    requires i < |peers|
    ensures PeersLines(c, peers[i..]) == PeerLines(c, peers[i]) + (if i + 1 < |peers| then ["\n"] else [])
      + PeersLines(c, peers[i + 1..])
  {
    hide PeerLines;
    assert peers[i..][1..] == peers[i + 1..];
  }

  /** Prints a device and reads the text back. */
  method ShowThenRead(c: Codec, dev: Device) returns (ok: bool, ctx: Context)
    requires Faithful(c) && dev.Valid()
    requires forall i :: 0 <= i < |dev.peers| ==> R.AllAccepted(dev.peers[i].ips) && Named(c, dev.peers[i])
    ensures ok && fresh(ctx) && ctx.Valid()
    ensures Finish(ctx.Understood())
      == Some(Conf(true, true, true, true, if dev.hasPrivateKey then dev.privateKey else Zeros(32),
      dev.listenPort, dev.fwmark, Backs(c, dev.peers)))
  {
    hide Faithful, R.AllAccepted, ShowLines, ReadLine, Backs, Finish;
    var lines := Show(c, dev);
    PrintThenParse(c, dev);
    ctx := new Context(false);
    ok := true;
    var i := 0;
    assert lines[0..] == lines;
    while i < |lines|
      invariant 0 <= i <= |lines| && ok && fresh(ctx) && ctx.Valid()
      invariant ReadLines(c, ctx.Understood(), lines[i..]) == ReadLines(c, Init(false), lines)
    {
      assert lines[i..][0] == lines[i] && lines[i..][1..] == lines[i + 1..];
      ok := ctx.ReadOneLine(c, lines[i]);
      i := i + 1;
    }
    assert lines[|lines|..] == [];
  }
}
