/** Splitting a device into messages and reading them back gives the device. */
module Reassembly {
  import opened Bits
  import opened Tlv
  import opened WgDevice
  import opened SetDevice
  import opened PeerList
  import opened GetDevice

  // ----- What fits the 16-bit fields -----

  ghost predicate Typed(a: Attr)
    decreases a
  {
    a.typ < 0x4000 && (a.Nest? ==> forall k | k in a.kids :: Typed(k))
  }

  lemma {:induction false} PartSize(attrs: seq<Attr>, a: Attr)
    requires a in attrs
    ensures |Encode(a)| <= |EncodeAll(attrs)|
  {
    hide Encode;
    if attrs[0] != a {
      PartSize(attrs[1..], a);
    }
  }

  lemma {:induction false} SmallFits(a: Attr)
    requires Typed(a) && |Encode(a)| < 0x10000
    ensures Fits(a)
    decreases a
  {
    if a.Nest? {
      hide EncodeAll;
      assert |EncodeAll(a.kids)| <= |Encode(a)|;
      forall k | k in a.kids ensures Fits(k) {
        PartSize(a.kids, k);
        SmallFits(k);
      }
    }
  }

  /** The walker on a list of attributes that together are short. */
  lemma WalkSmall(attrs: seq<Attr>)
    requires |EncodeAll(attrs)| < 0x10000 && forall a :: a in attrs ==> Typed(a)
    ensures Walk(EncodeAll(attrs)) == Raws(attrs)
  {
    hide Encode, EncodeAll, Fits, Typed, Walk, Raws;
    forall a | a in attrs ensures Fits(a) {
      PartSize(attrs, a);
      SmallFits(a);
    }
    WalkEncoded(attrs);
  }

  lemma {:induction false} RawsConcat(a: seq<Attr>, b: seq<Attr>)
    ensures Raws(a + b) == Raws(a) + Raws(b)
  {
    hide Raw;
    if a == [] {
      assert a + b == b;
    } else {
      assert (a + b)[1..] == a[1..] + b;
      RawsConcat(a[1..], b);
    }
  }

  // ----- One allowed IP -----

  /** An allowed IP with the unused part of its union cleared. */
  function Normal(ip: AllowedIp): AllowedIp
  {
    if ip.family == AF_INET then ip.(ip := Copied(Zeros(16), Member(ip.ip, 4))) else ip
  }

  lemma IpTyped(ip: AllowedIp)
    ensures Typed(IpAttr(ip))
  {
    forall k | k in IpAttr(ip).kids ensures Typed(k) {
      assert k.Leaf?;
    }
  }

  lemma IpRead(ip: AllowedIp)
    requires ip.Valid() && Acceptable(ip)
    ensures IpFields(BLANK_IP, Raws(IpAttr(ip).kids)) == Normal(ip)
  {
    hide Le16;
    var f, a, c := Leaf(1, Le16(ip.family)), Address(ip)[0], Leaf(3, [ip.cidr]);
    assert IpAttr(ip).kids == [f, a, c];
    RawsThree(f, a, c);
    Le16Inverse(ip.family);
    var one := IpField(BLANK_IP, Raw(f));
    assert one == AllowedIp(ip.family, Zeros(16), 0);
    var two := IpField(one, Raw(a));
    assert two.ip == Normal(ip).ip;
    var three := IpField(two, Raw(c));
    assert IpFields(BLANK_IP, [Raw(f), Raw(a), Raw(c)]) == IpFields(one, [Raw(a), Raw(c)]);
    assert IpFields(one, [Raw(a), Raw(c)]) == IpFields(two, [Raw(c)]);
    assert IpFields(two, [Raw(c)]) == three;
  }

  lemma RawsThree(a: Attr, b: Attr, c: Attr)
    ensures Raws([a, b, c]) == [Raw(a), Raw(b), Raw(c)]
  {
    hide Raw;
    assert [a, b, c][1..] == [b, c] && [b, c][1..] == [c];
    assert Raws([c]) == [Raw(c)] && Raws([b, c]) == [Raw(b)] + Raws([c]);
  }

  lemma IpSmall(ip: AllowedIp)
    requires ip.Valid()
    ensures |EncodeAll(IpAttr(ip).kids)| <= 36
  {
    hide Le16, Encode, EncodeAll, Align;
    var f, c := Leaf(1, Le16(ip.family)), Leaf(3, [ip.cidr]);
    EncodeConcat([f] + Address(ip), [c]);
    EncodeConcat([f], Address(ip));
    EncodeOne(f);
    EncodeOne(c);
    LeafSize(1, f.data);
    LeafSize(3, c.data);
    FieldSizes();
    NoAttrs();
    if Address(ip) != [] {
      var a := Address(ip)[0];
      assert Address(ip) == [a];
      EncodeOne(a);
      LeafSize(2, a.data);
    }
  }

  function Normals(ips: seq<AllowedIp>): (r: seq<AllowedIp>)
    ensures |r| == |ips|
  {
    if ips == [] then [] else [Normal(ips[0])] + Normals(ips[1..])
  }

  /** IPv4 addresses with a prefix length of at most 32 and IPv6 addresses with one of at most 128. */
  ghost predicate AllAccepted(ips: seq<AllowedIp>)
  {
    forall i :: 0 <= i < |ips| ==> ips[i].Valid() && Acceptable(ips[i])
  }

  predicate Acceptable(ip: AllowedIp)
  {
    (ip.family == 2 && ip.cidr <= 32) || (ip.family == 10 && ip.cidr <= 128)
  }

  lemma IpItemRead(ip: AllowedIp)
    requires ip.Valid() && Acceptable(ip)
    ensures IpFields(BLANK_IP, Walk(Raw(IpAttr(ip)).payload)) == Normal(ip) && Accepted(Normal(ip))
  {
    hide Walk, Raws, IpFields, EncodeAll, Typed;
    IpSmall(ip);
    assert forall k :: k in IpAttr(ip).kids ==> Typed(k) by { IpKidsTyped(ip); }
    WalkSmall(IpAttr(ip).kids);
    IpRead(ip);
  }

  lemma IpKidsTyped(ip: AllowedIp)
    ensures forall k :: k in IpAttr(ip).kids ==> Typed(k)
  {
    forall k | k in IpAttr(ip).kids ensures Typed(k) {
      assert k.Leaf?;
    }
  }

  /** Every allowed IP of a list is read back, in order, after those already there. */
  lemma {:induction false} IpsRead(e: Entry, ips: seq<AllowedIp>)
    requires AllAccepted(ips)
    ensures ReadIps(e, Raws(IpAttrs(ips))) == (Entry(e.info, e.ips + Normals(ips), e.tail || ips != []), true)
    decreases |ips|
  {
    hide Walk, IpFields, IpAttr, Raw, Accepted, Normal;
    if ips == [] {
      assert e.ips + [] == e.ips;
    } else {
      var ip, rest := ips[0], ips[1..];
      var items := Raws(IpAttrs(ips));
      assert IpAttrs(ips)[1..] == IpAttrs(rest);
      assert items == [Raw(IpAttr(ip))] + Raws(IpAttrs(rest)) && items[1..] == Raws(IpAttrs(rest));
      IpItemRead(ip);
      var next := Entry(e.info, e.ips + [Normal(ip)], true);
      IpsRead(next, rest);
      assert e.ips + [Normal(ip)] + Normals(rest) == e.ips + Normals(ips);
    }
  }

  // ----- One appearance of a peer -----

  function SentEndpoint(p: Peer): seq<u8>
  {
    if Family(p.endpoint) == AF_INET then Copied(Zeros(28), Member(p.endpoint, 16))
    else if Family(p.endpoint) == AF_INET6 then p.endpoint
    else Zeros(28)
  }

  /** What is read about a peer: all its settings from its first appearance, its key from any. */
  function Seen(p: Peer, first: bool): Info
  {
    if first then
      Info(true, p.key, p.hasPsk && exists i :: 0 <= i < |p.psk| && p.psk[i] != 0,
           if p.hasPsk then p.psk else Zeros(32), SentEndpoint(p), if p.hasKeepalive then p.keepalive else 0)
    else Info(true, p.key, false, Zeros(32), Zeros(28), 0)
  }

  function Expected(f: Frag): Entry
  {
    Entry(Seen(f.peer, f.first), Normals(f.ips), f.ips != [])
  }

  lemma {:induction false} PeerFieldsConcat(e: Entry, a: seq<Item>, b: seq<Item>)
    requires PeerFields(e, a).1
    ensures PeerFields(e, a + b) == PeerFields(PeerFields(e, a).0, b)
    decreases |a|
  {
    hide PeerField;
    if a == [] {
      assert a + b == b;
    } else {
      assert (a + b)[1..] == a[1..] + b;
      PeerFieldsConcat(PeerField(e, a[0]).0, a[1..], b);
    }
  }

  ghost predicate Plain(part: seq<Attr>)
  {
    |part| <= 1 && (part != [] ==> part[0].Leaf? && part[0].typ < 9)
  }

  function Told(i: Info, part: seq<Attr>): Info
  {
    if part == [] then i else InfoField(i, Raw(part[0]))
  }

  /** Reading one more attribute, or none, after attributes that were read without stopping. */
  lemma PartRead(e: Entry, attrs: seq<Attr>, part: seq<Attr>)
    requires PeerFields(e, Raws(attrs)).1 && Plain(part)
    ensures var x := PeerFields(e, Raws(attrs)).0;
      PeerFields(e, Raws(attrs + part)) == (x.(info := Told(x.info, part)), true)
  {
    hide InfoField;
    var x := PeerFields(e, Raws(attrs)).0;
    RawsConcat(attrs, part);
    PeerFieldsConcat(e, Raws(attrs), Raws(part));
    if part != [] {
      assert Raws(part) == [Raw(part[0])];
      assert PeerFields(x, [Raw(part[0])]) == (PeerField(x, Raw(part[0])).0, true);
    }
  }

  lemma HeadRead(p: Peer, first: bool)
    requires p.Valid()
    ensures PeerFields(BLANK, Raws(Head(p, first))) == (Entry(Seen(p, first), [], false), true)
  {
    hide PeerFields, Raws, Told, Le16, Le32, InfoField, Seen;
    var key, flags := [Leaf(1, p.key)], FlagsAttr(p, first);
    NothingRead(BLANK);
    PartRead(BLANK, [], key);
    assert [] + key == key;
    var i := Told(BLANK.info, key);
    if first {
      var psk, endpoint, keepalive := PskAttr(p), EndpointAttr(p), KeepaliveAttr(p);
      PartRead(BLANK, key, psk);
      PartRead(BLANK, key + psk, endpoint);
      PartRead(BLANK, key + psk + endpoint, keepalive);
      PartRead(BLANK, key + psk + endpoint + keepalive, flags);
      assert Head(p, true) == key + psk + endpoint + keepalive + flags;
      FirstTold(p);
    } else {
      PartRead(BLANK, key, flags);
      assert Head(p, false) == key + flags by { assert key + [] == key; }
      LaterTold(p);
    }
  }

  lemma NothingRead(e: Entry)
    ensures PeerFields(e, Raws([])) == (e, true)
  {
  }

  lemma FirstTold(p: Peer)
    requires p.Valid()
    ensures var i := Told(Told(Told(Told(BLANK.info, [Leaf(1, p.key)]), PskAttr(p)), EndpointAttr(p)),
                          KeepaliveAttr(p));
      Told(i, FlagsAttr(p, true)) == Seen(p, true)
  {
    hide Le16, Le32, IsZero;
    Le16Inverse(p.keepalive);
    NotZero(p.psk);
    var i1 := Told(BLANK.info, [Leaf(1, p.key)]);
    assert i1 == BLANK.info.(key := p.key, hasKey := true);
    var i2 := Told(i1, PskAttr(p));
    assert i2 == i1.(psk := if p.hasPsk then p.psk else Zeros(32), hasPsk := p.hasPsk && !IsZero(p.psk));
    var i3 := Told(i2, EndpointAttr(p));
    assert i3 == i2.(endpoint := SentEndpoint(p));
    var i4 := Told(i3, KeepaliveAttr(p));
    assert i4 == i3.(keepalive := if p.hasKeepalive then p.keepalive else 0);
  }

  lemma LaterTold(p: Peer)
    requires p.Valid()
    ensures Told(Told(BLANK.info, [Leaf(1, p.key)]), FlagsAttr(p, false)) == Seen(p, false)
  {
    hide Le32;
  }

  lemma {:induction false} IpAttrsTyped(ips: seq<AllowedIp>)
    ensures forall a :: a in IpAttrs(ips) ==> Typed(a)
  {
    hide IpAttr, Typed;
    if ips != [] {
      IpAttrsTyped(ips[1..]);
      IpTyped(ips[0]);
    }
  }

  lemma HeadTyped(p: Peer, first: bool)
    ensures forall a :: a in Head(p, first) ==> a.Leaf? && Typed(a)
  {
    hide Le16, Le32, Member, Family, FlagBits;
    forall a | a in Head(p, first) ensures a.Leaf? && Typed(a) {
      HeadPart(p, first, a);
    }
  }

  lemma HeadPart(p: Peer, first: bool, a: Attr)
    requires a in Head(p, first)
    ensures a.Leaf? && a.typ < 0x4000
  {
    hide Le16, Le32, Member, Family, FlagBits;
    var rest := PskAttr(p) + EndpointAttr(p) + KeepaliveAttr(p);
    assert a in [Leaf(1, p.key)] || a in FlagsAttr(p, first) || a in rest;
    assert a in rest ==> a in PskAttr(p) || a in EndpointAttr(p) || a in KeepaliveAttr(p);
  }

  function IpsPart(f: Frag): seq<Attr>
  {
    if f.nest then [Nest(9, IpAttrs(f.ips))] else []
  }

  lemma FragTyped(f: Frag)
    ensures Typed(FragAttr(f)) && forall a :: a in FragAttr(f).kids ==> Typed(a)
  {
    hide Head, IpAttrs;
    HeadTyped(f.peer, f.first);
    IpAttrsTyped(f.ips);
    forall a | a in FragAttr(f).kids ensures Typed(a) {
      assert a in Head(f.peer, f.first) || a in IpsPart(f);
    }
  }

  /** What a fragment must be for its reading to succeed. */
  ghost predicate Readable(f: Frag)
  {
    f.peer.Valid() && AllAccepted(f.ips) && (!f.nest ==> f.ips == [])
  }

  lemma FragRead(f: Frag)
    requires Readable(f) && |Encode(FragAttr(f))| < 0x10000
    ensures PeerFields(BLANK, Walk(Raw(FragAttr(f)).payload)) == (Expected(f), true)
  {
    hide PeerFields, Walk, Raws, Head, IpAttrs, EncodeAll, Typed, Seen, Normals;
    var head, part, kids := Head(f.peer, f.first), IpsPart(f), FragAttr(f).kids;
    FragTyped(f);
    WalkSmall(kids);
    RawsConcat(head, part);
    HeadRead(f.peer, f.first);
    PeerFieldsConcat(BLANK, Raws(head), Raws(part));
    var e := Entry(Seen(f.peer, f.first), [], false);
    if f.nest {
      EncodeConcat(head, part);
      EncodeOne(part[0]);
      NestRead(e, f.ips);
      assert [] + Normals(f.ips) == Normals(f.ips);
    } else {
      NothingRead(e);
      assert Normals([]) == [] by { NoNormals(); }
    }
  }

  lemma NoNormals()
    ensures Normals([]) == []
  {
  }

  lemma NestRead(e: Entry, ips: seq<AllowedIp>)
    requires AllAccepted(ips) && |Encode(Nest(9, IpAttrs(ips)))| < 0x10000
    ensures PeerFields(e, Raws([Nest(9, IpAttrs(ips))]))
      == (Entry(e.info, e.ips + Normals(ips), e.tail || ips != []), true)
  {
    hide Walk, IpAttrs, EncodeAll, Typed, Normals, ReadIps;
    var a := Nest(9, IpAttrs(ips));
    assert Raws([a]) == [Raw(a)] by { assert [a][1..] == []; }
    IpAttrsTyped(ips);
    WalkSmall(IpAttrs(ips));
    IpsRead(e, ips);
    assert Type(Raw(a)) == 9;
    assert PeerFields(e, [Raw(a)]) == PeerField(e, Raw(a));
  }

  // ----- One message -----

  function Expecteds(frags: seq<Frag>): (r: seq<Entry>)
    ensures |r| == |frags|
  {
    if frags == [] then [] else [Expected(frags[0])] + Expecteds(frags[1..])
  }

  ghost predicate AllReadable(frags: seq<Frag>)
  {
    forall i :: 0 <= i < |frags| ==> Readable(frags[i])
  }

  lemma {:induction false} FragAttrsTyped(frags: seq<Frag>)
    ensures forall a :: a in FragAttrs(frags) ==> Typed(a)
  {
    hide FragAttr, Typed;
    if frags != [] {
      FragAttrsTyped(frags[1..]);
      FragTyped(frags[0]);
    }
  }

  lemma {:induction false} PeersRead(list: seq<Entry>, frags: seq<Frag>)
    requires AllReadable(frags) && |EncodeAll(FragAttrs(frags))| < 0x10000
    ensures ReadPeers(list, Raws(FragAttrs(frags))) == (list + Expecteds(frags), true)
    decreases |frags|
  {
    hide Walk, PeerFields, FragAttr, Raw, Expected, Encode, Readable;
    if frags == [] {
      assert list + [] == list;
    } else {
      var f, rest := frags[0], frags[1..];
      var items := Raws(FragAttrs(frags));
      assert FragAttrs(frags)[1..] == FragAttrs(rest);
      assert items == [Raw(FragAttr(f))] + Raws(FragAttrs(rest)) && items[1..] == Raws(FragAttrs(rest));
      FragRead(f);
      assert Expected(f).info.hasKey by { ExpectedKeyed(f); }
      PeersRead(list + [Expected(f)], rest);
      assert list + [Expected(f)] + Expecteds(rest) == list + Expecteds(frags);
    }
  }

  lemma ExpectedKeyed(f: Frag)
    ensures Expected(f).info.hasKey
  {
  }

  lemma {:induction false} DeviceFieldsConcat(d: Dump, a: seq<Item>, b: seq<Item>)
    requires DeviceFields(d, a).1
    ensures DeviceFields(d, a + b) == DeviceFields(DeviceFields(d, a).0, b)
    decreases |a|
  {
    hide DeviceField;
    if a == [] {
      assert a + b == b;
    } else {
      assert (a + b)[1..] == a[1..] + b;
      DeviceFieldsConcat(DeviceField(d, a[0]).0, a[1..], b);
    }
  }

  ghost predicate Setting(part: seq<Attr>)
  {
    |part| <= 1 && (part != [] ==> part[0].Leaf? && part[0].typ < 8)
  }

  function Set(d: Dump, part: seq<Attr>): Dump
  {
    if part == [] then d else DeviceField(d, Raw(part[0])).0
  }

  lemma SettingRead(d: Dump, attrs: seq<Attr>, part: seq<Attr>)
    requires DeviceFields(d, Raws(attrs)).1 && Setting(part)
    ensures DeviceFields(d, Raws(attrs + part)) == (Set(DeviceFields(d, Raws(attrs)).0, part), true)
  {
    hide ReadPeers, Walk;
    var x := DeviceFields(d, Raws(attrs)).0;
    RawsConcat(attrs, part);
    DeviceFieldsConcat(d, Raws(attrs), Raws(part));
    if part != [] {
      assert Raws(part) == [Raw(part[0])];
      assert DeviceFields(x, [Raw(part[0])]) == (DeviceField(x, Raw(part[0])).0, true);
    }
  }

  function KeyPart(dev: Device): seq<Attr>
  {
    if dev.hasPrivateKey then [Leaf(3, dev.privateKey)] else []
  }

  function PortPart(dev: Device): seq<Attr>
  {
    if dev.hasListenPort then [Leaf(6, Le16(dev.listenPort))] else []
  }

  function MarkPart(dev: Device): seq<Attr>
  {
    if dev.hasFwmark then [Leaf(7, Le32(dev.fwmark))] else []
  }

  function FlagPart(dev: Device): seq<Attr>
  {
    if dev.replacePeers then [Leaf(5, Le32(1))] else []
  }

  /** What is read of the device's own settings. */
  function Configured(d: Dump, dev: Device): Dump
  {
    Dump(d.hasPrivateKey || dev.hasPrivateKey, if dev.hasPrivateKey then dev.privateKey else d.privateKey,
         if dev.hasListenPort then dev.listenPort else d.listenPort,
         if dev.hasFwmark then dev.fwmark else d.fwmark, d.peers)
  }

  lemma Le32Inverse(lo: nat, hi: nat)
    requires lo < 0x10000 && hi < 0x10000
    ensures FromLe32(Le16(lo) + Le16(hi)) == lo + 0x10000 * hi
  {
    hide Le16, FromLe16;
    Le16Inverse(lo);
    Le16Inverse(hi);
  }

  lemma PreambleRead(d: Dump, dev: Device, first: bool)
    requires dev.Valid()
    ensures DeviceFields(d, Raws(Preamble(dev, first))) == (if first then Configured(d, dev) else d, true)
  {
    hide DeviceFields, Raws, Set, Le16, Le32, Configured, Preamble, KeyPart, PortPart, MarkPart, FlagPart, Setting;
    var name := [Leaf(2, dev.name + [0])];
    PreambleParts(dev);
    NothingSet(d);
    SettingRead(d, [], name);
    assert [] + name == name;
    assert Set(d, name) == d by { NameSet(d, dev.name); }
    if first {
      var key, port, mark, flag := KeyPart(dev), PortPart(dev), MarkPart(dev), FlagPart(dev);
      SettingRead(d, name, key);
      SettingRead(d, name + key, port);
      SettingRead(d, name + key + port, mark);
      SettingRead(d, name + key + port + mark, flag);
      AllSet(d, dev);
    }
  }

  lemma PreambleParts(dev: Device)
    ensures var name := [Leaf(2, dev.name + [0])];
      && Preamble(dev, true) == name + KeyPart(dev) + PortPart(dev) + MarkPart(dev) + FlagPart(dev)
      && Preamble(dev, false) == name && Setting(name)
    ensures Setting(KeyPart(dev)) && Setting(PortPart(dev)) && Setting(MarkPart(dev)) && Setting(FlagPart(dev))
  {
    hide Le16, Le32;
    var name := [Leaf(2, dev.name + [0])];
    assert name + [] == name;
    assert name + (KeyPart(dev) + PortPart(dev) + MarkPart(dev) + FlagPart(dev))
      == name + KeyPart(dev) + PortPart(dev) + MarkPart(dev) + FlagPart(dev);
  }

  lemma NothingSet(d: Dump)
    ensures DeviceFields(d, Raws([])) == (d, true)
  {
  }

  lemma NameSet(d: Dump, name: seq<u8>)
    ensures Set(d, [Leaf(2, name + [0])]) == d
  {
    hide Walk, ReadPeers;
  }

  lemma AllSet(d: Dump, dev: Device)
    requires dev.Valid()
    ensures Set(Set(Set(Set(d, KeyPart(dev)), PortPart(dev)), MarkPart(dev)), FlagPart(dev)) == Configured(d, dev)
  {
    hide Walk, ReadPeers, Le16, FromLe32;
    Le16Inverse(dev.listenPort);
    assert FromLe32(Le32(dev.fwmark)) == dev.fwmark by {
      Le32Inverse(dev.fwmark % 0x10000, dev.fwmark / 0x10000);
    }
    hide Le32;
    var d1 := Set(d, KeyPart(dev));
    var d2 := Set(d1, PortPart(dev));
    assert d2 == d1.(listenPort := if dev.hasListenPort then dev.listenPort else d.listenPort);
    var d3 := Set(d2, MarkPart(dev));
    assert d3 == d2.(fwmark := if dev.hasFwmark then dev.fwmark else d.fwmark);
    assert Set(d3, FlagPart(dev)) == d3;
  }

  lemma PreambleTyped(dev: Device, first: bool)
    ensures forall a :: a in Preamble(dev, first) ==> Typed(a)
  {
    hide Le16, Le32;
    forall a | a in Preamble(dev, first) ensures Typed(a) {
      assert a in [Leaf(2, dev.name + [0])] || a in DeviceAttrs(dev);
      assert a in DeviceAttrs(dev) ==>
        a in KeyPart(dev) || a in PortPart(dev) || a in MarkPart(dev) || a in FlagPart(dev);
    }
  }

  /** A message is read as its settings, if it carries them, and its peers after those already read. */
  lemma MessageRead(d: Dump, dev: Device, first: bool, frags: seq<Frag>)
    requires dev.Valid() && AllReadable(frags) && (dev.peers == [] ==> frags == [])
    requires |EncodeAll(MessageAttrs(dev, first, frags))| < 0x10000
    ensures var e := if first then Configured(d, dev) else d;
      ReadMessage(d, EncodeAll(MessageAttrs(dev, first, frags))) == (e.(peers := e.peers + Expecteds(frags)), true)
  {
    hide Walk, Raws, DeviceFields, EncodeAll, Encode, Typed, Preamble, FragAttrs, Readable, Expecteds, Configured;
    var e, pre, nest := if first then Configured(d, dev) else d, Preamble(dev, first), Nest(8, FragAttrs(frags));
    PreambleTyped(dev, first);
    PreambleRead(d, dev, first);
    if dev.peers == [] {
      assert pre + [] == pre;
      WalkSmall(pre);
      assert Expecteds([]) == [] by { NoExpecteds(); }
      assert e.peers + [] == e.peers;
    } else {
      assert Typed(nest) by { NestTyped(frags); }
      WalkSmall(pre + [nest]);
      RawsConcat(pre, [nest]);
      DeviceFieldsConcat(d, Raws(pre), Raws([nest]));
      EncodeAppend(pre, nest);
      PeersNestRead(e, frags);
    }
  }

  lemma NoExpecteds()
    ensures Expecteds([]) == []
  {
  }

  lemma NestTyped(frags: seq<Frag>)
    ensures Typed(Nest(8, FragAttrs(frags)))
  {
    hide FragAttrs;
    FragAttrsTyped(frags);
  }

  lemma PeersNestRead(d: Dump, frags: seq<Frag>)
    requires AllReadable(frags) && |Encode(Nest(8, FragAttrs(frags)))| < 0x10000
    ensures DeviceFields(d, Raws([Nest(8, FragAttrs(frags))])) == (d.(peers := d.peers + Expecteds(frags)), true)
  {
    hide Walk, FragAttrs, EncodeAll, Typed, Expecteds, ReadPeers, Readable;
    var a := Nest(8, FragAttrs(frags));
    assert Raws([a]) == [Raw(a)] by { assert [a][1..] == []; }
    FragAttrsTyped(frags);
    WalkSmall(FragAttrs(frags));
    PeersRead(d.peers, frags);
    assert Type(Raw(a)) == 8;
    assert DeviceFields(d, [Raw(a)]) == DeviceField(d, Raw(a));
  }

  // ----- All messages -----

  lemma FlattenLast<T>(s: seq<seq<T>>)
    ensures s == [] ==> Flatten(s) == []
    ensures s != [] ==> Flatten(s) == Flatten(s[..|s| - 1]) + s[|s| - 1]
  {
  }

  lemma {:induction false} FlattenFirst<T>(s: seq<seq<T>>)
    requires s != []
    ensures Flatten(s) == s[0] + Flatten(s[1..])
    decreases |s|
  {
    hide Flatten;
    var n := |s| - 1;
    FlattenLast(s);
    FlattenLast(s[1..]);
    if n == 0 {
      FlattenLast(s[..0]);
    } else {
      var init, mid := s[..n], s[1..n];
      FlattenFirst(init);
      assert init[1..] == mid && s[1..][..n - 1] == mid;
      assert (s[0] + Flatten(mid)) + s[n] == s[0] + (Flatten(mid) + s[n]);
    }
  }

  lemma {:induction false} ExpectedsConcat(a: seq<Frag>, b: seq<Frag>)
    ensures Expecteds(a + b) == Expecteds(a) + Expecteds(b)
  {
    hide Expected;
    if a == [] {
      assert a + b == b;
    } else {
      assert (a + b)[1..] == a[1..] + b;
      ExpectedsConcat(a[1..], b);
    }
  }

  /** Whether `sent` says the settings, if `first`, in its first message, and the fragments. */
  ghost predicate Says(dev: Device, first: bool, sent: seq<seq<u8>>, messages: seq<seq<Frag>>)
  {
    |sent| == |messages| && forall k :: 0 <= k < |sent| ==>
      sent[k] == EncodeAll(MessageAttrs(dev, first && k == 0, messages[k])) && |sent[k]| < 0x10000
  }

  /** A message the pass does not survive, well-formed as it is: one peer with an allowed IP, then the
      same peer without one, then with one again. */
  lemma LostTailRead(d: Dump, dev: Device, p: Peer, ip: AllowedIp, frags: seq<Frag>)
    requires dev.Valid() && dev.peers != [] && d.peers == [] && p.Valid() && AllAccepted([ip])
    requires frags == [Frag(p, true, true, [ip]), Frag(p, false, false, []), Frag(p, false, true, [ip])]
    requires |EncodeAll(MessageAttrs(dev, false, frags))| < 0x10000
    ensures !Survives(ReadMessage(d, EncodeAll(MessageAttrs(dev, false, frags))).0.peers)
  {
    hide ReadMessage, EncodeAll, MessageAttrs, Expecteds, Configured, Survives, SentEndpoint;
    assert AllAccepted([]);
    MessageRead(d, dev, false, frags);
    var a, b, c := Expected(frags[0]), Expected(frags[1]), Expected(frags[2]);
    assert Expecteds(frags) == [a, b, c] by { ThreeExpected(frags); }
    assert [] + [a, b, c] == [a, b, c];
    LostTail(a, b, c);
  }

  lemma ThreeExpected(frags: seq<Frag>)
    requires |frags| == 3
    ensures Expecteds(frags) == [Expected(frags[0]), Expected(frags[1]), Expected(frags[2])]
  {
    hide Expected;
    var two := frags[1..];
    var one := two[1..];
    assert one == [frags[2]] && one[1..] == [];
    assert Expecteds(one) == [Expected(frags[2])];
    assert Expecteds(two) == [Expected(frags[1])] + Expecteds(one);
  }

  lemma {:induction false} AllRead(d: Dump, dev: Device, first: bool, sent: seq<seq<u8>>, messages: seq<seq<Frag>>)
    requires dev.Valid() && Says(dev, first, sent, messages) && messages != []
    requires forall k :: 0 <= k < |messages| ==> AllReadable(messages[k]) && (dev.peers == [] ==> messages[k] == [])
    ensures var e := if first then Configured(d, dev) else d;
      ReadAll(d, sent) == (e.(peers := d.peers + Expecteds(Flatten(messages))), true)
    decreases |messages|
  {
    hide ReadMessage, EncodeAll, MessageAttrs, AllReadable, Expecteds, Flatten, Configured;
    var e := if first then Configured(d, dev) else d;
    assert e.peers == d.peers by { SamePeers(d, dev); }
    assert sent[0] == EncodeAll(MessageAttrs(dev, first, messages[0]));
    MessageRead(d, dev, first, messages[0]);
    var next := e.(peers := e.peers + Expecteds(messages[0]));
    assert ReadAll(d, sent) == ReadAll(next, sent[1..]);
    FlattenFirst(messages);
    ExpectedsConcat(messages[0], Flatten(messages[1..]));
    if |messages| == 1 {
      NothingMore(messages[1..], sent[1..], next);
      assert next.peers + [] == next.peers;
    } else {
      AllRead(next, dev, false, sent[1..], messages[1..]);
    }
    assert next.peers + Expecteds(Flatten(messages[1..])) == d.peers + Expecteds(Flatten(messages));
  }

  lemma SamePeers(d: Dump, dev: Device)
    ensures Configured(d, dev).peers == d.peers
  {
  }

  lemma NothingMore(messages: seq<seq<Frag>>, sent: seq<seq<u8>>, d: Dump)
    requires messages == [] && sent == []
    ensures Expecteds(Flatten(messages)) == [] && ReadAll(d, sent) == (d, true)
  {
  }

  // ----- Putting the peers together again -----

  function Whole(p: Peer): Group
  {
    Group(Seen(p, true), Normals(p.ips))
  }

  function Wholes(peers: seq<Peer>): (r: seq<Group>)
    ensures |r| == |peers|
  {
    if peers == [] then [] else [Whole(peers[0])] + Wholes(peers[1..])
  }

  ghost predicate NeighboursDiffer(peers: seq<Peer>)
  {
    forall i :: 0 < i < |peers| ==> peers[i - 1].key != peers[i].key
  }

  lemma {:induction false} NormalsConcat(a: seq<AllowedIp>, b: seq<AllowedIp>)
    ensures Normals(a + b) == Normals(a) + Normals(b)
  {
    hide Normal;
    if a == [] {
      assert a + b == b;
    } else {
      assert (a + b)[1..] == a[1..] + b;
      NormalsConcat(a[1..], b);
    }
  }

  /** What remains to be grouped, seen from a position of the split. */
  function Remaining(peers: seq<Peer>, pos: Pos): seq<Group>
    requires Within(peers, pos)
  {
    if pos.ip.Null? then Wholes(peers[pos.peer..])
    else [Group(Seen(peers[pos.peer], false), Normals(peers[pos.peer].ips[pos.ip.n..]))] + Wholes(peers[pos.peer + 1..])
  }

  /** Grouping again once the rest has been grouped. */
  lemma GroupedStep(e: Entry, tail: seq<Entry>)
    ensures var g, r := Grouped(tail), Grouped([e] + tail);
      if tail != [] && Same(e, tail[0]) then g != [] && r == [Group(e.info, e.ips + g[0].ips)] + g[1..]
      else r == [Group(e.info, e.ips)] + g
  {
    assert ([e] + tail)[1..] == tail;
  }

  lemma {:induction false} Regrouped(peers: seq<Peer>, pos: Pos, frags: seq<Frag>)
    requires Within(peers, pos) && NeighboursDiffer(peers) && Covers(peers, pos, frags, Pos(|peers|, Null))
    ensures Grouped(Expecteds(frags)) == Remaining(peers, pos)
    decreases |frags|
  {
    hide Normals, Seen, Expected, Grouped, Remaining, NeighboursDiffer;
    if frags == [] {
      assert peers[|peers|..] == [];
      NothingLeft(peers);
    } else {
      var f, rest, next := frags[0], frags[1..], After(peers, pos, frags[0]);
      Regrouped(peers, next, rest);
      GroupedStep(Expected(f), Expecteds(rest));
      KeySeen(f);
      if next.ip.Null? {
        if rest != [] {
          KeySeen(rest[0]);
          KeysDiffer(peers, next.peer);
        }
        RemainingLast(peers, pos, f);
      } else {
        assert rest != [];
        KeySeen(rest[0]);
        RemainingMore(peers, pos, f, next.ip.n);
      }
    }
  }

  lemma NothingLeft(peers: seq<Peer>)
    ensures Grouped([]) == Remaining(peers, Pos(|peers|, Null))
  {
    assert peers[|peers|..] == [];
  }

  lemma KeysDiffer(peers: seq<Peer>, i: nat)
    requires NeighboursDiffer(peers) && 0 < i < |peers|
    ensures peers[i - 1].key != peers[i].key
  {
  }

  lemma RemainingLast(peers: seq<Peer>, pos: Pos, f: Frag)
    requires Within(peers, pos) && Follows(peers, pos, f) && From(pos.ip) + |f.ips| == |f.peer.ips|
    ensures Remaining(peers, pos) == [Group(Seen(f.peer, f.first), Normals(f.ips))]
      + Remaining(peers, Pos(pos.peer + 1, Null))
  {
    hide Normals, Seen;
    assert peers[pos.peer..][0] == f.peer && peers[pos.peer..][1..] == peers[pos.peer + 1..];
    assert f.ips == f.peer.ips[From(pos.ip)..];
    assert f.peer.ips[0..] == f.peer.ips;
  }

  lemma RemainingMore(peers: seq<Peer>, pos: Pos, f: Frag, n: nat)
    requires Within(peers, pos) && Follows(peers, pos, f) && From(pos.ip) + |f.ips| == n < |f.peer.ips|
    ensures var g := Remaining(peers, Pos(pos.peer, At(n)));
      Remaining(peers, pos) == [Group(Seen(f.peer, f.first), Normals(f.ips) + g[0].ips)] + g[1..]
  {
    hide Normals, Seen;
    JoinIps(f, From(pos.ip), n);
    assert peers[pos.peer..][0] == f.peer && peers[pos.peer..][1..] == peers[pos.peer + 1..];
    assert f.peer.ips[0..] == f.peer.ips;
  }

  lemma KeySeen(f: Frag)
    ensures Expected(f).info == Seen(f.peer, f.first) && Expected(f).ips == Normals(f.ips)
    ensures Expected(f).info.key == f.peer.key
  {
  }

  lemma JoinIps(f: Frag, m: nat, n: nat)
    requires m <= n <= |f.peer.ips| && f.ips == f.peer.ips[m..n]
    ensures Normals(f.ips) + Normals(f.peer.ips[n..]) == Normals(f.peer.ips[m..])
  {
    NormalsConcat(f.ips, f.peer.ips[n..]);
    assert f.ips + f.peer.ips[n..] == f.peer.ips[m..];
  }

  // ----- No allowed IPs stop and start again -----

  /** An appearance without allowed IPs, except at the start, begins a peer. */
  lemma {:induction false} EmptyBegins(peers: seq<Peer>, pos: Pos, frags: seq<Frag>, end: Pos, j: nat)
    requires Within(peers, pos) && NeighboursDiffer(peers) && Covers(peers, pos, frags, end)
    requires 0 < j < |frags| && frags[j].ips == []
    ensures frags[j - 1].peer.key != frags[j].peer.key
    decreases |frags|
  {
    hide NeighboursDiffer;
    var next := After(peers, pos, frags[0]);
    if j == 1 {
      assert Follows(peers, next, frags[1..][0]);
      KeysDiffer(peers, next.peer);
    } else {
      EmptyBegins(peers, next, frags[1..], end, j - 1);
    }
  }

  lemma {:induction false} ExpectedsAt(frags: seq<Frag>, i: nat)
    requires i < |frags|
    ensures Expecteds(frags)[i] == Expected(frags[i])
  {
    hide Expected;
    if i > 0 {
      ExpectedsAt(frags[1..], i - 1);
    }
  }

  lemma SplitSurvives(peers: seq<Peer>, frags: seq<Frag>, end: Pos)
    requires NeighboursDiffer(peers) && Covers(peers, Pos(0, Null), frags, end)
    ensures Survives(Expecteds(frags))
  {
    hide Expecteds, Expected, NeighboursDiffer, Covers, Survives, Normals;
    var list := Expecteds(frags);
    forall i | 0 <= i < |list| ensures list[i].tail <==> list[i].ips != [] {
      ExpectedsAt(frags, i);
      TailSeen(frags[i]);
    }
    forall i: nat, j: nat | Gap(list, i, j) ensures false {
      ExpectedsAt(frags, j - 1);
      ExpectedsAt(frags, j);
      KeySeen(frags[j - 1]);
      KeySeen(frags[j]);
      TailSeen(frags[j]);
      EmptyBegins(peers, Pos(0, Null), frags, end, j);
    }
    SurvivesExactly(list);
  }

  lemma TailSeen(f: Frag)
    ensures Expected(f).tail == (f.ips != []) && |Expected(f).ips| == |f.ips|
  {
  }

  // ----- The round trip -----

  const EMPTY := Dump(false, Zeros(32), 0, 0, [])

  lemma {:induction false} CoveredReadable(peers: seq<Peer>, pos: Pos, frags: seq<Frag>, end: Pos)
    requires Within(peers, pos) && Covers(peers, pos, frags, end)
    requires forall i :: 0 <= i < |peers| ==> peers[i].Valid() && AllAccepted(peers[i].ips)
    ensures AllReadable(frags) && (peers == [] ==> frags == [])
    decreases |frags|
  {
    hide After;
    if frags == [] {
    } else {
      CoveredReadable(peers, After(peers, pos, frags[0]), frags[1..], end);
      forall i | 0 <= i < |frags| ensures Readable(frags[i]) {
        if i > 0 {
          assert frags[i] == frags[1..][i - 1];
        }
      }
    }
  }

  lemma {:induction false} FlattenPart<T>(s: seq<seq<T>>, k: nat, i: nat)
    requires k < |s| && i < |s[k]|
    ensures s[k][i] in Flatten(s)
    decreases |s|
  {
    if k < |s| - 1 {
      FlattenPart(s[..|s| - 1], k, i);
    }
  }

  lemma PartReadable(messages: seq<seq<Frag>>, k: nat)
    requires AllReadable(Flatten(messages)) && k < |messages|
    ensures AllReadable(messages[k]) && (messages[k] != [] ==> Flatten(messages) != [])
  {
    hide Readable, Flatten;
    forall i | 0 <= i < |messages[k]| ensures Readable(messages[k][i]) && Flatten(messages) != [] {
      FlattenPart(messages, k, i);
    }
    if messages[k] != [] {
      FlattenPart(messages, k, 0);
    }
  }

  /** Reading what was sent, then joining, gives every peer back: its settings, and its allowed IPs
      in order, once each; and the device's settings. */
  lemma SplitThenReassemble(dev: Device, sent: seq<seq<u8>>, messages: seq<seq<Frag>>)
    requires dev.Valid() && Says(dev, true, sent, messages) && messages != []
    requires Covers(dev.peers, Pos(0, Null), Flatten(messages), Pos(|dev.peers|, Null))
    requires NeighboursDiffer(dev.peers) && forall i :: 0 <= i < |dev.peers| ==> AllAccepted(dev.peers[i].ips)
    ensures var (d, ok) := ReadAll(EMPTY, sent);
      ok && d.(peers := []) == Configured(EMPTY, dev) && Survives(d.peers)
        && Groups(Coalesced(d.peers)) == Wholes(dev.peers)
  {
    hide Says, Covers, NeighboursDiffer, AllAccepted, ReadAll, Configured, Survives, Groups, Coalesced, Wholes,
      Readable;
    var frags := Flatten(messages);
    CoveredReadable(dev.peers, Pos(0, Null), frags, Pos(|dev.peers|, Null));
    forall k | 0 <= k < |messages| ensures AllReadable(messages[k]) && (dev.peers == [] ==> messages[k] == []) {
      PartReadable(messages, k);
    }
    AllRead(EMPTY, dev, true, sent, messages);
    assert [] + Expecteds(frags) == Expecteds(frags);
    SplitSurvives(dev.peers, frags, Pos(|dev.peers|, Null));
    CoalescedGroups(Expecteds(frags));
    Regrouped(dev.peers, Pos(0, Null), frags);
    assert Remaining(dev.peers, Pos(0, Null)) == Wholes(dev.peers) by { assert dev.peers[0..] == dev.peers; }
    SamePeers(EMPTY, dev);
  }

  lemma {:induction false} WholesAt(peers: seq<Peer>, i: nat)
    requires i < |peers|
    ensures Wholes(peers)[i] == Whole(peers[i])
  {
    hide Whole;
    if i > 0 {
      WholesAt(peers[1..], i - 1);
    }
  }

  /** The condition on neighbours is needed: no joined list can be a list of peers without it. */
  lemma NeighboursNeeded(peers: seq<Peer>, list: seq<Entry>)
    requires Groups(Coalesced(list)) == Wholes(peers)
    ensures NeighboursDiffer(peers)
  {
    hide Groups, Coalesced, Wholes, Grouped;
    CoalescedGroups(list);
    GroupedApart(list);
    forall i | 0 < i < |peers| ensures peers[i - 1].key != peers[i].key {
      WholesAt(peers, i - 1);
      WholesAt(peers, i);
      assert Differ(Wholes(peers), i - 1);
    }
  }

  /** The two ends of the protocol, one after the other. */
  method RoundTrip(dev: Device, size: nat) returns (reader: Reader)
    requires dev.Valid() && 4096 <= size <= 8192
    requires NeighboursDiffer(dev.peers) && forall i :: 0 <= i < |dev.peers| ==> AllAccepted(dev.peers[i].ips)
    ensures fresh(reader) && Groups(reader.peers) == Wholes(dev.peers)
  {
    hide Covers, NeighboursDiffer, AllAccepted, ReadAll, Survives, Groups, Coalesced, Wholes, EncodeAll, MessageAttrs;
    var ok, sent;
    ghost var messages, end;
    ok, sent, messages, end := KernelSetDevice(dev, size, _ => true);
    SplitThenReassemble(dev, sent, messages);
    reader := new Reader(ReadAll(EMPTY, sent).0.peers);
    ok := reader.Coalesce();
  }
}
