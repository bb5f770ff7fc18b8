/** What the kernel makes of the bytes of a set-device request, by the attribute numbers, the flag bits
    and the layout of its interface header, and that a device sent to it arrives whole. */
module KernelInput {
  import opened Bits
  import opened Text
  import opened Tlv
  import opened WgDevice
  import opened SetDevice
  import opened Kernel
  import opened Reassembly
  import SyncConf

  // ----- Attributes -----

  function Field(b: seq<u8>, at: nat): nat
    requires at + 2 <= |b|
  {
    b[at] as int + 256 * b[at + 1] as int
  }

  /** The attributes in a buffer: two little-endian 16-bit fields, the length and the type, then the data,
      padded to a multiple of four bytes. */
  function Attributes(b: seq<u8>): seq<Item>
    decreases |b|
  {
    if |b| < 4 || Field(b, 0) < 4 || Field(b, 0) > |b| then []
    else
      var len := Field(b, 0);
      var step := len + (if len % 4 == 0 then 0 else 4 - len % 4);
      [Item(Field(b, 2), b[4..len])] + if step < |b| then Attributes(b[step..]) else []
  }

  /** The data of the last attribute of a type. */
  function Data(items: seq<Item>, raw: nat): Option<seq<u8>>
  {
    if items == [] then None
    else
      var later := Data(items[1..], raw);
      if later.Some? then later else if items[0].raw == raw then Some(items[0].payload) else None
  }

  function Bytes(d: Option<seq<u8>>): seq<u8>
  {
    if d.Some? then d.value else []
  }

  /** A little-endian number, 0 if it is missing. */
  function Little(d: seq<u8>): nat
  {
    if d == [] then 0 else d[0] + 256 * Little(d[1..])
  }

  // ----- Requests -----

  /** An allowed IP: family 1, address 2, prefix length 3. */
  function IpOf(b: seq<u8>): AllowedIp
  {
    var items := Attributes(b);
    var address, cidr := Bytes(Data(items, 2)), Bytes(Data(items, 3));
    AllowedIp(Little(Bytes(Data(items, 1))), if |address| <= 16 then address + Zeros(16 - |address|) else address,
              if |cidr| == 1 then cidr[0] else 0)
  }

  function IpsOf(items: seq<Item>): seq<AllowedIp>
  {
    if items == [] then [] else [IpOf(items[0].payload)] + IpsOf(items[1..])
  }

  /** A peer: key 1, flags 3, allowed IPs in nest 9. Bit 0 of the flags removes the peer, bit 1 replaces
      its allowed IPs. */
  function ApplyPeer(s: State, b: seq<u8>, net: AllowedIp -> AllowedIp): State
  {
    var items := Attributes(b);
    var flags := Little(Bytes(Data(items, 3)));
    Request(s, flags % 2 == 1, flags / 2 % 2 == 1, Bytes(Data(items, 1)),
            IpsOf(Attributes(Bytes(Data(items, 0x8009)))), net)
  }

  function ApplyEach(s: State, items: seq<Item>, net: AllowedIp -> AllowedIp): State
    decreases |items|
  {
    if items == [] then s else ApplyEach(ApplyPeer(s, items[0].payload, net), items[1..], net)
  }

  /** A request: flags 5, whose bit 0 replaces all peers, and the peers in nest 8. */
  function ApplyBytes(s: State, b: seq<u8>, net: AllowedIp -> AllowedIp): State
  {
    var items := Attributes(b);
    ApplyEach(if Little(Bytes(Data(items, 5))) % 2 == 1 then EMPTY_STATE else s,
              Attributes(Bytes(Data(items, 0x8008))), net)
  }

  function ApplySent(s: State, sent: seq<seq<u8>>, net: AllowedIp -> AllowedIp): State
  {
    if sent == [] then s
    else ApplyBytes(ApplySent(s, sent[..|sent| - 1], net), sent[|sent| - 1], net)
  }

  // ----- The walker reads what the kernel reads -----

  lemma {:induction false} AttributesAreWalk(b: seq<u8>)
    ensures Attributes(b) == Walk(b)
    decreases |b|
  {
    hide Walk, Attributes, Field, Next, First, Align, FromLe16;
    WalkStep(b);
    AttributesStep(b);
    if |b| >= 4 {
      HeaderAgrees(b);
      if Ok(b) {
        StepAgrees(b);
        AttributesAreWalk(Next(b));
      }
    }
  }

  lemma HeaderAgrees(b: seq<u8>)
    requires |b| >= 4
    ensures Ok(b) <==> 4 <= Field(b, 0) <= |b|
    ensures Ok(b) ==> First(b) == Item(Field(b, 2), b[4..Field(b, 0)])
  {
  }

  lemma StepAgrees(b: seq<u8>)
    requires |b| >= 4 && Ok(b)
    ensures var len := Field(b, 0); var step := len + (if len % 4 == 0 then 0 else 4 - len % 4);
      Attributes(Next(b)) == if step < |b| then Attributes(b[step..]) else []
  {
    hide Attributes;
    Aligned(Field(b, 0));
    AttributesStep([]);
  }

  lemma Aligned(n: nat)
    ensures Align(n) == n + (if n % 4 == 0 then 0 else 4 - n % 4)
  {
  }

  lemma AttributesStep(b: seq<u8>)
    ensures Attributes(b) ==
      if |b| < 4 || Field(b, 0) < 4 || Field(b, 0) > |b| then []
      else
        var len := Field(b, 0);
        var step := len + (if len % 4 == 0 then 0 else 4 - len % 4);
        [Item(Field(b, 2), b[4..len])] + if step < |b| then Attributes(b[step..]) else []
  {
  }

  /** The attributes of a short encoding are those encoded. */
  lemma AttributesOf(attrs: seq<Attr>)
    requires |EncodeAll(attrs)| < 0x10000 && forall a :: a in attrs ==> Typed(a)
    ensures Attributes(EncodeAll(attrs)) == Raws(attrs)
  {
    hide Walk, Attributes, EncodeAll, Raws, Typed;
    AttributesAreWalk(EncodeAll(attrs));
    WalkSmall(attrs);
  }

  lemma {:induction false} DataConcat(a: seq<Item>, b: seq<Item>, raw: nat)
    ensures Data(a + b, raw) == if Data(b, raw).Some? then Data(b, raw) else Data(a, raw)
  {
    if a == [] {
      assert a + b == b;
    } else {
      assert (a + b)[1..] == a[1..] + b;
      DataConcat(a[1..], b, raw);
    }
  }

  /** What one more attribute, or none, makes of the data of a type. */
  lemma DataMore(attrs: seq<Attr>, part: seq<Attr>, raw: nat)
    requires |part| <= 1
    ensures Data(Raws(attrs + part), raw) ==
      if part != [] && Raw(part[0]).raw == raw then Some(Raw(part[0]).payload) else Data(Raws(attrs), raw)
  {
    hide Raw;
    RawsConcat(attrs, part);
    DataConcat(Raws(attrs), Raws(part), raw);
    if part != [] {
      assert Raws(part) == [Raw(part[0])] by { assert part[1..] == []; }
      assert Data([], raw) == None;
    }
  }

  lemma Little16(n: nat)
    requires n < 0x10000
    ensures Little(Le16(n)) == n
  {
    var b := Le16(n);
    assert b[1..][1..] == [];
    assert Little(b[1..]) == b[1];
  }

  lemma Little32(n: u32)
    ensures Little(Le32(n)) == n
  {
    hide Le16;
    Little16(n % 0x10000);
    Little16(n / 0x10000);
    LittleConcat(Le16(n % 0x10000), Le16(n / 0x10000));
  }

  lemma LittleConcat(a: seq<u8>, b: seq<u8>)
    requires |a| == 2
    ensures Little(a + b) == Little(a) + 0x10000 * Little(b)
  {
    var all := a + b;
    assert all[1..][1..] == b && a[1..][1..] == [];
    assert Little(all) == a[0] + 256 * Little(all[1..]) && Little(all[1..]) == a[1] + 256 * Little(b);
    assert Little(a) == a[0] + 256 * Little(a[1..]) && Little(a[1..]) == a[1];
  }

  // ----- One allowed IP -----

  lemma DataOfThree(a: Attr, b: Attr, c: Attr, raw: nat)
    requires Raw(a).raw == 1 && Raw(b).raw == 2 && Raw(c).raw == 3
    ensures Data(Raws([a, b, c]), 1) == Some(Raw(a).payload) && Data(Raws([a, b, c]), 2) == Some(Raw(b).payload)
    ensures Data(Raws([a, b, c]), 3) == Some(Raw(c).payload)
  {
    hide Raw;
    RawsThree(a, b, c);
    var x, y, z := Raw(a), Raw(b), Raw(c);
    assert [x, y, z][1..] == [y, z] && [y, z][1..] == [z] && [z][1..] == [];
    assert Data([z], 3) == Some(z.payload) && Data([z], 2) == None && Data([z], 1) == None;
    assert Data([y, z], 2) == Some(y.payload) && Data([y, z], 1) == None;
  }

  lemma IpArrives(ip: AllowedIp)
    requires ip.Valid() && Acceptable(ip)
    ensures IpOf(Raw(IpAttr(ip)).payload) == Normal(ip)
  {
    hide Attributes, Data, Raws, EncodeAll, Typed, Le16, Little;
    var f, a, c := Leaf(1, Le16(ip.family)), Address(ip)[0], Leaf(3, [ip.cidr]);
    IpSmall(ip);
    IpKidsTyped(ip);
    AttributesOf(IpAttr(ip).kids);
    assert IpAttr(ip).kids == [f, a, c];
    DataOfThree(f, a, c, 1);
    Little16(ip.family);
    assert |ip.ip| == 16 ==> ip.ip + Zeros(0) == ip.ip;
    assert Zeros(16)[4..] == Zeros(12);
  }

  lemma {:induction false} IpsArrive(ips: seq<AllowedIp>)
    requires AllAccepted(ips)
    ensures IpsOf(Raws(IpAttrs(ips))) == Normals(ips)
  {
    hide IpOf, IpAttr, Raw, Normal, Acceptable;
    if ips != [] {
      var ip, rest := ips[0], ips[1..];
      var items := Raws(IpAttrs(ips));
      assert IpAttrs(ips)[1..] == IpAttrs(rest);
      assert items == [Raw(IpAttr(ip))] + Raws(IpAttrs(rest)) && items[1..] == Raws(IpAttrs(rest));
      IpArrives(ip);
      IpsArrive(rest);
    }
  }

  // ----- One appearance of a peer -----

  /** What the settings of a peer say, by the numbers of the header: key 1, preshared key 2, flags 3,
      endpoint 4, keepalive 5. */
  ghost predicate Tells(items: seq<Item>, p: Peer, first: bool)
    requires p.Valid()
  {
    && Data(items, 1) == Some(p.key)
    && Data(items, 2) == (if first && p.hasPsk then Some(p.psk) else None)
    && Little(Bytes(Data(items, 3))) == (if p.removeMe then 1 else 0) + (if first && p.replaceIps then 2 else 0)
    && Data(items, 4) == (if first && Field(p.endpoint, 0) == 2 then Some(p.endpoint[..16])
                          else if first && Field(p.endpoint, 0) == 10 then Some(p.endpoint) else None)
    && (Data(items, 5).Some? <==> first && p.hasKeepalive)
    && (first && p.hasKeepalive ==> |Bytes(Data(items, 5))| == 2 && Little(Bytes(Data(items, 5))) == p.keepalive)
    && Data(items, 0x8009) == None
  }

  lemma HeadTells(p: Peer, first: bool)
    requires p.Valid()
    ensures Tells(Raws(Head(p, first)), p, first)
  {
    hide Data, Raws, Le16, Le32, Family, Little, FlagBits;
    var a0: seq<Attr>, a1 := [], [Leaf(1, p.key)];
    var a2 := if first then a1 + PskAttr(p) else a1;
    var a3 := if first then a2 + EndpointAttr(p) else a2;
    var a4 := if first then a3 + KeepaliveAttr(p) else a3;
    assert Head(p, first) == a4 + FlagsAttr(p, first) by { HeadParts(p, first); }
    forall raw ensures Data(Raws(a1), raw) == (if raw == 1 then Some(p.key) else None) { DataFirst(p.key, raw); }
    forall raw: nat ensures Data(Raws(a4), raw) ==
      if raw == 5 && first && p.hasKeepalive then Some(Le16(p.keepalive))
      else if raw == 4 && first && EndpointAttr(p) != [] then Some(EndpointAttr(p)[0].data)
      else if raw == 2 && first && p.hasPsk then Some(p.psk)
      else if raw == 1 then Some(p.key) else None
    {
      if first {
        DataMore(a1, PskAttr(p), raw);
        DataMore(a2, EndpointAttr(p), raw);
        DataMore(a3, KeepaliveAttr(p), raw);
      }
    }
    forall raw: nat ensures Data(Raws(Head(p, first)), raw) ==
      if raw == 3 && FlagBits(p, first) != 0 then Some(Le32(FlagBits(p, first))) else Data(Raws(a4), raw)
    {
      DataMore(a4, FlagsAttr(p, first), raw);
    }
    Little16(p.keepalive);
    FlagsTold(p, first);
    FamilyField(p.endpoint);
  }

  lemma FamilyField(endpoint: seq<u8>)
    requires |endpoint| == 28
    ensures Family(endpoint) == Field(endpoint, 0)
  {
  }

  lemma DataFirst(key: seq<u8>, raw: nat)
    ensures Data(Raws([Leaf(1, key)]), raw) == (if raw == 1 then Some(key) else None)
  {
    var a := [Leaf(1, key)];
    assert a[1..] == [];
    assert Raws(a) == [Item(1, key)] + [];
  }

  lemma HeadParts(p: Peer, first: bool)
    ensures Head(p, first) ==
      (if first then [Leaf(1, p.key)] + PskAttr(p) + EndpointAttr(p) + KeepaliveAttr(p) else [Leaf(1, p.key)])
      + FlagsAttr(p, first)
  {
    hide PskAttr, EndpointAttr, KeepaliveAttr, FlagsAttr;
    var k, a, b, c := [Leaf(1, p.key)], PskAttr(p), EndpointAttr(p), KeepaliveAttr(p);
    assert k + (a + b + c) == k + a + b + c;
    assert k + [] == k;
  }

  lemma FlagsTold(p: Peer, first: bool)
    ensures var n := FlagBits(p, first);
      && Little(Le32(n)) == n == (if p.removeMe then 1 else 0) + (if first && p.replaceIps then 2 else 0)
      && Little([]) == 0
  {
    hide Le32;
    Little32(FlagBits(p, first));
  }

  /** Masking reads only the member of the address union that the family names. */
  function Masking(net: AllowedIp -> AllowedIp): AllowedIp -> AllowedIp
  {
    ip => net(Normal(ip))
  }

  lemma {:induction false} GivenNormals(owner: map<AllowedIp, Key>, k: Key, ips: seq<AllowedIp>,
                                        net: AllowedIp -> AllowedIp)
    ensures Given(owner, k, Normals(ips), net) == Given(owner, k, ips, Masking(net))
    decreases |ips|
  {
    hide Normal;
    if ips != [] {
      var all := Normals(ips);
      assert all[0] == Normal(ips[0]) && all[1..] == Normals(ips[1..]);
      GivenNormals(owner[net(Normal(ips[0])) := k], k, ips[1..], net);
    }
  }

  lemma FragArrives(s: State, f: Frag, net: AllowedIp -> AllowedIp)
    requires Readable(f) && |Encode(FragAttr(f))| < 0x10000
    ensures ApplyPeer(s, Raw(FragAttr(f)).payload, net)
      == Request(s, f.peer.removeMe, f.first && f.peer.replaceIps, f.peer.key, f.ips, Masking(net))
  {
    hide Attributes, Data, Raws, Head, IpAttrs, EncodeAll, Typed, Normals, Given, Masking, IpsOf, Released, Little;
    var head, part, kids := Head(f.peer, f.first), IpsPart(f), FragAttr(f).kids;
    FragTyped(f);
    AttributesOf(kids);
    HeadTells(f.peer, f.first);
    var items := Raws(kids);
    forall raw: nat | raw < 0x8000 ensures Data(items, raw) == Data(Raws(head), raw) {
      DataMore(head, part, raw);
    }
    DataMore(head, part, 0x8009);
    assert IpsOf(Attributes(Bytes(Data(items, 0x8009)))) == Normals(f.ips) by { NestArrives(f, Data(items, 0x8009)); }
    GivenNormals(if f.first && f.peer.replaceIps then Released(s.owner, f.peer.key)
                 else s.owner, f.peer.key, f.ips, net);
  }

  lemma NestArrives(f: Frag, data: Option<seq<u8>>)
    requires Readable(f) && |Encode(FragAttr(f))| < 0x10000
    requires data == if f.nest then Some(EncodeAll(IpAttrs(f.ips))) else None
    ensures IpsOf(Attributes(Bytes(data))) == Normals(f.ips)
  {
    hide Attributes, EncodeAll, IpAttrs, Raws, Typed, Head, IpsOf, Normals;
    if f.nest {
      var head, part := Head(f.peer, f.first), IpsPart(f);
      EncodeConcat(head, part);
      EncodeOne(part[0]);
      IpAttrsTyped(f.ips);
      AttributesOf(IpAttrs(f.ips));
      IpsArrive(f.ips);
    } else {
      assert Normals([]) == [] by { NoNormals(); }
      NoAttributes();
    }
  }

  lemma NoAttributes()
    ensures Attributes([]) == [] && IpsOf([]) == []
  {
  }

  // ----- One message -----

  lemma {:induction false} PeersArrive(s: State, frags: seq<Frag>, net: AllowedIp -> AllowedIp)
    requires AllReadable(frags) && |EncodeAll(FragAttrs(frags))| < 0x10000
    ensures ApplyEach(s, Raws(FragAttrs(frags)), net) == ApplyFrags(s, frags, Masking(net))
    decreases |frags|
  {
    hide ApplyPeer, FragAttr, Raw, Encode, Readable, Request, Masking;
    if frags != [] {
      var f, rest := frags[0], frags[1..];
      var items := Raws(FragAttrs(frags));
      assert FragAttrs(frags)[1..] == FragAttrs(rest);
      assert items == [Raw(FragAttr(f))] + Raws(FragAttrs(rest)) && items[1..] == Raws(FragAttrs(rest));
      FragArrives(s, f, net);
      PeersArrive(ApplyPeer(s, Raw(FragAttr(f)).payload, net), rest, net);
    }
  }

  /** What the settings of the device say: name 2, private key 3, flags 5, port 6, mark 7. */
  ghost predicate TellsDevice(items: seq<Item>, dev: Device, first: bool)
  {
    && Data(items, 2) == Some(dev.name + [0])
    && Data(items, 3) == (if first && dev.hasPrivateKey then Some(dev.privateKey) else None)
    && Little(Bytes(Data(items, 5))) == (if first && dev.replacePeers then 1 else 0)
    && (Data(items, 6).Some? <==> first && dev.hasListenPort)
    && (first && dev.hasListenPort ==> |Bytes(Data(items, 6))| == 2 && Little(Bytes(Data(items, 6))) == dev.listenPort)
    && (Data(items, 7).Some? <==> first && dev.hasFwmark)
    && (first && dev.hasFwmark ==> |Bytes(Data(items, 7))| == 4 && Little(Bytes(Data(items, 7))) == dev.fwmark)
    && Data(items, 0x8008) == None
  }

  lemma PreambleTells(dev: Device, first: bool)
    requires dev.Valid()
    ensures TellsDevice(Raws(Preamble(dev, first)), dev, first)
  {
    hide Data, Raws, Le16, Le32, Little;
    var name := [Leaf(2, dev.name + [0])];
    var a1, a2, a3 := name + KeyPart(dev), name + KeyPart(dev) + PortPart(dev),
      name + KeyPart(dev) + PortPart(dev) + MarkPart(dev);
    PreambleParts(dev);
    forall raw: nat ensures Data(Raws(name), raw) == (if raw == 2 then Some(dev.name + [0]) else None) {
      DataName(dev.name + [0], raw);
    }
    forall raw: nat ensures Data(Raws(a3 + FlagPart(dev)), raw) ==
      if raw == 5 && dev.replacePeers then Some(Le32(1))
      else if raw == 7 && dev.hasFwmark then Some(Le32(dev.fwmark))
      else if raw == 6 && dev.hasListenPort then Some(Le16(dev.listenPort))
      else if raw == 3 && dev.hasPrivateKey then Some(dev.privateKey)
      else Data(Raws(name), raw)
    {
      DataMore(name, KeyPart(dev), raw);
      DataMore(a1, PortPart(dev), raw);
      DataMore(a2, MarkPart(dev), raw);
      DataMore(a3, FlagPart(dev), raw);
    }
    assert name + [] == name;
    Little16(dev.listenPort);
    Little32(dev.fwmark);
    Little32(1);
    assert Little([]) == 0 by { LittleNone(); }
  }

  lemma LittleNone()
    ensures Little([]) == 0
  {
  }

  lemma DataName(name: seq<u8>, raw: nat)
    ensures Data(Raws([Leaf(2, name)]), raw) == (if raw == 2 then Some(name) else None)
  {
    var a := [Leaf(2, name)];
    assert a[1..] == [];
    assert Raws(a) == [Item(2, name)] + [];
  }

  lemma MessageArrives(s: State, dev: Device, first: bool, frags: seq<Frag>, net: AllowedIp -> AllowedIp)
    requires dev.Valid() && AllReadable(frags) && (dev.peers == [] ==> frags == [])
    requires |EncodeAll(MessageAttrs(dev, first, frags))| < 0x10000
    ensures ApplyBytes(s, EncodeAll(MessageAttrs(dev, first, frags)), net)
      == ApplyFrags(if first && dev.replacePeers then EMPTY_STATE else s, frags, Masking(net))
  {
    hide Attributes, Data, Raws, EncodeAll, Encode, Typed, Preamble, FragAttrs, Readable, ApplyEach, ApplyFrags,
      Masking, Little;
    var pre, nest := Preamble(dev, first), Nest(8, FragAttrs(frags));
    var part := if dev.peers == [] then [] else [nest];
    PreambleTyped(dev, first);
    PreambleTells(dev, first);
    assert Typed(nest) by { NestTyped(frags); }
    AttributesOf(pre + part);
    DataMore(pre, part, 5);
    DataMore(pre, part, 0x8008);
    var s0 := if first && dev.replacePeers then EMPTY_STATE else s;
    if dev.peers == [] {
      assert Attributes([]) == [] by { NoAttributes(); }
      assert ApplyEach(s0, [], net) == s0 == ApplyFrags(s0, [], Masking(net)) by { NoneApplied(s0, net); }
    } else {
      EncodeAppend(pre, nest);
      assert |EncodeAll(FragAttrs(frags))| < 0x10000 by { NestSize(frags); }
      FragAttrsTyped(frags);
      AttributesOf(FragAttrs(frags));
      PeersArrive(s0, frags, net);
    }
  }

  lemma NoneApplied(s: State, net: AllowedIp -> AllowedIp)
    ensures ApplyEach(s, [], net) == s && ApplyFrags(s, [], Masking(net)) == s
  {
  }

  lemma NestSize(frags: seq<Frag>)
    ensures |EncodeAll(FragAttrs(frags))| <= |Encode(Nest(8, FragAttrs(frags)))|
  {
    hide EncodeAll, FragAttrs;
  }

  // ----- The whole device -----

  lemma {:induction false} SentAreMessages(s: State, dev: Device, sent: seq<seq<u8>>, messages: seq<seq<Frag>>,
                                           net: AllowedIp -> AllowedIp)
    requires dev.Valid() && Says(dev, true, sent, messages)
    requires forall k :: 0 <= k < |messages| ==> AllReadable(messages[k]) && (dev.peers == [] ==> messages[k] == [])
    ensures ApplySent(s, sent, net) == ApplyMessages(s, dev, messages, Masking(net))
  {
    hide ApplyBytes, ApplyFrags, MessageAttrs, EncodeAll, AllReadable, Masking, Flagged;
    if sent != [] {
      var n := |sent| - 1;
      SentAreMessages(s, dev, sent[..n], messages[..n], net);
      FlaggedFirst(dev, n == 0, messages[n]);
      MessageArrives(ApplySent(s, sent[..n], net), dev, n == 0, messages[n], net);
    }
  }

  /** However a device is cut into messages, the kernel that reads their bytes ends where the device given
      whole would leave it, from every state. */
  lemma SentApplies(s: State, dev: Device, sent: seq<seq<u8>>, messages: seq<seq<Frag>>, net: AllowedIp -> AllowedIp)
    requires dev.Valid() && Says(dev, true, sent, messages) && messages != []
    requires Covers(dev.peers, Pos(0, Null), Flatten(messages), Pos(|dev.peers|, Null))
    requires forall i :: 0 <= i < |dev.peers| ==> AllAccepted(dev.peers[i].ips)
    ensures ApplySent(s, sent, net) == ApplyDevice(s, dev.replacePeers, dev.peers, Masking(net))
  {
    hide Says, Covers, AllAccepted, ApplySent, ApplyMessages, ApplyDevice, Masking, Readable, Flatten;
    CoveredReadable(dev.peers, Pos(0, Null), Flatten(messages), Pos(|dev.peers|, Null));
    forall k | 0 <= k < |messages| ensures AllReadable(messages[k]) && (dev.peers == [] ==> messages[k] == []) {
      PartReadable(messages, k);
    }
    SentAreMessages(s, dev, sent, messages, net);
    MessagesApply(s, dev, messages, Masking(net));
  }

  /** Sends a device to a kernel that takes every message. */
  method SendDevice(dev: Device, size: nat, ghost s: State, ghost net: AllowedIp -> AllowedIp)
    returns (sent: seq<seq<u8>>)
    requires dev.Valid() && 4096 <= size <= 8192
    requires forall i :: 0 <= i < |dev.peers| ==> AllAccepted(dev.peers[i].ips)
    ensures ApplySent(s, sent, net) == ApplyDevice(s, dev.replacePeers, dev.peers, Masking(net))
  {
    hide Covers, AllAccepted, ApplySent, ApplyDevice, Masking, EncodeAll, MessageAttrs;
    var ok;
    ghost var messages, end;
    ok, sent, messages, end := KernelSetDevice(dev, size, _ => true);
    SentApplies(s, dev, sent, messages, net);
  }

  /** The elements of the list of peers, and of a list of allowed IPs, are nests of type 0. */
  lemma {:induction false} PeersNested(frags: seq<Frag>, item: Item)
    requires item in Raws(FragAttrs(frags))
    ensures item.raw == 0x8000
  {
    hide Head, EncodeAll;
    var all, rest := FragAttrs(frags), FragAttrs(frags[1..]);
    assert all[1..] == rest && Raws(all) == [Raw(all[0])] + Raws(rest);
    if item != Raw(all[0]) {
      PeersNested(frags[1..], item);
    }
  }

  lemma {:induction false} IpsNested(ips: seq<AllowedIp>, item: Item)
    requires item in Raws(IpAttrs(ips))
    ensures item.raw == 0x8000
  {
    hide EncodeAll;
    var all, rest := IpAttrs(ips), IpAttrs(ips[1..]);
    assert all[1..] == rest && Raws(all) == [Raw(all[0])] + Raws(rest);
    if item != Raw(all[0]) {
      IpsNested(ips[1..], item);
    }
  }

  /** A removal says the key and the flag to remove it, and nothing else. */
  lemma RemovalTells(k: seq<u8>)
    requires |k| == 32
    ensures SyncConf.Gone(k).Valid() && SyncConf.Gone(k).ips == []
    ensures Head(SyncConf.Gone(k), true) == [Leaf(1, k), Leaf(3, Le32(1))]
  {
    hide Le32, Head;
    var p := SyncConf.Gone(k);
    HeadParts(p, true);
    assert PskAttr(p) == [] && KeepaliveAttr(p) == [];
    assert EndpointAttr(p) == [] by { NoFamily(p); }
    assert FlagsAttr(p, true) == [Leaf(3, Le32(1))];
  }

  lemma NoFamily(p: Peer)
    requires p.endpoint == Zeros(28)
    ensures EndpointAttr(p) == []
  {
    ZerosAreZero(28, 0);
    ZerosAreZero(28, 1);
  }
}
