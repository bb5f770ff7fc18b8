/** Reading a device dump: the attribute callbacks, each filling one record from the attributes it
    is handed, ignoring any whose length is wrong. */
module GetDevice {
  import opened Bits
  import opened Tlv
  import opened WgDevice
  import opened PeerList

  function Type(item: Item): nat
  {
    item.raw % 0x4000
  }

  /** `d` copied over the start of a union. */
  function Copied(union: seq<u8>, d: seq<u8>): seq<u8>
  {
    if |d| <= |union| then d + union[|d|..] else d
  }

  // ----- Allowed IPs -----

  const BLANK_IP := AllowedIp(0, Zeros(16), 0)

  function IpField(ip: AllowedIp, item: Item): AllowedIp
  {
    var d := item.payload;
    if Type(item) == 1 && |d| == 2 then ip.(family := FromLe16(d[0], d[1]))
    else if Type(item) == 2 && (|d| == 4 || |d| == 16) then ip.(ip := Copied(ip.ip, d))
    else if Type(item) == 3 && |d| == 1 then ip.(cidr := d[0])
    else ip
  }

  function IpFields(ip: AllowedIp, items: seq<Item>): AllowedIp
    decreases |items|
  {
    if items == [] then ip else IpFields(IpField(ip, items[0]), items[1..])
  }

  predicate Accepted(ip: AllowedIp)
  {
    (ip.family == AF_INET && ip.cidr <= 32) || (ip.family == AF_INET6 && ip.cidr <= 128)
  }

  /** Appends one allowed IP per attribute, until one is not acceptable. */
  function ReadIps(e: Entry, items: seq<Item>): (Entry, bool)
    decreases |items|
  {
    if items == [] then (e, true)
    else
      var ip := IpFields(BLANK_IP, Walk(items[0].payload));
      var next := Entry(e.info, e.ips + [ip], true);
      if Accepted(ip) then ReadIps(next, items[1..]) else (next, false)
  }

  // ----- Peers -----

  const BLANK := Entry(Info(false, Zeros(32), false, Zeros(32), Zeros(28), 0), [], false)

  predicate IsZero(key: seq<u8>)
  {
    forall i :: 0 <= i < |key| ==> key[i] == 0
  }

  function Endpoint(was: seq<u8>, d: seq<u8>): seq<u8>
  {
    if |d| < 16 then was
    else
      var family := FromLe16(d[0], d[1]);
      if (family == AF_INET && |d| == 16) || (family == AF_INET6 && |d| == 28) then Copied(was, d) else was
  }

  function InfoField(i: Info, item: Item): Info
  {
    var d := item.payload;
    if Type(item) == 1 && |d| == 32 then i.(key := d, hasKey := true)
    else if Type(item) == 2 && |d| == 32 then i.(psk := d, hasPsk := i.hasPsk || !IsZero(d))
    else if Type(item) == 4 then i.(endpoint := Endpoint(i.endpoint, d))
    else if Type(item) == 5 && |d| == 2 then i.(keepalive := FromLe16(d[0], d[1]))
    else i
  }

  /** One peer attribute; the second result is false when parsing must stop. */
  function PeerField(e: Entry, item: Item): (Entry, bool)
  {
    if Type(item) == 9 then ReadIps(e, Walk(item.payload))
    else (e.(info := InfoField(e.info, item)), true)
  }

  function PeerFields(e: Entry, items: seq<Item>): (Entry, bool)
    decreases |items|
  {
    if items == [] then (e, true)
    else
      var (next, ok) := PeerField(e, items[0]);
      if ok then PeerFields(next, items[1..]) else (next, false)
  }

  /** Appends one entry per attribute. A peer whose allowed IPs were refused is kept as far as it
      was read; only one without a key ends the reading. */
  function ReadPeers(list: seq<Entry>, items: seq<Item>): (seq<Entry>, bool)
    decreases |items|
  {
    if items == [] then (list, true)
    else
      var e := PeerFields(BLANK, Walk(items[0].payload)).0;
      if e.info.hasKey then ReadPeers(list + [e], items[1..]) else (list + [e], false)
  }

  // ----- The device -----

  datatype Dump = Dump(hasPrivateKey: bool, privateKey: seq<u8>, listenPort: nat, fwmark: nat, peers: seq<Entry>)

  function FromLe32(d: seq<u8>): nat
    requires |d| == 4
  {
    FromLe16(d[0], d[1]) + 0x10000 * FromLe16(d[2], d[3])
  }

  function DeviceField(d: Dump, item: Item): (Dump, bool)
  {
    var p := item.payload;
    if Type(item) == 8 then
      var (peers, ok) := ReadPeers(d.peers, Walk(p));
      (d.(peers := peers), ok)
    else if Type(item) == 3 && |p| == 32 then (d.(privateKey := p, hasPrivateKey := true), true)
    else if Type(item) == 6 && |p| == 2 then (d.(listenPort := FromLe16(p[0], p[1])), true)
    else if Type(item) == 7 && |p| == 4 then (d.(fwmark := FromLe32(p)), true)
    else (d, true)
  }

  function DeviceFields(d: Dump, items: seq<Item>): (Dump, bool)
    decreases |items|
  {
    if items == [] then (d, true)
    else
      var (next, ok) := DeviceField(d, items[0]);
      if ok then DeviceFields(next, items[1..]) else (next, false)
  }

  function ReadMessage(d: Dump, message: seq<u8>): (Dump, bool)
  {
    DeviceFields(d, Walk(message))
  }

  function ReadAll(d: Dump, messages: seq<seq<u8>>): (Dump, bool)
    decreases |messages|
  {
    if messages == [] then (d, true)
    else
      var (next, ok) := ReadMessage(d, messages[0]);
      if ok then ReadAll(next, messages[1..]) else (next, false)
  }

  // ----- What is refused and what is passed over -----

  /** An allowed IP is refused unless it is IPv4 with a prefix length of at most 32, or IPv6 with one of at
      most 128; the reading ends with the one refused. */
  lemma RefusesIp(e: Entry, items: seq<Item>)
    requires items != []
    ensures var ip := IpFields(BLANK_IP, Walk(items[0].payload)); var next := Entry(e.info, e.ips + [ip], true);
      ReadIps(e, items) ==
        if (ip.family == 2 && ip.cidr <= 32) || (ip.family == 10 && ip.cidr <= 128) then ReadIps(next, items[1..])
        else (next, false)
  {
    hide Walk, IpFields;
  }

  /** A preshared key counts as one if and only if some byte of it is not 0. */
  lemma SomeByteSet(i: Info, item: Item)
    requires item.raw == 2 && |item.payload| == 32 && !i.hasPsk
    ensures InfoField(i, item).hasPsk <==> exists j :: 0 <= j < 32 && item.payload[j] != 0
  {
    NotZero(item.payload);
  }

  lemma NotZero(key: seq<u8>)
    ensures !IsZero(key) <==> exists i :: 0 <= i < |key| && key[i] != 0
  {
  }

  /** An attribute of a peer whose length is wrong, or whose type is unknown, changes nothing. */
  lemma PassedOver(i: Info, item: Item)
    requires item.raw == 1 || item.raw == 2 ==> |item.payload| != 32
    requires var d := item.payload; item.raw == 4 ==>
      !(|d| == 16 && d[0] == 2 && d[1] == 0) && !(|d| == 28 && d[0] == 10 && d[1] == 0)
    requires item.raw == 5 ==> |item.payload| != 2
    requires item.raw < 0x4000
    ensures InfoField(i, item) == i
  {
  }

  /** So with the attributes of an allowed IP. */
  lemma IpPassedOver(ip: AllowedIp, item: Item)
    requires item.raw == 1 ==> |item.payload| != 2
    requires item.raw == 2 ==> |item.payload| != 4 && |item.payload| != 16
    requires item.raw == 3 ==> |item.payload| != 1
    requires item.raw < 0x4000
    ensures IpField(ip, item) == ip
  {
  }

  /** And with those of the device. */
  lemma DevicePassedOver(d: Dump, item: Item)
    requires item.raw == 3 ==> |item.payload| != 32
    requires item.raw == 6 ==> |item.payload| != 2
    requires item.raw == 7 ==> |item.payload| != 4
    requires item.raw < 0x4000 && item.raw != 8
    ensures DeviceField(d, item) == (d, true)
  {
    hide Walk, ReadPeers;
  }

  /** A peer without a key ends the reading. */
  lemma KeylessEnds(list: seq<Entry>, items: seq<Item>)
    requires items != [] && !PeerFields(BLANK, Walk(items[0].payload)).0.info.hasKey
    ensures ReadPeers(list, items) == (list + [PeerFields(BLANK, Walk(items[0].payload)).0], false)
  {
    hide Walk, PeerFields;
  }

  /** The reading ends, refused, with the first message that is refused. */
  lemma {:induction false} RefusedEnds(d: Dump, before: seq<seq<u8>>, message: seq<u8>, after: seq<seq<u8>>)
    requires ReadAll(d, before).1 && !ReadMessage(ReadAll(d, before).0, message).1
    ensures ReadAll(d, before + [message] + after) == (ReadMessage(ReadAll(d, before).0, message).0, false)
    decreases |before|
  {
    hide ReadMessage;
    var all := before + [message] + after;
    if before == [] {
      assert all[0] == message;
    } else {
      assert all[0] == before[0] && all[1..] == before[1..] + [message] + after;
      RefusedEnds(ReadMessage(d, before[0]).0, before[1..], message, after);
    }
  }

  // ----- The tails -----

  lemma {:induction false} IpsFresh(e: Entry, items: seq<Item>)
    requires e.tail <==> e.ips != []
    ensures var r := ReadIps(e, items).0; r.tail <==> r.ips != []
    decreases |items|
  {
    hide IpFields, Walk, Accepted;
    if items != [] {
      var ip := IpFields(BLANK_IP, Walk(items[0].payload));
      IpsFresh(Entry(e.info, e.ips + [ip], true), items[1..]);
    }
  }

  lemma {:induction false} PeerFresh(e: Entry, items: seq<Item>)
    requires e.tail <==> e.ips != []
    ensures var r := PeerFields(e, items).0; r.tail <==> r.ips != []
    decreases |items|
  {
    hide ReadIps, Walk, InfoField;
    if items != [] {
      IpsFresh(e, Walk(items[0].payload));
      PeerFresh(PeerField(e, items[0]).0, items[1..]);
    }
  }

  lemma {:induction false} PeersFresh(list: seq<Entry>, items: seq<Item>)
    requires Fresh(list)
    ensures Fresh(ReadPeers(list, items).0)
    decreases |items|
  {
    hide PeerFields, Walk;
    if items != [] {
      PeerFresh(BLANK, Walk(items[0].payload));
      PeersFresh(list + [PeerFields(BLANK, Walk(items[0].payload)).0], items[1..]);
    }
  }

  lemma {:induction false} FieldsFresh(d: Dump, items: seq<Item>)
    requires Fresh(d.peers)
    ensures Fresh(DeviceFields(d, items).0.peers)
    decreases |items|
  {
    hide ReadPeers, Walk, Fresh, FromLe32;
    if items != [] {
      PeersFresh(d.peers, Walk(items[0].payload));
      FieldsFresh(DeviceField(d, items[0]).0, items[1..]);
    }
  }

  /** Whatever bytes come, the reader's tails are null exactly where its lists are empty. */
  lemma {:induction false} ReadFresh(d: Dump, messages: seq<seq<u8>>)
    requires Fresh(d.peers)
    ensures Fresh(ReadAll(d, messages).0.peers)
    decreases |messages|
  {
    hide DeviceFields, Walk, Fresh;
    if messages != [] {
      FieldsFresh(d, Walk(messages[0]));
      ReadFresh(ReadMessage(d, messages[0]).0, messages[1..]);
    }
  }
}
