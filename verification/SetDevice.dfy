/** Sending a device configuration to the kernel: an unbounded list of peers, each with an unbounded
    list of allowed IPs, cut into messages that each fit the socket buffer. */
module SetDevice {
  import opened Bits
  import opened Tlv
  import opened Netlink
  import opened WgDevice

  // ----- What the messages say -----

  function Le32(n: u32): (b: seq<u8>)
    ensures |b| == 4
  {
    Le16(n % 0x10000) + Le16(n / 0x10000)
  }

  /** The first `n` bytes of a union. */
  function Member(union: seq<u8>, n: nat): (r: seq<u8>)
    ensures |union| >= n ==> |r| == n
  {
    if |union| >= n then union[..n] else union
  }

  /** The address family a socket address starts with. */
  function Family(endpoint: seq<u8>): nat
  {
    if |endpoint| >= 2 then FromLe16(endpoint[0], endpoint[1]) else 0
  }

  function Address(ip: AllowedIp): (r: seq<Attr>)
  {
    if ip.family == AF_INET then [Leaf(2, Member(ip.ip, 4))]
    else if ip.family == AF_INET6 then [Leaf(2, ip.ip)]
    else []
  }

  function IpAttr(ip: AllowedIp): Attr
  {
    Nest(0, [Leaf(1, Le16(ip.family))] + Address(ip) + [Leaf(3, [ip.cidr])])
  }

  function IpAttrs(ips: seq<AllowedIp>): seq<Attr>
  {
    if ips == [] then [] else [IpAttr(ips[0])] + IpAttrs(ips[1..])
  }

  function PskAttr(p: Peer): seq<Attr>
  {
    if p.hasPsk then [Leaf(2, p.psk)] else []
  }

  function EndpointAttr(p: Peer): seq<Attr>
  {
    if Family(p.endpoint) == AF_INET then [Leaf(4, Member(p.endpoint, 16))]
    else if Family(p.endpoint) == AF_INET6 then [Leaf(4, p.endpoint)]
    else []
  }

  function KeepaliveAttr(p: Peer): seq<Attr>
  {
    if p.hasKeepalive then [Leaf(5, Le16(p.keepalive))] else []
  }

  function FlagBits(p: Peer, first: bool): u32
  {
    (if p.removeMe then 1 else 0) + (if first && p.replaceIps then 2 else 0)
  }

  function FlagsAttr(p: Peer, first: bool): seq<Attr>
  {
    if FlagBits(p, first) != 0 then [Leaf(3, Le32(FlagBits(p, first)))] else []
  }

  /** What a fragment says about a peer besides its allowed IPs. */
  function Head(p: Peer, first: bool): seq<Attr>
  {
    [Leaf(1, p.key)]
    + (if first then PskAttr(p) + EndpointAttr(p) + KeepaliveAttr(p) else [])
    + FlagsAttr(p, first)
  }

  /** One appearance of a peer in a message: its first, or one that only adds allowed IPs. */
  datatype Frag = Frag(peer: Peer, first: bool, nest: bool, ips: seq<AllowedIp>) {
    ghost predicate Valid() {
      peer.Valid() && (forall i :: 0 <= i < |ips| ==> ips[i].Valid()) && (!nest ==> ips == [])
    }
  }

  function FragAttr(f: Frag): Attr
  {
    Nest(0, Head(f.peer, f.first) + if f.nest then [Nest(9, IpAttrs(f.ips))] else [])
  }

  function FragAttrs(frags: seq<Frag>): seq<Attr>
  {
    if frags == [] then [] else [FragAttr(frags[0])] + FragAttrs(frags[1..])
  }

  /** The device's own settings. */
  function DeviceAttrs(dev: Device): seq<Attr>
  {
    (if dev.hasPrivateKey then [Leaf(3, dev.privateKey)] else [])
    + (if dev.hasListenPort then [Leaf(6, Le16(dev.listenPort))] else [])
    + (if dev.hasFwmark then [Leaf(7, Le32(dev.fwmark))] else [])
    + (if dev.replacePeers then [Leaf(5, Le32(1))] else [])
  }

  /** Everything before the peers. */
  function Preamble(dev: Device, first: bool): seq<Attr>
  {
    [Leaf(2, dev.name + [0])] + if first then DeviceAttrs(dev) else []
  }

  function MessageAttrs(dev: Device, first: bool, frags: seq<Frag>): seq<Attr>
  {
    Preamble(dev, first) + if dev.peers == [] then [] else [Nest(8, FragAttrs(frags))]
  }

  // ----- What a correct split is -----

  datatype Cursor = Null | At(n: nat)

  /** How much has been sent: the peers before `peer`, and of that peer the head and the allowed
      IPs before `ip` unless `ip` is null. */
  datatype Pos = Pos(peer: nat, ip: Cursor)

  function From(ip: Cursor): nat
  {
    if ip.Null? then 0 else ip.n
  }

  ghost predicate Within(peers: seq<Peer>, pos: Pos)
  {
    pos.peer <= |peers| && (pos.ip.At? ==> pos.peer < |peers| && pos.ip.n < |peers[pos.peer].ips|)
  }

  /** Whether `f` is a right next thing to send: the settings exactly once, then allowed IPs in
      order, never an appearance that only repeats the key. */
  ghost predicate Follows(peers: seq<Peer>, pos: Pos, f: Frag)
    requires Within(peers, pos)
  {
    && pos.peer < |peers|
    && f.peer == peers[pos.peer]
    && f.first == pos.ip.Null?
    && (!f.nest ==> f.ips == [])
    && (pos.ip.At? ==> |f.ips| > 0)
    && var start := From(pos.ip);
      start + |f.ips| <= |f.peer.ips| && f.ips == f.peer.ips[start..start + |f.ips|]
  }

  ghost function After(peers: seq<Peer>, pos: Pos, f: Frag): (r: Pos)
    requires Within(peers, pos) && Follows(peers, pos, f)
    ensures Within(peers, r)
  {
    var next := From(pos.ip) + |f.ips|;
    if next == |f.peer.ips| then Pos(pos.peer + 1, Null) else Pos(pos.peer, At(next))
  }

  /** Whether sending `frags` takes what has been sent from `pos` to `end`. */
  ghost predicate Covers(peers: seq<Peer>, pos: Pos, frags: seq<Frag>, end: Pos)
    requires Within(peers, pos)
    decreases |frags|
  {
    if frags == [] then pos == end
    else Follows(peers, pos, frags[0]) && Covers(peers, After(peers, pos, frags[0]), frags[1..], end)
  }

  lemma {:induction false} CoversAppend(peers: seq<Peer>, pos: Pos, frags: seq<Frag>, mid: Pos, f: Frag)
    requires Within(peers, pos) && Within(peers, mid) && Covers(peers, pos, frags, mid) && Follows(peers, mid, f)
    ensures Covers(peers, pos, frags + [f], After(peers, mid, f))
    decreases |frags|
  {
    hide Follows, After;
    var all := frags + [f];
    if frags == [] {
      assert all == [f] && all[1..] == [];
    } else {
      assert all[0] == frags[0] && all[1..] == frags[1..] + [f];
      CoversAppend(peers, After(peers, pos, frags[0]), frags[1..], mid, f);
    }
  }

  lemma {:induction false} CoversConcat(peers: seq<Peer>, pos: Pos, x: seq<Frag>, mid: Pos, y: seq<Frag>, end: Pos)
    requires Within(peers, pos) && Within(peers, mid) && Covers(peers, pos, x, mid) && Covers(peers, mid, y, end)
    ensures Covers(peers, pos, x + y, end)
    decreases |x|
  {
    hide Follows, After;
    if x == [] {
      assert x + y == y;
    } else {
      assert (x + y)[0] == x[0] && (x + y)[1..] == x[1..] + y;
      CoversConcat(peers, After(peers, pos, x[0]), x[1..], mid, y, end);
    }
  }

  /** The termination order: peers left, head unsent, allowed IPs left. */
  ghost predicate Less(peers: seq<Peer>, a: Pos, b: Pos)
    requires Within(peers, a) && Within(peers, b)
  {
    || a.peer > b.peer
    || (a.peer == b.peer && a.ip.At? && b.ip.Null?)
    || (a.peer == b.peer && a.ip.At? && b.ip.At? && a.ip.n > b.ip.n)
  }

  /** Sending anything makes progress. */
  lemma {:induction false} CoversProgress(peers: seq<Peer>, pos: Pos, frags: seq<Frag>, end: Pos)
    requires Within(peers, pos) && Within(peers, end) && Covers(peers, pos, frags, end) && frags != []
    ensures Less(peers, end, pos)
    decreases |frags|
  {
    var next := After(peers, pos, frags[0]);
    assert Less(peers, next, pos);
    if |frags| > 1 {
      CoversProgress(peers, next, frags[1..], end);
    }
  }

  // ----- Putting attributes into an open nest -----

  /** The nest of type `typ` begun after `before` holds `done`. */
  ghost predicate Holds(bytes: seq<u8>, before: seq<u8>, typ: nat, done: seq<Attr>)
  {
    Opened(bytes, before, typ, EncodeAll(done))
  }

  lemma HoldsMore(bytes: seq<u8>, before: seq<u8>, typ: nat, done: seq<Attr>, a: Attr)
    requires Holds(bytes, before, typ, done)
    ensures Holds(bytes + Encode(a), before, typ, done + [a])
  {
    hide Opened, EncodeAll, Encode;
    OpenedAppend(bytes, before, typ, EncodeAll(done), Encode(a));
    EncodeAppend(done, a);
  }

  lemma LeafSize(typ: nat, data: seq<u8>)
    ensures Encode(Leaf(typ, data)) == ItemBytes(typ, data)
    ensures |Encode(Leaf(typ, data))| == 4 + Align(|data|)
  {
  }

  lemma FieldSizes()
    ensures Align(1) == 4 && Align(2) == 4 && Align(4) == 4 && Align(16) == 16 && Align(28) == 28 && Align(32) == 32
  {
  }

  method PutIn(m: Message, a: Attr, ghost before: seq<u8>, ghost typ: nat, ghost done: seq<Attr>) returns (ok: bool)
    requires m.Valid() && a.Leaf? && Holds(m.Attrs(), before, typ, done)
    modifies m`len, m.buf
    ensures m.Valid() && ok == (old(m.len) + 4 + Align(|a.data|) <= m.buf.Length)
    ensures ok ==> m.len == old(m.len) + 4 + Align(|a.data|)
    ensures Holds(m.Attrs(), before, typ, if ok then done + [a] else done)
  {
    hide Holds, Encode, ItemBytes, Align;
    ghost var bytes := m.Attrs();
    ok := m.PutCheck(a.typ, a.data);
    LeafSize(a.typ, a.data);
    if ok {
      HoldsMore(bytes, before, typ, done, a);
    }
  }

  method EndNest(m: Message, start: nat, ghost before: seq<u8>, ghost typ: nat, ghost done: seq<Attr>)
    requires m.Valid() && start == HEADER + |before| && Holds(m.Attrs(), before, typ, done)
    modifies m.buf
    ensures m.Valid() && m.Attrs() == before + Encode(Nest(typ, done))
  {
    hide Opened, EncodeAll, ItemBytes;
    EncodedAligned(done);
    m.NestEnd(start, before, typ, EncodeAll(done));
  }

  method CancelNest(m: Message, start: nat, ghost before: seq<u8>, ghost typ: nat, ghost done: seq<Attr>)
    requires m.Valid() && start == HEADER + |before| && Holds(m.Attrs(), before, typ, done)
    modifies m`len
    ensures m.Valid() && m.Attrs() == before
  {
    hide Opened, EncodeAll;
    EncodedAligned(done);
    m.NestCancel(start, before, typ, EncodeAll(done));
  }

  // ----- One allowed IP -----

  method PutIpFields(m: Message, ip: AllowedIp, ghost before: seq<u8>) returns (ok: bool, ghost done: seq<Attr>)
    requires m.Valid() && ip.Valid() && Holds(m.Attrs(), before, 0, [])
    modifies m`len, m.buf
    ensures m.Valid() && Holds(m.Attrs(), before, 0, done)
    ensures ok ==> Nest(0, done) == IpAttr(ip)
    ensures old(m.len) + 36 <= m.buf.Length ==> ok
  {
    hide Holds, Le16, Member, Align;
    FieldSizes();
    done := [];
    ok := PutIn(m, Leaf(1, Le16(ip.family)), before, 0, done);
    if !ok { return; }
    done := done + [Leaf(1, Le16(ip.family))];
    if ip.family == AF_INET {
      ok := PutIn(m, Leaf(2, Member(ip.ip, 4)), before, 0, done);
    } else if ip.family == AF_INET6 {
      ok := PutIn(m, Leaf(2, ip.ip), before, 0, done);
    }
    if !ok { return; }
    assert done + [] == done;
    done := done + Address(ip);
    ok := PutIn(m, Leaf(3, [ip.cidr]), before, 0, done);
    if !ok { return; }
    done := done + [Leaf(3, [ip.cidr])];
  }

  /** Appends one allowed IP, or leaves the message as it was. */
  method PutIp(m: Message, ip: AllowedIp) returns (ok: bool)
    requires m.Valid() && ip.Valid()
    modifies m`len, m.buf
    ensures m.Valid()
    ensures m.Attrs() == if ok then old(m.Attrs()) + Encode(IpAttr(ip)) else old(m.Attrs())
    ensures old(m.len) + 40 <= m.buf.Length ==> ok
  {
    hide Encode, IpAttr;
    ghost var before := m.Attrs();
    var start;
    ok, start := m.NestStartCheck(0);
    if !ok { return; }
    assert Holds(m.Attrs(), before, 0, []);
    ghost var done;
    ok, done := PutIpFields(m, ip, before);
    if ok {
      EndNest(m, start, before, 0, done);
    } else {
      CancelNest(m, start, before, 0, done);
    }
  }

  // ----- One peer -----

  method PutFirstFields(m: Message, p: Peer, ghost before: seq<u8>) returns (ok: bool, ghost done: seq<Attr>)
    requires m.Valid() && p.Valid() && Holds(m.Attrs(), before, 0, [Leaf(1, p.key)])
    modifies m`len, m.buf
    ensures m.Valid() && Holds(m.Attrs(), before, 0, done)
    ensures ok ==> done == [Leaf(1, p.key)] + (PskAttr(p) + EndpointAttr(p) + KeepaliveAttr(p))
    ensures ok ==> m.len <= old(m.len) + 76
    ensures old(m.len) + 76 <= m.buf.Length ==> ok
  {
    hide Holds, Le16, Family, Member, Align;
    FieldSizes();
    ok, done := true, [Leaf(1, p.key)];
    if p.hasPsk {
      ok := PutIn(m, Leaf(2, p.psk), before, 0, done);
      if !ok { return; }
    }
    assert done + [] == done;
    done := done + PskAttr(p);
    if Family(p.endpoint) == AF_INET {
      ok := PutIn(m, Leaf(4, Member(p.endpoint, 16)), before, 0, done);
    } else if Family(p.endpoint) == AF_INET6 {
      ok := PutIn(m, Leaf(4, p.endpoint), before, 0, done);
    }
    if !ok { return; }
    assert done + [] == done;
    done := done + EndpointAttr(p);
    if p.hasKeepalive {
      ok := PutIn(m, Leaf(5, Le16(p.keepalive)), before, 0, done);
      if !ok { return; }
    }
    assert done + [] == done;
    done := done + KeepaliveAttr(p);
  }

  method PutHeadFields(m: Message, p: Peer, first: bool, ghost before: seq<u8>)
    returns (ok: bool, ghost done: seq<Attr>)
    requires m.Valid() && p.Valid() && Holds(m.Attrs(), before, 0, [])
    modifies m`len, m.buf
    ensures m.Valid() && Holds(m.Attrs(), before, 0, done)
    ensures ok ==> done == Head(p, first) && m.len <= old(m.len) + if first then 120 else 44
    ensures old(m.len) + (if first then 120 else 44) <= m.buf.Length ==> ok
  {
    hide Holds, Le16, Le32, PskAttr, EndpointAttr, KeepaliveAttr, Align;
    FieldSizes();
    done := [];
    ok := PutIn(m, Leaf(1, p.key), before, 0, done);
    if !ok { return; }
    assert done + [Leaf(1, p.key)] == [Leaf(1, p.key)];
    done := [Leaf(1, p.key)];
    var flags: u32 := 0;
    if p.removeMe {
      flags := flags + 1;
    }
    if first {
      if p.replaceIps {
        flags := flags + 2;
      }
      ok, done := PutFirstFields(m, p, before);
      if !ok { return; }
    }
    if flags != 0 {
      ok := PutIn(m, Leaf(3, Le32(flags)), before, 0, done);
      if !ok { return; }
    }
    assert done + [] == done;
    done := done + FlagsAttr(p, first);
  }

  lemma {:induction false} IpAttrsAppend(ips: seq<AllowedIp>, ip: AllowedIp)
    ensures IpAttrs(ips + [ip]) == IpAttrs(ips) + [IpAttr(ip)]
  {
    hide IpAttr;
    if ips == [] {
      assert ips + [ip] == [ip];
    } else {
      assert (ips + [ip])[1..] == ips[1..] + [ip];
      IpAttrsAppend(ips[1..], ip);
    }
  }

  /** Appends allowed IPs from position `at` until all are in or one does not fit. */
  method PutIps(m: Message, ips: seq<AllowedIp>, from: nat, ghost before: seq<u8>) returns (at: nat)
    requires m.Valid() && from <= |ips| && (forall i :: 0 <= i < |ips| ==> ips[i].Valid())
    requires Holds(m.Attrs(), before, 9, [])
    modifies m`len, m.buf
    ensures m.Valid() && from <= at <= |ips|
    ensures Holds(m.Attrs(), before, 9, IpAttrs(ips[from..at]))
    ensures from < |ips| && old(m.len) + 40 <= m.buf.Length ==> from < at
  {
    hide Holds, IpAttr, IpAttrs, Encode;
    at := from;
    assert ips[from..at] == [] && IpAttrs([]) == [] by { NoIps(); }
    while at < |ips|
      invariant m.Valid() && from <= at <= |ips|
      invariant Holds(m.Attrs(), before, 9, IpAttrs(ips[from..at]))
      invariant at == from ==> m.len == old(m.len)
    {
      ghost var bytes, done, ip := m.Attrs(), ips[from..at], ips[at];
      var ok := PutIp(m, ips[at]);
      if !ok { return; }
      HoldsMore(bytes, before, 9, IpAttrs(done), IpAttr(ip));
      IpAttrsAppend(done, ip);
      assert ips[from..at + 1] == done + [ip];
      at := at + 1;
    }
  }

  lemma NoIps()
    ensures IpAttrs([]) == []
  {
  }

  datatype Outcome = Complete | IpsFull | PeerFull

  /** Appends one appearance of a peer: all of it, as much as fits, or nothing. */
  method PutPeer(m: Message, p: Peer, ip: Cursor) returns (out: Outcome, next: Cursor, ghost f: Frag)
    requires m.Valid() && p.Valid() && (ip.At? ==> ip.n < |p.ips|)
    modifies m`len, m.buf
    ensures m.Valid()
    ensures out.PeerFull? ==> next == ip && m.Attrs() == old(m.Attrs())
    ensures !out.PeerFull? ==> m.Attrs() == old(m.Attrs()) + Encode(FragAttr(f))
    ensures !out.PeerFull? ==> f.peer == p && f.first == ip.Null? && (!f.nest ==> f.ips == [])
    ensures out.Complete? ==> next == Null && f.ips == p.ips[From(ip)..]
    ensures out.IpsFull? ==> next.At? && From(ip) <= next.n < |p.ips| && f.ips == p.ips[From(ip)..next.n]
    ensures old(m.len) + 168 <= m.buf.Length ==> !out.PeerFull? && (ip.At? ==> |f.ips| > 0)
  {
    hide Holds, Head, IpAttrs, Encode;
    f := Frag(p, ip.Null?, false, []);
    next := ip;
    ghost var before := m.Attrs();
    var ok, start := m.NestStartCheck(0);
    if !ok {
      return PeerFull, next, f;
    }
    assert Holds(m.Attrs(), before, 0, []) by { OpenedHolds(m.Attrs(), before, 0); }
    ghost var head;
    ok, head := PutHeadFields(m, p, ip.Null?, before);
    if !ok {
      CancelNest(m, start, before, 0, head);
      return PeerFull, next, f;
    }
    assert head + [] == head;
    if p.ips == [] {
      EndNest(m, start, before, 0, head);
      return Complete, Null, f;
    }
    next := if ip.Null? then At(0) else ip;
    var at, began;
    began, at := PutIpsNest(m, p.ips, next.n, before, head);
    if !began {
      EndNest(m, start, before, 0, head);
      return IpsFull, next, f;
    }
    f := Frag(p, ip.Null?, true, p.ips[next.n..at]);
    EndNest(m, start, before, 0, head + [Nest(9, IpAttrs(f.ips))]);
    out, next := if at == |p.ips| then Complete else IpsFull, if at == |p.ips| then Null else At(at);
  }

  lemma OpenedHolds(bytes: seq<u8>, before: seq<u8>, typ: nat)
    requires Opened(bytes, before, typ, [])
    ensures Holds(bytes, before, typ, [])
  {
  }

  /** The allowed-IP list of a peer, inside the peer's open nest. */
  method PutIpsNest(m: Message, ips: seq<AllowedIp>, from: nat, ghost before: seq<u8>, ghost head: seq<Attr>)
    returns (began: bool, at: nat)
    requires m.Valid() && from < |ips| && (forall i :: 0 <= i < |ips| ==> ips[i].Valid())
    requires Holds(m.Attrs(), before, 0, head)
    modifies m`len, m.buf
    ensures m.Valid()
    ensures !began ==> Holds(m.Attrs(), before, 0, head)
    ensures began ==> from <= at <= |ips| && Holds(m.Attrs(), before, 0, head + [Nest(9, IpAttrs(ips[from..at]))])
    ensures old(m.len) + 44 <= m.buf.Length ==> began && from < at
  {
    hide Holds, IpAttrs, Encode;
    ghost var inner := m.Attrs();
    var start;
    began, start := m.NestStartCheck(9);
    at := from;
    if began {
      OpenedHolds(m.Attrs(), inner, 9);
      at := PutIps(m, ips, from, inner);
      EndNest(m, start, inner, 9, IpAttrs(ips[from..at]));
      HoldsMore(inner, before, 0, head, Nest(9, IpAttrs(ips[from..at])));
    }
  }

  // ----- One message -----

  lemma {:induction false} FragAttrsAppend(frags: seq<Frag>, f: Frag)
    ensures FragAttrs(frags + [f]) == FragAttrs(frags) + [FragAttr(f)]
  {
    hide FragAttr;
    if frags == [] {
      assert frags + [f] == [f];
    } else {
      assert (frags + [f])[1..] == frags[1..] + [f];
      FragAttrsAppend(frags[1..], f);
    }
  }

  /** Where the outcome of one peer leaves the cursor is where the split says it should be. */
  lemma OutcomeFollows(peers: seq<Peer>, pos: Pos, f: Frag, out: Outcome, next: Cursor)
    requires Within(peers, pos) && pos.peer < |peers| && !out.PeerFull?
    requires f.peer == peers[pos.peer] && f.first == pos.ip.Null? && (!f.nest ==> f.ips == [])
    requires pos.ip.At? ==> |f.ips| > 0
    requires out.Complete? ==> next == Null && f.ips == f.peer.ips[From(pos.ip)..]
    requires out.IpsFull? ==>
      next.At? && From(pos.ip) <= next.n < |f.peer.ips| && f.ips == f.peer.ips[From(pos.ip)..next.n]
    ensures Follows(peers, pos, f)
    ensures After(peers, pos, f) == if out.Complete? then Pos(pos.peer + 1, Null) else Pos(pos.peer, next)
  {
  }

  /** Appends peers from the cursor on until all are in or the message is full. */
  method PutPeers(m: Message, peers: seq<Peer>, start: Pos, ghost before: seq<u8>)
    returns (pos: Pos, ghost frags: seq<Frag>)
    requires m.Valid() && m.len + 168 <= m.buf.Length && Holds(m.Attrs(), before, 8, [])
    requires (forall i :: 0 <= i < |peers| ==> peers[i].Valid()) && Within(peers, start) && start.peer < |peers|
    modifies m`len, m.buf
    ensures m.Valid() && Within(peers, pos) && frags != [] && Covers(peers, start, frags, pos)
    ensures Holds(m.Attrs(), before, 8, FragAttrs(frags))
  {
    hide Holds, Encode, FragAttr, FragAttrs, Covers, Follows, After;
    pos, frags := start, [];
    assert FragAttrs([]) == [] && Covers(peers, start, [], start) by { NoFrags(peers, start); }
    while pos.peer < |peers|
      invariant m.Valid() && Within(peers, pos) && Covers(peers, start, frags, pos)
      invariant Holds(m.Attrs(), before, 8, FragAttrs(frags))
      invariant if frags == [] then pos == start && m.len == old(m.len) else pos.ip == Null
      decreases |peers| - pos.peer
    {
      ghost var bytes := m.Attrs();
      var out, next;
      ghost var f;
      out, next, f := PutPeer(m, peers[pos.peer], pos.ip);
      if out.PeerFull? { return; }
      HoldsMore(bytes, before, 8, FragAttrs(frags), FragAttr(f));
      FragAttrsAppend(frags, f);
      OutcomeFollows(peers, pos, f, out, next);
      CoversAppend(peers, start, frags, pos, f);
      frags := frags + [f];
      pos := if out.Complete? then Pos(pos.peer + 1, Null) else Pos(pos.peer, next);
      if out.IpsFull? { return; }
    }
  }

  lemma NoFrags(peers: seq<Peer>, start: Pos)
    requires Within(peers, start)
    ensures FragAttrs([]) == [] && Covers(peers, start, [], start)
  {
  }

  /** Appends one attribute that is known to fit. */
  method PutOne(m: Message, a: Attr, ghost done: seq<Attr>)
    requires m.Valid() && a.Leaf? && m.len + 4 + Align(|a.data|) <= m.buf.Length && m.Attrs() == EncodeAll(done)
    modifies m`len, m.buf
    ensures m.Valid() && m.len == old(m.len) + 4 + Align(|a.data|) && m.Attrs() == EncodeAll(done + [a])
  {
    hide Encode, EncodeAll, ItemBytes, Align;
    m.Put(a.typ, a.data);
    LeafSize(a.typ, a.data);
    EncodeAppend(done, a);
  }

  method PutDevice(m: Message, dev: Device)
    requires m.Valid() && dev.Valid() && m.len <= 40 && m.buf.Length >= 4096
    requires m.Attrs() == EncodeAll([Leaf(2, dev.name + [0])])
    modifies m`len, m.buf
    ensures m.Valid() && m.len <= 100 && m.Attrs() == EncodeAll(Preamble(dev, true))
  {
    hide EncodeAll, Le16, Le32, Align;
    FieldSizes();
    ghost var done := [Leaf(2, dev.name + [0])];
    if dev.hasPrivateKey {
      PutOne(m, Leaf(3, dev.privateKey), done);
      done := done + [Leaf(3, dev.privateKey)];
    }
    if dev.hasListenPort {
      PutOne(m, Leaf(6, Le16(dev.listenPort)), done);
      done := done + [Leaf(6, Le16(dev.listenPort))];
    }
    if dev.hasFwmark {
      PutOne(m, Leaf(7, Le32(dev.fwmark)), done);
      done := done + [Leaf(7, Le32(dev.fwmark))];
    }
    var flags: u32 := 0;
    if dev.replacePeers {
      flags := flags + 1;
    }
    if flags != 0 {
      PutOne(m, Leaf(5, Le32(flags)), done);
      done := done + [Leaf(5, Le32(1))];
    }
    assert done == Preamble(dev, true);
  }

  method PutPreamble(m: Message, dev: Device, first: bool)
    requires m.Valid() && dev.Valid() && m.len == HEADER && m.buf.Length >= 4096
    modifies m`len, m.buf
    ensures m.Valid() && m.len <= 100 && m.Attrs() == EncodeAll(Preamble(dev, first))
  {
    hide EncodeAll;
    assert m.Attrs() == [] == EncodeAll([]) by { NoAttrs(); }
    PutOne(m, Leaf(2, dev.name + [0]), []);
    assert [] + [Leaf(2, dev.name + [0])] == [Leaf(2, dev.name + [0])];
    if first {
      PutDevice(m, dev);
    } else {
      assert Preamble(dev, false) == [Leaf(2, dev.name + [0])];
    }
  }

  lemma NoAttrs()
    ensures EncodeAll([]) == []
  {
  }

  /** Builds the next message: the preamble, and peers from the cursor on. */
  method Fill(m: Message, dev: Device, first: bool, start: Pos) returns (pos: Pos, ghost frags: seq<Frag>)
    requires m.Valid() && dev.Valid() && m.len == HEADER && m.buf.Length >= 4096
    requires Within(dev.peers, start) && (dev.peers != [] ==> start.peer < |dev.peers|)
    modifies m`len, m.buf
    ensures m.Valid() && m.Attrs() == EncodeAll(MessageAttrs(dev, first, frags))
    ensures Within(dev.peers, pos) && Covers(dev.peers, start, frags, pos) && (dev.peers != [] ==> frags != [])
  {
    hide Encode, EncodeAll, Preamble, FragAttrs, Covers, Holds;
    PutPreamble(m, dev, first);
    ghost var before, preamble := m.Attrs(), Preamble(dev, first);
    pos, frags := start, [];
    NoFrags(dev.peers, start);
    if dev.peers == [] {
      assert preamble + [] == preamble;
      return;
    }
    var nest := m.NestStart(8);
    OpenedHolds(m.Attrs(), before, 8);
    pos, frags := PutPeers(m, dev.peers, start, before);
    EndNest(m, nest, before, 8, FragAttrs(frags));
    EncodeAppend(preamble, Nest(8, FragAttrs(frags)));
  }

  // ----- The whole conversation -----

  function Flatten<T>(s: seq<seq<T>>): seq<T>
  {
    if s == [] then [] else Flatten(s[..|s| - 1]) + s[|s| - 1]
  }

  /** Sends the device as a sequence of messages, stopping at the first one the kernel refuses.
      Every message fits the buffer; together they say everything exactly once and in order. */
  method KernelSetDevice(dev: Device, size: nat, acks: nat -> bool)
    returns (ok: bool, sent: seq<seq<u8>>, ghost messages: seq<seq<Frag>>, ghost end: Pos)
    requires dev.Valid() && 4096 <= size <= 8192
    ensures |sent| == |messages| > 0
    ensures forall k :: 0 <= k < |sent| ==>
      sent[k] == EncodeAll(MessageAttrs(dev, k == 0, messages[k])) && HEADER + |sent[k]| <= size
    ensures Within(dev.peers, end) && Covers(dev.peers, Pos(0, Null), Flatten(messages), end)
    ensures ok ==> end == Pos(|dev.peers|, Null)
    ensures !ok ==> !acks(|sent| - 1)
  {
    hide EncodeAll, MessageAttrs, Covers;
    var m := new Message(size);
    var pos := Pos(0, Null);
    sent, messages := [], [];
    ok, end := true, pos;
    NoFrags(dev.peers, pos);
    var peer, again := Null, true;
    while again
      invariant m.Valid() && m.buf.Length == size && fresh(m) && fresh(m.buf)
      invariant |sent| == |messages| && end == pos && Within(dev.peers, pos)
      invariant ok && (again ==> (peer.Null? <==> sent == []))
      invariant (again ==> dev.peers != [] ==> pos.peer < |dev.peers|)
      invariant !again ==> |sent| > 0 && pos == Pos(|dev.peers|, Null)
      invariant forall k :: 0 <= k < |sent| ==>
        sent[k] == EncodeAll(MessageAttrs(dev, k == 0, messages[k])) && HEADER + |sent[k]| <= size
      invariant Covers(dev.peers, Pos(0, Null), Flatten(messages), pos)
      decreases again, |dev.peers| - pos.peer, pos.ip.Null?, if pos.ip.At? then |dev.peers[pos.peer].ips| - pos.ip.n
        else 0
    {
      m.Prepare();
      var was := pos;
      ghost var frags;
      pos, frags := Fill(m, dev, peer.Null?, pos);
      CoversConcat(dev.peers, Pos(0, Null), Flatten(messages), was, frags, pos);
      if dev.peers != [] {
        CoversProgress(dev.peers, was, frags, pos);
      }
      assert Flatten(messages + [frags]) == Flatten(messages) + frags
        by { assert (messages + [frags])[..|messages|] == messages; }
      sent, messages, end := sent + [m.buf[HEADER..m.len]], messages + [frags], pos;
      if !acks(|sent| - 1) {
        return false, sent, messages, end;
      }
      peer := if pos.peer < |dev.peers| then At(pos.peer) else Null;
      again := peer.At?;
    }
  }
}
