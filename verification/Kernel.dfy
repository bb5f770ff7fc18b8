/** What a set-device request does to an interface, as its interface documentation states it: which
    peers exist, and which peer owns each allowed IP. A network belongs to at most one peer, the one
    it was last given to. */
module Kernel {
  import opened Bits
  import opened Tlv
  import opened WgDevice
  import opened SetDevice

  type Key = seq<u8>

  datatype State = State(peers: set<Key>, owner: map<AllowedIp, Key>)

  const EMPTY_STATE := State({}, map[])

  /** The same table without what one peer owns. */
  function Released(owner: map<AllowedIp, Key>, k: Key): map<AllowedIp, Key>
  {
    map n | n in owner && owner[n] != k :: owner[n]
  }

  /** Gives networks to a peer, `net` being the masking of an address by its prefix length. */
  function Given(owner: map<AllowedIp, Key>, k: Key, ips: seq<AllowedIp>,
                 net: AllowedIp -> AllowedIp): map<AllowedIp, Key>
    decreases |ips|
  {
    if ips == [] then owner else Given(owner[net(ips[0]) := k], k, ips[1..], net)
  }

  function Request(s: State, remove: bool, replace: bool, k: Key, ips: seq<AllowedIp>,
                   net: AllowedIp -> AllowedIp): State
  {
    if remove then State(s.peers - {k}, Released(s.owner, k))
    else State(s.peers + {k}, Given(if replace then Released(s.owner, k) else s.owner, k, ips, net))
  }

  function ApplyPeers(s: State, peers: seq<Peer>, net: AllowedIp -> AllowedIp): State
    decreases |peers|
  {
    if peers == [] then s
    else
      var p := peers[0];
      ApplyPeers(Request(s, p.removeMe, p.replaceIps, p.key, p.ips, net), peers[1..], net)
  }

  /** The effect of a device given whole. */
  function ApplyDevice(s: State, replacePeers: bool, peers: seq<Peer>, net: AllowedIp -> AllowedIp): State
  {
    ApplyPeers(if replacePeers then EMPTY_STATE else s, peers, net)
  }

  // ----- Fragments -----

  /** The effect of the fragments of a device, as they come. */
  function ApplyFrags(s: State, frags: seq<Frag>, net: AllowedIp -> AllowedIp): State
    decreases |frags|
  {
    if frags == [] then s
    else
      var f := frags[0];
      ApplyFrags(Request(s, f.peer.removeMe, f.first && f.peer.replaceIps, f.peer.key, f.ips, net), frags[1..], net)
  }

  lemma {:induction false} GivenConcat(owner: map<AllowedIp, Key>, k: Key, a: seq<AllowedIp>, b: seq<AllowedIp>,
                                       net: AllowedIp -> AllowedIp)
    ensures Given(owner, k, a + b, net) == Given(Given(owner, k, a, net), k, b, net)
    decreases |a|
  {
    if a == [] {
      assert a + b == b;
    } else {
      assert (a + b)[1..] == a[1..] + b;
      GivenConcat(owner[net(a[0]) := k], k, a[1..], b, net);
    }
  }

  /** Asking in two parts, the second without the replace flag, is asking once. */
  lemma RequestTwice(s: State, remove: bool, replace: bool, k: Key, a: seq<AllowedIp>, b: seq<AllowedIp>,
                     net: AllowedIp -> AllowedIp)
    ensures Request(Request(s, remove, replace, k, a, net), remove, false, k, b, net)
      == Request(s, remove, replace, k, a + b, net)
  {
    GivenConcat(if replace then Released(s.owner, k) else s.owner, k, a, b, net);
    assert s.peers + {k} + {k} == s.peers + {k};
    assert Released(Released(s.owner, k), k) == Released(s.owner, k);
  }

  /** What is still to be asked for, seen from a position of the split. */
  function ApplyFrom(s: State, peers: seq<Peer>, pos: Pos, net: AllowedIp -> AllowedIp): State
    requires Within(peers, pos)
  {
    if pos.ip.Null? then ApplyPeers(s, peers[pos.peer..], net)
    else
      var p := peers[pos.peer];
      ApplyPeers(Request(s, p.removeMe, false, p.key, p.ips[pos.ip.n..], net), peers[pos.peer + 1..], net)
  }

  /** Cutting a device into fragments changes nothing about its effect. */
  lemma {:induction false} FragmentsApply(s: State, peers: seq<Peer>, pos: Pos, frags: seq<Frag>,
                                          net: AllowedIp -> AllowedIp)
    requires Within(peers, pos) && Covers(peers, pos, frags, Pos(|peers|, Null))
    ensures ApplyFrags(s, frags, net) == ApplyFrom(s, peers, pos, net)
    decreases |frags|
  {
    hide Request, ApplyPeers;
    if frags == [] {
      assert peers[|peers|..] == [];
      assert ApplyPeers(s, [], net) == s by { NoPeers(s, net); }
    } else {
      var f, start := frags[0], From(pos.ip);
      var next := After(peers, pos, f);
      var s' := Request(s, f.peer.removeMe, f.first && f.peer.replaceIps, f.peer.key, f.ips, net);
      FragmentsApply(s', peers, next, frags[1..], net);
      var rest := peers[pos.peer..];
      assert rest[0] == f.peer && rest[1..] == peers[pos.peer + 1..];
      OnePeer(s, rest, net);
      if next.ip.Null? {
        assert f.ips == f.peer.ips[start..];
        assert f.peer.ips[0..] == f.peer.ips;
      } else {
        var b := f.peer.ips[next.ip.n..];
        RequestTwice(s, f.peer.removeMe, f.first && f.peer.replaceIps, f.peer.key, f.ips, b, net);
        assert f.ips + b == f.peer.ips[start..];
        assert f.peer.ips[0..] == f.peer.ips;
      }
    }
  }

  lemma NoPeers(s: State, net: AllowedIp -> AllowedIp)
    ensures ApplyPeers(s, [], net) == s
  {
  }

  lemma OnePeer(s: State, peers: seq<Peer>, net: AllowedIp -> AllowedIp)
    requires peers != []
    ensures var p := peers[0];
      ApplyPeers(s, peers, net) == ApplyPeers(Request(s, p.removeMe, p.replaceIps, p.key, p.ips, net), peers[1..], net)
  {
    hide Request;
  }

  // ----- Messages -----

  /** Whether a message asks for the peers that were there to go. */
  predicate Flagged(attrs: seq<Attr>)
  {
    Leaf(5, Le32(1)) in attrs
  }

  /** The effect of a device's messages, as they come. */
  function ApplyMessages(s: State, dev: Device, messages: seq<seq<Frag>>, net: AllowedIp -> AllowedIp): State
  {
    if messages == [] then s
    else
      var n := |messages| - 1;
      var before, flagged := ApplyMessages(s, dev, messages[..n], net), Flagged(MessageAttrs(dev, n == 0, messages[n]));
      ApplyFrags(if flagged then EMPTY_STATE else before, messages[n], net)
  }

  /** Only the first message asks for it. */
  lemma FlaggedFirst(dev: Device, first: bool, frags: seq<Frag>)
    ensures Flagged(MessageAttrs(dev, first, frags)) <==> first && dev.replacePeers
  {
    hide FragAttrs, Le32, Le16;
    var a := MessageAttrs(dev, first, frags);
    if first && dev.replacePeers {
      var d := DeviceAttrs(dev);
      assert d[|d| - 1] == Leaf(5, Le32(1));
      assert Leaf(5, Le32(1)) in Preamble(dev, first);
    }
  }

  lemma {:induction false} ApplyFragsConcat(s: State, a: seq<Frag>, b: seq<Frag>, net: AllowedIp -> AllowedIp)
    ensures ApplyFrags(s, a + b, net) == ApplyFrags(ApplyFrags(s, a, net), b, net)
    decreases |a|
  {
    hide Request;
    if a == [] {
      assert a + b == b;
    } else {
      assert (a + b)[1..] == a[1..] + b;
      var f := a[0];
      ApplyFragsConcat(Request(s, f.peer.removeMe, f.first && f.peer.replaceIps, f.peer.key, f.ips, net), a[1..], b,
                       net);
    }
  }

  /** A device's messages are their fragments, on top of nothing if the device says so. */
  lemma {:induction false} MessagesAreFragments(s: State, dev: Device, messages: seq<seq<Frag>>,
                                                net: AllowedIp -> AllowedIp)
    requires messages != []
    ensures ApplyMessages(s, dev, messages, net)
      == ApplyFrags(if dev.replacePeers then EMPTY_STATE else s, Flatten(messages), net)
  {
    hide ApplyFrags, MessageAttrs, Flagged;
    var n := |messages| - 1;
    FlaggedFirst(dev, n == 0, messages[n]);
    if n == 0 {
      assert messages[..0] == [];
      assert Flatten(messages) == [] + messages[0] == messages[0];
    } else {
      MessagesAreFragments(s, dev, messages[..n], net);
      ApplyFragsConcat(if dev.replacePeers then EMPTY_STATE else s, Flatten(messages[..n]), messages[n], net);
    }
  }

  /** However a device is cut into messages, they do what it does given whole: its peers replace those
      that were there, if it asks for that, or come on top of them. */
  lemma MessagesApply(s: State, dev: Device, messages: seq<seq<Frag>>, net: AllowedIp -> AllowedIp)
    requires messages != [] && Covers(dev.peers, Pos(0, Null), Flatten(messages), Pos(|dev.peers|, Null))
    ensures ApplyMessages(s, dev, messages, net) == ApplyDevice(s, dev.replacePeers, dev.peers, net)
  {
    hide ApplyFrags, ApplyPeers, Covers;
    MessagesAreFragments(s, dev, messages, net);
    FragmentsApply(if dev.replacePeers then EMPTY_STATE else s, dev.peers, Pos(0, Null), Flatten(messages), net);
    assert dev.peers[0..] == dev.peers;
  }
}
