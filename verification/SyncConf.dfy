/** `syncconf`: turning a full replacement into removals and updates, by sorting the keys of the file
    and of the interface together and scanning once. */
module SyncConf {
  import opened Tlv
  import opened WgDevice
  import opened Kernel

  datatype Origin = Origin(key: Key, fromFile: bool)

  // ----- The order -----

  function Memcmp(a: Key, b: Key): int
    decreases |a|
  {
    if a == [] || b == [] then |a| - |b|
    else if a[0] != b[0] then a[0] as int - b[0] as int
    else Memcmp(a[1..], b[1..])
  }

  function PubkeyCmp(a: Origin, b: Origin): int
  {
    var r := Memcmp(a.key, b.key);
    if r != 0 then r else (if a.fromFile then 1 else 0) - (if b.fromFile then 1 else 0)
  }

  lemma {:induction false} MemcmpEqual(a: Key, b: Key)
    ensures Memcmp(a, b) == 0 <==> a == b
    ensures Memcmp(a, b) == -Memcmp(b, a)
    decreases |a|
  {
    if a != [] && b != [] && a[0] == b[0] {
      MemcmpEqual(a[1..], b[1..]);
      assert a == [a[0]] + a[1..] && b == [b[0]] + b[1..];
    }
  }

  /** Keys are compared by their first byte that differs. Of one key, the interface's comes before the
      file's, and only a key from the same side compares as equal. */
  lemma {:induction false} PubkeyCmpExactly(a: Origin, b: Origin, i: nat)
    requires |a.key| == |b.key|
    ensures i < |a.key| && a.key[..i] == b.key[..i] && a.key[i] < b.key[i] ==> PubkeyCmp(a, b) < 0 < PubkeyCmp(b, a)
    ensures a.key == b.key && !a.fromFile && b.fromFile ==> PubkeyCmp(a, b) == -1 && PubkeyCmp(b, a) == 1
    ensures PubkeyCmp(a, b) == 0 <==> a == b
  {
    hide Memcmp;
    MemcmpEqual(a.key, b.key);
    if i < |a.key| && a.key[..i] == b.key[..i] {
      FirstDiffers(a.key, b.key, i);
    }
  }

  lemma {:induction false} FirstDiffers(a: Key, b: Key, i: nat)
    requires i < |a| && i < |b| && a[..i] == b[..i]
    ensures a[i] != b[i] ==> Memcmp(a, b) == a[i] as int - b[i] as int
    decreases i
  {
    if i > 0 {
      assert a[0] == a[..i][0] == b[..i][0] == b[0];
      assert a[1..][..i - 1] == a[..i][1..] && b[1..][..i - 1] == b[..i][1..];
      FirstDiffers(a[1..], b[1..], i - 1);
    }
  }

  ghost predicate Ordered(s: seq<Origin>)
  {
    forall i, j :: 0 <= i < j < |s| ==> PubkeyCmp(s[i], s[j]) <= 0
  }

  /** What a sort promises: order, and the same elements. */
  ghost predicate Sorts(sort: seq<Origin> -> seq<Origin>)
  {
    forall s :: Ordered(sort(s)) && multiset(sort(s)) == multiset(s)
  }

  lemma OrderedAt(s: seq<Origin>, i: nat, j: nat)
    requires Ordered(s) && i < j < |s|
    ensures PubkeyCmp(s[i], s[j]) <= 0
  {
  }

  /** Between two equal keys there is only that key. */
  lemma Contiguous(s: seq<Origin>, i: nat, j: nat, k: nat)
    requires Ordered(s) && i < j < k < |s| && s[i].key == s[k].key
    ensures s[j].key == s[i].key
  {
    hide Ordered, Memcmp;
    OrderedAt(s, i, j);
    OrderedAt(s, j, k);
    MemcmpEqual(s[i].key, s[j].key);
    MemcmpEqual(s[j].key, s[k].key);
  }

  /** Among equal keys the interface's come before the file's. */
  lemma RuntimeFirst(s: seq<Origin>, i: nat, j: nat)
    requires Ordered(s) && i < j < |s| && s[i].key == s[j].key && s[i].fromFile
    ensures s[j].fromFile
  {
    hide Ordered, Memcmp;
    OrderedAt(s, i, j);
    MemcmpEqual(s[i].key, s[j].key);
  }

  // ----- The scan -----

  /** Whether the scan removes the key at the head of what is left to scan. */
  predicate Unmatched(s: seq<Origin>)
    requires s != []
  {
    !s[0].fromFile && (|s| == 1 || !s[1].fromFile || s[0].key != s[1].key)
  }

  function Removed(s: seq<Origin>): seq<Key>
  {
    if s == [] then [] else (if Unmatched(s) then [s[0].key] else []) + Removed(s[1..])
  }

  function Count(s: seq<Origin>, o: Origin): nat
  {
    multiset(s)[o]
  }

  lemma CountFirst(s: seq<Origin>, o: Origin)
    requires s != []
    ensures Count(s, o) == (if s[0] == o then 1 else 0) + Count(s[1..], o)
  {
    assert s == [s[0]] + s[1..];
  }

  lemma CountFound(s: seq<Origin>, o: Origin) returns (j: nat)
    requires Count(s, o) > 0
    ensures j < |s| && s[j] == o
  {
    assert o in multiset(s);
    assert o in s;
    j :| 0 <= j < |s| && s[j] == o;
  }

  /** How often the scan removes a key: once per appearance on the interface, less one if it is in the file. */
  function Excess(runtime: nat, file: nat): nat
  {
    if file > 0 && runtime > 0 then runtime - 1 else runtime
  }

  lemma {:induction false} RemovedCount(s: seq<Origin>, k: Key)
    requires Ordered(s)
    ensures multiset(Removed(s))[k] == Excess(Count(s, Origin(k, false)), Count(s, Origin(k, true)))
    decreases |s|
  {
    hide Count, PubkeyCmp;
    var r, f := Origin(k, false), Origin(k, true);
    if s == [] {
      assert Count(s, r) == 0 && Count(s, f) == 0 by { CountNone(r); CountNone(f); }
    } else {
      var rest := s[1..];
      assert Ordered(rest) by { OrderedTail(s); }
      RemovedCount(rest, k);
      CountFirst(s, r);
      CountFirst(s, f);
      if s[0] == f {
        NoneAfter(s, k);
      } else if s[0] == r {
        HeadCase(s, k);
      }
    }
  }

  lemma OrderedTail(s: seq<Origin>)
    requires Ordered(s) && s != []
    ensures Ordered(s[1..])
  {
    hide PubkeyCmp;
    var rest := s[1..];
    forall i, j | 0 <= i < j < |rest| ensures PubkeyCmp(rest[i], rest[j]) <= 0 {
      assert rest[i] == s[i + 1] && rest[j] == s[j + 1];
    }
  }

  lemma CountNone(o: Origin)
    ensures Count([], o) == 0
  {
  }

  /** After the file's entry of a key no entry of the interface follows. */
  lemma NoneAfter(s: seq<Origin>, k: Key)
    requires Ordered(s) && s != [] && s[0] == Origin(k, true)
    ensures Count(s[1..], Origin(k, false)) == 0
  {
    hide Ordered, Count;
    if Count(s[1..], Origin(k, false)) > 0 {
      var j := CountFound(s[1..], Origin(k, false));
      RuntimeFirst(s, 0, j + 1);
    }
  }

  /** An entry of the interface at the head: removed unless it is the last before the file's. */
  lemma HeadCase(s: seq<Origin>, k: Key)
    requires Ordered(s) && s != [] && s[0] == Origin(k, false)
    ensures var r, f := Count(s[1..], Origin(k, false)), Count(s[1..], Origin(k, true));
      Unmatched(s) <==> !(r == 0 && f > 0)
  {
    hide Ordered, Count;
    var rest, o := s[1..], Origin(k, true);
    if rest != [] && rest[0] == o {
      assert Count(rest, Origin(k, false)) == 0 by { NoneAfterHead(s, k); }
      assert Count(rest, o) > 0 by { CountFirst(rest, o); }
    } else if Count(rest, o) > 0 {
      var j := CountFound(rest, o);
      Contiguous(s, 0, 1, j + 1);
      assert rest[0] == Origin(k, false);
      CountFirst(rest, Origin(k, false));
    }
  }

  lemma NoneAfterHead(s: seq<Origin>, k: Key)
    requires Ordered(s) && |s| > 1 && s[1] == Origin(k, true)
    ensures Count(s[1..], Origin(k, false)) == 0
  {
    hide Ordered, Count;
    OrderedTail(s);
    NoneAfter(s[1..], k);
    CountFirst(s[1..], Origin(k, false));
  }

  // ----- What is removed -----

  function Keys(peers: seq<Peer>): (r: seq<Key>)
    ensures |r| == |peers|
  {
    if peers == [] then [] else [peers[0].key] + Keys(peers[1..])
  }

  function Marked(peers: seq<Peer>, fromFile: bool): (r: seq<Origin>)
    ensures |r| == |peers|
  {
    if peers == [] then [] else [Origin(peers[0].key, fromFile)] + Marked(peers[1..], fromFile)
  }

  lemma {:induction false} MarkedCount(peers: seq<Peer>, fromFile: bool, k: Key)
    ensures Count(Marked(peers, fromFile), Origin(k, fromFile)) == multiset(Keys(peers))[k]
    ensures Count(Marked(peers, fromFile), Origin(k, !fromFile)) == 0
  {
    if peers == [] {
    } else {
      MarkedCount(peers[1..], fromFile, k);
      var m := Marked(peers, fromFile);
      assert m[1..] == Marked(peers[1..], fromFile);
      CountFirst(m, Origin(k, fromFile));
      CountFirst(m, Origin(k, !fromFile));
    }
  }

  /** The law of the scan: each key on the interface is removed as often as it appears there, less
      once if the file has it. */
  lemma RemovedLaw(file: seq<Peer>, runtime: seq<Peer>, sorted: seq<Origin>, k: Key)
    requires Ordered(sorted) && multiset(sorted) == multiset(Marked(file, true) + Marked(runtime, false))
    ensures multiset(Removed(sorted))[k] == Excess(multiset(Keys(runtime))[k], multiset(Keys(file))[k])
  {
    hide Ordered, Removed, Keys, Marked;
    RemovedCount(sorted, k);
    MarkedCount(file, true, k);
    MarkedCount(runtime, false, k);
    assert multiset(sorted) == multiset(Marked(file, true)) + multiset(Marked(runtime, false));
  }

  ghost predicate Once(peers: seq<Peer>, k: Key)
  {
    multiset(Keys(peers))[k] <= 1
  }

  /** No peer of the file is ever removed exactly if the interface lists each of them at most once. */
  lemma SessionsKept(file: seq<Peer>, runtime: seq<Peer>, sorted: seq<Origin>)
    requires Ordered(sorted) && multiset(sorted) == multiset(Marked(file, true) + Marked(runtime, false))
    ensures (forall k :: k in Keys(file) ==> k !in Removed(sorted))
      <==> (forall k :: k in Keys(file) ==> Once(runtime, k))
  {
    hide Ordered, Removed, Keys, Marked;
    forall k | k in Keys(file) ensures k !in Removed(sorted) <==> Once(runtime, k) {
      RemovedLaw(file, runtime, sorted, k);
      assert k in multiset(Keys(file));
      assert k in Removed(sorted) <==> k in multiset(Removed(sorted));
    }
  }

  /** With distinct keys on the interface, exactly those absent from the file go, each once. */
  lemma RemovedExactly(file: seq<Peer>, runtime: seq<Peer>, sorted: seq<Origin>, k: Key)
    requires Ordered(sorted) && multiset(sorted) == multiset(Marked(file, true) + Marked(runtime, false))
    requires Once(runtime, k)
    ensures multiset(Removed(sorted))[k] == if k in Keys(runtime) && k !in Keys(file) then 1 else 0
  {
    hide Ordered, Removed, Keys, Marked;
    RemovedLaw(file, runtime, sorted, k);
    assert k in Keys(file) <==> k in multiset(Keys(file));
    assert k in Keys(runtime) <==> k in multiset(Keys(runtime));
  }

  // ----- The code -----

  /** A record that only asks for a peer's removal. */
  function Gone(k: Key): Peer
  {
    Peer(true, false, false, false, k, Zeros(32), Zeros(28), 0, [])
  }

  /** Pushing removals on the front of a list, one after another. */
  function Pushed(keys: seq<Key>, peers: seq<Peer>): seq<Peer>
    decreases |keys|
  {
    if keys == [] then peers else Pushed(keys[1..], [Gone(keys[0])] + peers)
  }

  lemma {:induction false} PushedLast(keys: seq<Key>, k: Key, peers: seq<Peer>)
    ensures Pushed(keys + [k], peers) == [Gone(k)] + Pushed(keys, peers)
    decreases |keys|
  {
    if keys == [] {
      assert keys + [k] == [k];
    } else {
      assert (keys + [k])[1..] == keys[1..] + [k];
      PushedLast(keys[1..], k, [Gone(keys[0])] + peers);
    }
  }

  /** What asking for the interface gave. */
  datatype Fetched = Failed | Got(peers: seq<Peer>)

  /** The request as the scan leaves it: untouched when there is nothing to compare. */
  function Synced(replacePeers: bool, file: seq<Peer>, runtime: seq<Peer>, sort: seq<Origin> -> seq<Origin>)
    : (bool, seq<Peer>)
  {
    if file == [] || runtime == [] then (replacePeers, file)
    else (false, Pushed(Removed(sort(Marked(file, true) + Marked(runtime, false))), file))
  }

  class File {
    var replacePeers: bool
    var peers: seq<Peer>

    constructor (replacePeers: bool, peers: seq<Peer>)
      ensures this.replacePeers == replacePeers && this.peers == peers
    {
      this.replacePeers, this.peers := replacePeers, peers;
    }

    /** Rewrites the request in place; `sort` is the library's sort. */
    method Sync(runtime: Fetched, sort: seq<Origin> -> seq<Origin>) returns (ok: bool)
      modifies this
      ensures ok == (old(peers) == [] || runtime.Got?)
      ensures runtime.Failed? ==> replacePeers == old(replacePeers) && peers == old(peers)
      ensures runtime.Got? ==> (replacePeers, peers) == Synced(old(replacePeers), old(peers), runtime.peers, sort)
    {
      hide Removed, Pushed, Marked;
      if peers == [] {
        return true;
      }
      if runtime.Failed? {
        return false;
      }
      if runtime.peers == [] {
        return true;
      }
      replacePeers := false;
      var pubkeys := Marked(peers, true) + Marked(runtime.peers, false);
      pubkeys := sort(pubkeys);
      ghost var gone: seq<Key> := [];
      assert pubkeys[0..] == pubkeys && gone + Removed(pubkeys) == Removed(pubkeys);
      assert Pushed(gone, peers) == peers by { NonePushed(peers); }
      var i := 0;
      while i < |pubkeys|
        invariant 0 <= i <= |pubkeys| && !replacePeers
        invariant gone + Removed(pubkeys[i..]) == Removed(pubkeys)
        invariant peers == Pushed(gone, old(peers))
      {
        RemovedStep(pubkeys, i);
        if !pubkeys[i].fromFile
          && (i == |pubkeys| - 1 || !pubkeys[i + 1].fromFile || pubkeys[i].key != pubkeys[i + 1].key)
        {
          PushedLast(gone, pubkeys[i].key, old(peers));
          peers := [Gone(pubkeys[i].key)] + peers;
          gone := gone + [pubkeys[i].key];
        }
        i := i + 1;
      }
      RemovedDone(pubkeys);
      assert gone + [] == gone;
      ok := true;
    }
  }

  lemma NonePushed(peers: seq<Peer>)
    ensures Pushed([], peers) == peers
  {
  }

  lemma RemovedStep(s: seq<Origin>, i: nat)
    requires i < |s|
    ensures var take := !s[i].fromFile && (i == |s| - 1 || !s[i + 1].fromFile || s[i].key != s[i + 1].key);
      Removed(s[i..]) == (if take then [s[i].key] else []) + Removed(s[i + 1..])
  {
    var rest := s[i..];
    assert rest[0] == s[i] && rest[1..] == s[i + 1..] && (|rest| > 1 ==> rest[1] == s[i + 1]);
  }

  lemma RemovedDone(s: seq<Origin>)
    ensures Removed(s[|s|..]) == []
  {
  }

  // ----- The effect -----

  /** `s` agrees with `f`, except for networks `f` gives to nobody and `s` still gives to a key of `ks`. */
  ghost predicate Behind(s: map<AllowedIp, Key>, f: map<AllowedIp, Key>, ks: set<Key>)
  {
    && (forall n :: n in f ==> n in s && s[n] == f[n])
    && (forall n :: n in s && n !in f ==> s[n] in ks)
  }

  function KeySet(peers: seq<Peer>): set<Key>
  {
    if peers == [] then {} else {peers[0].key} + KeySet(peers[1..])
  }

  lemma {:induction false} BehindGiven(s: map<AllowedIp, Key>, f: map<AllowedIp, Key>, ks: set<Key>, k: Key,
                                       ips: seq<AllowedIp>, net: AllowedIp -> AllowedIp)
    requires Behind(s, f, ks)
    ensures Behind(Given(s, k, ips, net), Given(f, k, ips, net), ks)
    decreases |ips|
  {
    if ips == [] {
    } else {
      BehindGiven(s[net(ips[0]) := k], f[net(ips[0]) := k], ks, k, ips[1..], net);
    }
  }

  lemma BehindReleased(s: map<AllowedIp, Key>, f: map<AllowedIp, Key>, ks: set<Key>, k: Key)
    requires Behind(s, f, {k} + ks)
    ensures Behind(Released(s, k), Released(f, k), ks)
  {
  }

  /** Peers as the configuration reader makes them. */
  ghost predicate FromConfig(peers: seq<Peer>)
  {
    forall i :: 0 <= i < |peers| ==> !peers[i].removeMe && peers[i].replaceIps
  }

  /** Updating leftovers of the listed peers ends where building from nothing ends. */
  lemma {:induction false} CatchUp(s: State, f: State, peers: seq<Peer>, net: AllowedIp -> AllowedIp)
    requires FromConfig(peers)
    requires f.peers <= s.peers <= f.peers + KeySet(peers) && Behind(s.owner, f.owner, KeySet(peers))
    ensures ApplyPeers(s, peers, net) == ApplyPeers(f, peers, net)
    decreases |peers|
  {
    hide Released, Given, Behind;
    if peers == [] {
      assert s.owner == f.owner by { BehindNone(s.owner, f.owner); }
    } else {
      var p, rest := peers[0], peers[1..];
      BehindReleased(s.owner, f.owner, KeySet(rest), p.key);
      BehindGiven(Released(s.owner, p.key), Released(f.owner, p.key), KeySet(rest), p.key, p.ips, net);
      CatchUp(Request(s, false, true, p.key, p.ips, net), Request(f, false, true, p.key, p.ips, net), rest, net);
    }
  }

  lemma BehindNone(s: map<AllowedIp, Key>, f: map<AllowedIp, Key>)
    requires Behind(s, f, {})
    ensures s == f
  {
  }

  /** A state without some peers and what they own. */
  function Dropped(s: State, keys: set<Key>): State
  {
    State(s.peers - keys, map n | n in s.owner && s.owner[n] !in keys :: s.owner[n])
  }

  function AsSet(keys: seq<Key>): set<Key>
  {
    set k | k in keys
  }

  lemma {:induction false} RemovalsApply(s: State, keys: seq<Key>, peers: seq<Peer>, net: AllowedIp -> AllowedIp)
    ensures ApplyPeers(s, Pushed(keys, peers), net) == ApplyPeers(Dropped(s, AsSet(keys)), peers, net)
    decreases |keys|
  {
    if keys == [] {
      assert Dropped(s, AsSet(keys)) == s;
    } else {
      var k, rest := keys[0], keys[1..];
      RemovalsApply(s, rest, [Gone(k)] + peers, net);
      var d := Dropped(s, AsSet(rest));
      assert ApplyPeers(d, [Gone(k)] + peers, net) == ApplyPeers(Request(d, true, false, k, [], net), peers, net) by {
        assert ([Gone(k)] + peers)[1..] == peers;
      }
      assert keys == [k] + rest;
      assert Request(d, true, false, k, [], net) == Dropped(s, AsSet(keys)) by { DropOneMore(s, rest, k, net); }
    }
  }

  lemma DropOneMore(s: State, keys: seq<Key>, k: Key, net: AllowedIp -> AllowedIp)
    ensures Request(Dropped(s, AsSet(keys)), true, false, k, [], net) == Dropped(s, AsSet([k] + keys))
  {
    var x, y := Request(Dropped(s, AsSet(keys)), true, false, k, [], net), Dropped(s, AsSet([k] + keys));
    assert AsSet([k] + keys) == {k} + AsSet(keys);
    assert x.peers == y.peers;
    assert x.owner == y.owner;
  }

  lemma {:induction false} KeySetIsKeys(peers: seq<Peer>, k: Key)
    ensures k in KeySet(peers) <==> k in Keys(peers)
  {
    if peers != [] {
      KeySetIsKeys(peers[1..], k);
    }
  }

  /** What an interface that lists `runtime` can be: those peers, owning networks among themselves. */
  ghost predicate Lists(s: State, runtime: seq<Peer>)
  {
    && s.peers == KeySet(runtime)
    && forall n :: n in s.owner ==> s.owner[n] in s.peers
  }

  /** Removing what the scan found and updating the rest leaves what replacing everything would leave. */
  lemma ScanRefinesReplace(s: State, file: seq<Peer>, runtime: seq<Peer>, sorted: seq<Origin>,
                           net: AllowedIp -> AllowedIp)
    requires Lists(s, runtime) && FromConfig(file)
    requires Ordered(sorted) && multiset(sorted) == multiset(Marked(file, true) + Marked(runtime, false))
    ensures ApplyDevice(s, false, Pushed(Removed(sorted), file), net) == ApplyDevice(s, true, file, net)
  {
    hide ApplyPeers, Pushed, Removed, Marked, Ordered, Keys, KeySet, FromConfig;
    var gone := Removed(sorted);
    RemovalsApply(s, gone, file, net);
    var d := Dropped(s, AsSet(gone));
    forall k | k in d.peers ensures k in KeySet(file) {
      RemovedLaw(file, runtime, sorted, k);
      KeySetIsKeys(file, k);
      KeySetIsKeys(runtime, k);
      assert k in multiset(Keys(runtime)) && k !in multiset(gone);
      assert k in multiset(Keys(file));
    }
    CatchUp(d, EMPTY_STATE, file, net);
  }

  /** On every way to success, the rewritten request leaves the peers and the allowed IPs that the
      full replacement it was made from would leave. */
  lemma SyncRefinesReplace(s: State, file: seq<Peer>, runtime: seq<Peer>, sort: seq<Origin> -> seq<Origin>,
                           net: AllowedIp -> AllowedIp)
    requires Sorts(sort) && Lists(s, runtime) && FromConfig(file)
    ensures var (replacePeers, peers) := Synced(true, file, runtime, sort);
      ApplyDevice(s, replacePeers, peers, net) == ApplyDevice(s, true, file, net)
  {
    hide ApplyDevice, Pushed, Removed, Marked, Ordered, FromConfig, Lists;
    if file != [] && runtime != [] {
      ScanRefinesReplace(s, file, runtime, sort(Marked(file, true) + Marked(runtime, false)), net);
    }
  }

  /** An interface that listed a peer twice would have it removed although the file keeps it. */
  lemma DuplicateRemoved(file: seq<Peer>, runtime: seq<Peer>, sort: seq<Origin> -> seq<Origin>, k: Key)
    requires Sorts(sort) && multiset(Keys(runtime))[k] >= 2 && k in Keys(file)
    ensures k in Removed(sort(Marked(file, true) + Marked(runtime, false)))
  {
    hide Ordered, Removed, Keys, Marked;
    RemovedLaw(file, runtime, sort(Marked(file, true) + Marked(runtime, false)), k);
  }
}
