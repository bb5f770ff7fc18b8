/** The peer list built while reading a device, and the pass that joins adjacent appearances of one
    peer. Lists are sequences; of the tail pointer of a peer's allowed IPs what matters is kept:
    whether it is null. */
module PeerList {
  import opened Bits
  import opened WgDevice

  /** What was read about a peer besides its allowed IPs. */
  datatype Info = Info(hasKey: bool, key: seq<u8>, hasPsk: bool, psk: seq<u8>, endpoint: seq<u8>, keepalive: nat)

  datatype Entry = Entry(info: Info, ips: seq<AllowedIp>, tail: bool)

  predicate Same(a: Entry, b: Entry)
  {
    a.info.key == b.info.key
  }

  /** What one entry becomes when it takes over the list of the next. */
  function Merge(a: Entry, b: Entry): Entry
  {
    Entry(a.info, a.ips + b.ips, b.tail)
  }

  // ----- What the pass is for -----

  datatype Group = Group(info: Info, ips: seq<AllowedIp>)

  /** One group per run of equal keys, with the run's first settings and all its allowed IPs. */
  function Grouped(list: seq<Entry>): (g: seq<Group>)
    ensures list != [] ==> g != [] && g[0].info == list[0].info
  {
    if list == [] then []
    else
      var a, g := list[0], Grouped(list[1..]);
      if |list| > 1 && Same(a, list[1]) then [Group(a.info, a.ips + g[0].ips)] + g[1..]
      else [Group(a.info, a.ips)] + g
  }

  predicate Differ(g: seq<Group>, i: nat)
    requires i + 1 < |g|
  {
    g[i].info.key != g[i + 1].info.key
  }

  ghost predicate AllDiffer(g: seq<Group>)
  {
    forall i: nat :: i + 1 < |g| ==> Differ(g, i)
  }

  /** No two neighbours of the result share a key. */
  lemma {:induction false} GroupedApart(list: seq<Entry>)
    ensures AllDiffer(Grouped(list))
  {
    if |list| <= 1 {
    } else {
      var a, g, r := list[0], Grouped(list[1..]), Grouped(list);
      GroupedApart(list[1..]);
      assert AllDiffer(g);
      forall i: nat | i + 1 < |r| ensures Differ(r, i) {
        if Same(a, list[1]) {
          assert Differ(g, i);
        } else if i > 0 {
          assert Differ(g, i - 1);
        }
      }
    }
  }

  // ----- The pass -----

  function Coalesced(list: seq<Entry>): seq<Entry>
    decreases |list|
  {
    if |list| < 2 then list
    else if Same(list[0], list[1]) then Coalesced([Merge(list[0], list[1])] + list[2..])
    else [list[0]] + Coalesced(list[1..])
  }

  /** Whether the pass never appends through a null tail. */
  predicate Survives(list: seq<Entry>)
    decreases |list|
  {
    if |list| < 2 then true
    else if Same(list[0], list[1]) then
      (list[0].ips != [] ==> list[0].tail) && Survives([Merge(list[0], list[1])] + list[2..])
    else Survives(list[1..])
  }

  class Reader {
    var peers: seq<Entry>

    constructor (peers: seq<Entry>)
      ensures this.peers == peers
    {
      this.peers := peers;
    }

    /** Joins adjacent entries with one key, in place. False where the code would follow a null tail. */
    method Coalesce() returns (ok: bool)
      modifies this
      ensures ok == Survives(old(peers))
      ensures ok ==> peers == Coalesced(old(peers))
    {
      hide Survives, Coalesced;
      var i := 0;
      assert peers[0..] == peers;
      while i + 1 < |peers|
        invariant i <= |peers|
        invariant Survives(old(peers)) == Survives(peers[i..])
        invariant Coalesced(old(peers)) == peers[..i] + Coalesced(peers[i..])
        decreases |peers| - i
      {
        var p, q := peers[i], peers[i + 1];
        if p.info.key != q.info.key {
          StepOver(peers, i);
          i := i + 1;
          continue;
        }
        StepJoin(peers, i);
        if p.ips == [] {
          p := p.(ips := q.ips, tail := q.tail);
        } else {
          if !p.tail {
            return false;
          }
          p := p.(ips := p.ips + q.ips, tail := q.tail);
        }
        assert p.ips == peers[i].ips + q.ips;
        peers := peers[..i] + [p] + peers[i + 2..];
      }
      Finished(peers[i..]);
      assert peers == peers[..i] + peers[i..];
      ok := true;
    }
  }

  lemma Finished(list: seq<Entry>)
    requires |list| < 2
    ensures Survives(list) && Coalesced(list) == list
  {
  }

  lemma StepOver(list: seq<Entry>, i: nat)
    requires i + 1 < |list| && !Same(list[i], list[i + 1])
    ensures Survives(list[i..]) == Survives(list[i + 1..])
    ensures list[..i] + Coalesced(list[i..]) == list[..i + 1] + Coalesced(list[i + 1..])
  {
    hide Survives, Coalesced;
    var rest := list[i..];
    Unlike(rest);
    assert rest[1..] == list[i + 1..];
    assert list[..i + 1] == list[..i] + [list[i]];
  }

  lemma Unlike(list: seq<Entry>)
    requires |list| >= 2 && !Same(list[0], list[1])
    ensures Survives(list) == Survives(list[1..]) && Coalesced(list) == [list[0]] + Coalesced(list[1..])
  {
  }

  lemma StepJoin(list: seq<Entry>, i: nat)
    requires i + 1 < |list| && Same(list[i], list[i + 1])
    ensures var next := list[..i] + [Merge(list[i], list[i + 1])] + list[i + 2..];
      && next[..i] == list[..i]
      && Coalesced(list[i..]) == Coalesced(next[i..])
      && Survives(list[i..]) == ((list[i].ips != [] ==> list[i].tail) && Survives(next[i..]))
  {
    var rest, m := list[i..], Merge(list[i], list[i + 1]);
    var next := list[..i] + [m] + list[i + 2..];
    assert rest[0] == list[i] && rest[1] == list[i + 1] && rest[2..] == list[i + 2..];
    assert next[i..] == [m] + rest[2..];
  }

  // ----- The pass does what it is for -----

  function Groups(list: seq<Entry>): (g: seq<Group>)
    ensures |g| == |list|
  {
    if list == [] then [] else [Group(list[0].info, list[0].ips)] + Groups(list[1..])
  }

  lemma {:induction false} CoalescedGroups(list: seq<Entry>)
    ensures Groups(Coalesced(list)) == Grouped(list)
    decreases |list|
  {
    if |list| == 1 {
      assert list[1..] == [];
    } else if |list| >= 2 {
      var a, b, rest := list[0], list[1], list[2..];
      assert list == [a, b] + rest;
      if Same(a, b) {
        CoalescedGroups([Merge(a, b)] + rest);
        MergeGrouped(a, b, rest);
      } else {
        CoalescedGroups(list[1..]);
      }
    }
  }

  lemma MergeGrouped(a: Entry, b: Entry, rest: seq<Entry>)
    requires Same(a, b)
    ensures Grouped([Merge(a, b)] + rest) == Grouped([a, b] + rest)
  {
    var m, one, two := Merge(a, b), [Merge(a, b)] + rest, [a, b] + rest;
    assert one[1..] == rest && two[1..] == [b] + rest && ([b] + rest)[1..] == rest;
    var g, h := Grouped(rest), Grouped([b] + rest);
    if rest != [] && Same(b, rest[0]) {
      assert h[0].ips == b.ips + g[0].ips && h[1..] == g[1..];
      assert (a.ips + b.ips) + g[0].ips == a.ips + (b.ips + g[0].ips);
    } else {
      assert h[0].ips == b.ips && h[1..] == g;
    }
  }

  /** Every entry as the readers leave it: the tail is null exactly if the list is empty. */
  ghost predicate Fresh(list: seq<Entry>)
  {
    forall i :: 0 <= i < |list| ==> (list[i].tail <==> list[i].ips != [])
  }

  ghost predicate Run(list: seq<Entry>, i: nat, k: nat)
    requires k < |list|
  {
    forall m :: i <= m <= k ==> list[m].info.key == list[k].info.key
  }

  /** One peer appears with allowed IPs, later without any, and then once more. */
  ghost predicate Gap(list: seq<Entry>, i: nat, j: nat)
  {
    i < j && j + 1 < |list| && Run(list, i, j + 1) && list[i].ips != [] && list[j].ips == []
  }

  ghost predicate Stuck(list: seq<Entry>)
  {
    |list| >= 2 && Same(list[0], list[1]) && list[0].ips != [] && !list[0].tail
  }

  /** The pass is safe exactly on the lists in which no peer's allowed IPs stop and start again. */
  lemma SurvivesExactly(list: seq<Entry>)
    requires Fresh(list)
    ensures Survives(list) <==> !exists i, j :: Gap(list, i, j)
  {
    SurvivesFrom(list);
  }

  lemma {:induction false} SurvivesFrom(list: seq<Entry>)
    requires list != [] ==> Fresh(list[1..])
    ensures Survives(list) <==> !Stuck(list) && !exists i, j :: Gap(list, i, j)
    decreases |list|
  {
    hide Gap, Run;
    if |list| < 2 {
      forall i: nat, j: nat ensures !Gap(list, i, j) { ShortGap(list, i, j); }
    } else if !Same(list[0], list[1]) {
      var rest := list[1..];
      SurvivesFrom(rest);
      forall i: nat, j: nat ensures Gap(list, i + 1, j + 1) <==> Gap(rest, i, j) { GapShift(list, i, j); }
      forall i: nat, j: nat | Gap(list, i, j) ensures exists i', j' :: Gap(rest, i', j') {
        GapFirst(list, i, j);
        assert Gap(list, i - 1 + 1, j - 1 + 1);
        assert Gap(rest, i - 1, j - 1);
      }
      if exists i, j :: Gap(rest, i, j) {
        var i: nat, j: nat :| Gap(rest, i, j);
        assert Gap(list, i + 1, j + 1);
      }
    } else {
      var a, b, l := list[0], list[1], [Merge(list[0], list[1])] + list[2..];
      assert l[1..] == list[2..];
      SurvivesFrom(l);
      if !Stuck(list) {
        GapMerged(list, l);
      }
    }
  }

  lemma ShortGap(list: seq<Entry>, i: nat, j: nat)
    requires |list| < 3
    ensures !Gap(list, i, j)
  {
  }

  lemma GapShift(list: seq<Entry>, i: nat, j: nat)
    requires list != []
    ensures Gap(list, i + 1, j + 1) <==> Gap(list[1..], i, j)
  {
    if i < j && j + 2 < |list| {
      RunShift(list, i, j + 1);
    }
  }

  lemma RunShift(list: seq<Entry>, i: nat, k: nat)
    requires k + 1 < |list|
    ensures Run(list, i + 1, k + 1) <==> Run(list[1..], i, k)
  {
    var rest := list[1..];
    if Run(rest, i, k) {
      forall m | i + 1 <= m <= k + 1 ensures list[m].info.key == list[k + 1].info.key {
        assert rest[m - 1] == list[m];
      }
    }
    if Run(list, i + 1, k + 1) {
      forall m | i <= m <= k ensures rest[m].info.key == rest[k].info.key {
        assert rest[m] == list[m + 1];
      }
    }
  }

  /** A gap cannot begin before a change of key. */
  lemma GapFirst(list: seq<Entry>, i: nat, j: nat)
    requires |list| >= 2 && !Same(list[0], list[1]) && Gap(list, i, j)
    ensures 0 < i < j
  {
  }

  /** Merging the first two entries of one key keeps every gap, or strands the merged entry. */
  lemma GapMerged(list: seq<Entry>, l: seq<Entry>)
    requires |list| >= 2 && Same(list[0], list[1]) && Fresh(list[1..]) && !Stuck(list)
    requires l == [Merge(list[0], list[1])] + list[2..]
    ensures (Stuck(l) || exists i, j :: Gap(l, i, j)) <==> exists i, j :: Gap(list, i, j)
  {
    if Stuck(l) {
      assert list[1..][0] == list[1];
      assert Gap(list, 0, 1);
    }
    forall i: nat, j: nat | Gap(l, i, j) ensures exists i', j' :: Gap(list, i', j') {
      GapUnmerge(list, l, i, j);
    }
    forall i: nat, j: nat | Gap(list, i, j) ensures Stuck(l) || exists i', j' :: Gap(l, i', j') {
      GapMerge(list, l, i, j);
    }
  }

  lemma GapUnmerge(list: seq<Entry>, l: seq<Entry>, i: nat, j: nat)
    requires |list| >= 2 && Same(list[0], list[1]) && l == [Merge(list[0], list[1])] + list[2..] && Gap(l, i, j)
    ensures exists i', j' :: Gap(list, i', j')
  {
    assert forall m :: 1 <= m < |l| ==> l[m] == list[m + 1];
    var i' := if i > 0 then i + 1 else if list[0].ips != [] then 0 else 1;
    forall m | i' <= m <= j + 2 ensures list[m].info.key == list[j + 2].info.key {
      assert l[j + 1] == list[j + 2];
      if m >= 2 {
        assert l[m - 1] == list[m];
      }
    }
    assert Gap(list, i', j + 1);
  }

  lemma GapMerge(list: seq<Entry>, l: seq<Entry>, i: nat, j: nat)
    requires |list| >= 2 && Same(list[0], list[1]) && l == [Merge(list[0], list[1])] + list[2..] && Gap(list, i, j)
    requires Fresh(list[1..])
    ensures Stuck(l) || exists i', j' :: Gap(l, i', j')
  {
    assert forall m :: 1 <= m < |l| ==> l[m] == list[m + 1];
    if j == 1 {
      assert list[1..][0] == list[1];
    } else {
      var i' := if i >= 2 then i - 1 else 0;
      forall m | i' <= m <= j ensures l[m].info.key == l[j].info.key {
        assert l[j] == list[j + 1];
      }
      assert Gap(l, i', j - 1);
    }
  }

  /** A list the pass does not survive: allowed IPs, then none, then some again, all of one peer. */
  lemma LostTail(a: Entry, b: Entry, c: Entry)
    requires a.info.key == b.info.key == c.info.key && a.ips != [] && b.ips == []
    requires a.tail && !b.tail && (c.tail <==> c.ips != [])
    ensures !Survives([a, b, c])
  {
    var list := [a, b, c];
    assert Gap(list, 0, 1);
    SurvivesExactly(list);
  }
}
