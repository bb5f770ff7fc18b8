/** The external DNS cache: answers are stored with the time and their expiry appended, and come back
    with their TTLs reduced by the time that passed. A message crosses the wire without its own TTL and
    without those of its RRsets: the parser makes them anew from the TTLs of the records. */
module CacheDb {
  import opened Bits
  import opened Text

  // ----- Messages -----

  datatype RRset = RRset(ttl: int, rrTtl: seq<int>, ttlAdd: int)

  /** A reply: its result code, its TTL (the smallest in it), its RRsets, and everything else. */
  datatype Reply = Reply(rcode: nat, ttl: int, rrsets: seq<RRset>, content: nat)

  const NOERROR := 0
  const SERVFAIL := 2
  const NXDOMAIN := 3
  const YXDOMAIN := 6

  predicate Cacheable(rcode: nat)
  {
    rcode == NOERROR || rcode == NXDOMAIN || rcode == YXDOMAIN
  }

  // ----- TTL arithmetic -----

  /** A TTL less some time, at least 0; 0 for a negative time. */
  function Less(ttl: int, subtract: int): int
  {
    if subtract >= 0 && ttl > subtract then ttl - subtract else 0
  }

  function Lesses(s: seq<int>, subtract: int): (r: seq<int>)
    ensures |r| == |s|
  {
    seq(|s|, i requires 0 <= i < |s| => Less(s[i], subtract))
  }

  function Subtracted(r: RRset, subtract: int): RRset
  {
    RRset(Less(r.ttl, subtract), Lesses(r.rrTtl, subtract), if subtract < r.ttlAdd then r.ttlAdd - subtract else 0)
  }

  function Adjusted(m: Reply, adjust: int): Reply
  {
    m.(ttl := Less(m.ttl, adjust),
       rrsets := seq(|m.rrsets|, i requires 0 <= i < |m.rrsets| => Subtracted(m.rrsets[i], adjust)))
  }

  function Fixed(m: Reply, ttl: int): Reply
  {
    m.(ttl := ttl, rrsets := seq(|m.rrsets|, i requires 0 <= i < |m.rrsets| =>
      RRset(ttl, seq(|m.rrsets[i].rrTtl|, _ => ttl), 0)))
  }

  method RRsetTtlSubtract(data: RRset, subtract: int) returns (r: RRset)
    ensures r == Subtracted(data, subtract)
  {
    r := data;
    r := r.(ttl := if subtract >= 0 && r.ttl > subtract then r.ttl - subtract else 0);
    var i := 0;
    while i < |r.rrTtl|
      invariant 0 <= i <= |r.rrTtl| == |data.rrTtl| && r.ttl == Less(data.ttl, subtract) && r.ttlAdd == data.ttlAdd
      invariant forall j :: 0 <= j < |r.rrTtl| ==>
        r.rrTtl[j] == if j < i then Less(data.rrTtl[j], subtract) else data.rrTtl[j]
    {
      var t := r.rrTtl[i];
      r := r.(rrTtl := r.rrTtl[i := if subtract >= 0 && t > subtract then t - subtract else 0]);
      i := i + 1;
    }
    r := r.(ttlAdd := if subtract < r.ttlAdd then r.ttlAdd - subtract else 0);
    assert r.rrTtl == Lesses(data.rrTtl, subtract);
  }

  method RRsetTtlSet(data: RRset, ttl: int) returns (r: RRset)
    ensures r == RRset(ttl, seq(|data.rrTtl|, _ => ttl), 0)
  {
    r := data.(ttl := ttl);
    var i := 0;
    while i < |r.rrTtl|
      invariant 0 <= i <= |r.rrTtl| == |data.rrTtl| && r.ttl == ttl
      invariant forall j :: 0 <= j < i ==> r.rrTtl[j] == ttl
    {
      r := r.(rrTtl := r.rrTtl[i := ttl]);
      i := i + 1;
    }
    r := r.(ttlAdd := 0);
    assert r.rrTtl == seq(|data.rrTtl|, _ => ttl);
  }

  method AdjustMsgTtl(msg: Reply, adjust: int) returns (r: Reply)
    ensures r == Adjusted(msg, adjust)
  {
    hide Subtracted;
    r := msg.(ttl := if adjust >= 0 && msg.ttl > adjust then msg.ttl - adjust else 0);
    var i := 0;
    while i < |r.rrsets|
      invariant 0 <= i <= |r.rrsets| == |msg.rrsets|
      invariant r == msg.(ttl := Less(msg.ttl, adjust), rrsets := r.rrsets)
      invariant forall j :: 0 <= j < |r.rrsets| ==>
        r.rrsets[j] == if j < i then Subtracted(msg.rrsets[j], adjust) else msg.rrsets[j]
    {
      var data := RRsetTtlSubtract(r.rrsets[i], adjust);
      r := r.(rrsets := r.rrsets[i := data]);
      i := i + 1;
    }
    assert r.rrsets == Adjusted(msg, adjust).rrsets;
  }

  method SetMsgTtl(msg: Reply, ttl: int) returns (r: Reply)
    ensures r == Fixed(msg, ttl)
  {
    r := msg.(ttl := ttl);
    var i := 0;
    while i < |r.rrsets|
      invariant 0 <= i <= |r.rrsets| == |msg.rrsets|
      invariant r == msg.(ttl := ttl, rrsets := r.rrsets)
      invariant forall j :: 0 <= j < |r.rrsets| ==>
        r.rrsets[j] == if j < i then RRset(ttl, seq(|msg.rrsets[j].rrTtl|, _ => ttl), 0) else msg.rrsets[j]
    {
      var data := RRsetTtlSet(r.rrsets[i], ttl);
      r := r.(rrsets := r.rrsets[i := data]);
      i := i + 1;
    }
    assert r.rrsets == Fixed(msg, ttl).rrsets;
  }

  // ----- The two 64-bit numbers behind a message -----

  function Pow256(n: nat): nat
  {
    if n == 0 then 1 else 256 * Pow256(n - 1)
  }

  function BigEndian(x: nat, len: nat): (b: seq<u8>)
    ensures |b| == len
  {
    if len == 0 then [] else BigEndian(x / 256, len - 1) + [x % 256]
  }

  function FromBigEndian(b: seq<u8>): (x: nat)
  {
    if b == [] then 0 else 256 * FromBigEndian(b[..|b| - 1]) + b[|b| - 1]
  }

  lemma {:induction false} BigEndianInverse(x: nat, len: nat)
    requires x < Pow256(len)
    ensures FromBigEndian(BigEndian(x, len)) == x
  {
    if len > 0 {
      BigEndianInverse(x / 256, len - 1);
      var b := BigEndian(x, len);
      assert b[..len - 1] == BigEndian(x / 256, len - 1);
    }
  }

  /** Numbers are in network order: the first byte weighs most. */
  lemma {:induction false} NetworkOrder(x: u8, b: seq<u8>)
    ensures FromBigEndian([x] + b) == x * Pow256(|b|) + FromBigEndian(b)
  {
    var all, n := [x] + b, |b|;
    if n == 0 {
      assert all[..0] == [] && b == [];
    } else {
      var init := b[..n - 1];
      NetworkOrder(x, init);
      assert all[..n] == [x] + init;
      Weighed(x, Pow256(n - 1), FromBigEndian(init), b[n - 1]);
    }
  }

  lemma Weighed(x: int, w: int, rest: int, last: int)
    ensures 256 * (x * w + rest) + last == x * (256 * w) + (256 * rest + last)
  {
    assert 256 * (x * w) == x * (256 * w);
  }

  lemma Pow256Eight()
    ensures Pow256(8) == 0x1_0000_0000_0000_0000
  {
  }

  /** A 64-bit word read as a signed time. */
  function Signed(x: int): int
  {
    if x < 0x8000_0000_0000_0000 then x else x - 0x1_0000_0000_0000_0000
  }

  predicate SignedTime(t: int)
  {
    -0x8000_0000_0000_0000 <= t < 0x8000_0000_0000_0000
  }

  /** Times that can be stored: the clock and the expiry are 64-bit signed times. */
  predicate InTime(now: int, ttl: int)
  {
    SignedTime(now) && SignedTime(now + ttl)
  }

  lemma SignedWord(t: int)
    requires SignedTime(t)
    ensures Signed(U64(t)) == t && 0 <= U64(t) < Pow256(8)
  {
    Pow256Eight();
  }

  /** The sum of two words wraps as the sum of the numbers in them. */
  lemma SumWraps(a: int, b: int)
    ensures U64(U64(a) + U64(b)) == U64(a + b)
  {
    var m := 0x1_0000_0000_0000_0000;
    assert U64(a) + U64(b) == a + b - (a / m + b / m) * m;
  }

  // ----- What the wire carries -----

  /** The limits the parser keeps TTLs to, and the TTL written for a record whose time has passed. */
  datatype Limits = Limits(minTtl: int, maxTtl: int, minNegTtl: int, maxNegTtl: int, expiredReplyTtl: int)

  datatype Config = Config(serveExpired: bool, serveExpiredTtl: int, noStore: bool, limits: Limits)

  /** What the configuration parser admits: a number, or zero. */
  predicate Sane(l: Limits)
  {
    && 0 <= l.minTtl < 0x8000_0000 && 0 <= l.maxTtl < 0x8000_0000
    && 0 <= l.minNegTtl < 0x8000_0000 && 0 <= l.maxNegTtl < 0x8000_0000 && 0 <= l.expiredReplyTtl < 0x8000_0000
  }

  /** The DNS wire format, the room there is for it, and the minimum in the SOA record of a negative
      answer: `soa(content, i, j)` if that is what record j of RRset i is. */
  datatype Wire = Wire(encode: Reply -> Option<seq<u8>>, decode: seq<u8> -> Option<Reply>, capacity: nat,
                       soa: (nat, nat, nat) -> Option<nat>)

  /** The TTL of a reply without records. */
  const NORR_TTL := 5

  function Min(a: int, b: int): int
  {
    if b < a then b else a
  }

  function Max(a: int, b: int): int
  {
    if b > a then b else a
  }

  /** The 32-bit TTL the encoder writes for a record. */
  function Written(cfg: Config, ttl: int): int
  {
    if ttl < 0 then (if cfg.serveExpired then cfg.limits.expiredReplyTtl else 0) else ttl % 0x1_0000_0000
  }

  /** The TTL the parser reads, which takes the top bit for a sign and keeps to the limits. */
  function Limited(l: Limits, soa: Option<nat>, written: int): int
  {
    var ttl := if written >= 0x8000_0000 then 0 else written;
    match soa
    case None => Min(Max(ttl, l.minTtl), l.maxTtl)
    case Some(minimum) =>
      var low := Min(ttl, minimum);
      var kept := Min(Min(if l.minNegTtl <= 0 then Max(low, l.minTtl) else low, l.maxTtl), l.maxNegTtl);
      if l.minNegTtl > 0 then Max(kept, l.minNegTtl) else kept
  }

  function RecordTtl(cfg: Config, soa: Option<nat>, ttl: int): int
  {
    Limited(cfg.limits, soa, Written(cfg, ttl))
  }

  /** The smallest of some TTLs, and at most `most`. */
  function Least(most: int, ttls: seq<int>): (r: int)
    ensures r <= most && forall i :: 0 <= i < |ttls| ==> r <= ttls[i]
    ensures r == most || r in ttls
  {
    if ttls == [] then most else Min(Least(most, ttls[..|ttls| - 1]), ttls[|ttls| - 1])
  }

  function Records(w: Wire, cfg: Config, content: nat, i: nat, ttls: seq<int>): (r: seq<int>)
    ensures |r| == |ttls|
  {
    seq(|ttls|, j requires 0 <= j < |ttls| => RecordTtl(cfg, w.soa(content, i, j), ttls[j]))
  }

  function RRsets(w: Wire, cfg: Config, m: Reply): (r: seq<RRset>)
    ensures |r| == |m.rrsets|
  {
    seq(|m.rrsets|, i requires 0 <= i < |m.rrsets| =>
      var ttls := Records(w, cfg, m.content, i, m.rrsets[i].rrTtl);
      RRset(Least(cfg.limits.maxTtl, ttls), ttls, 0))
  }

  function Ttls(s: seq<RRset>): (r: seq<int>)
    ensures |r| == |s|
  {
    seq(|s|, i requires 0 <= i < |s| => s[i].ttl)
  }

  /** The message the parser makes of what the encoder wrote. */
  function Carried(w: Wire, cfg: Config, m: Reply): Reply
  {
    var s := RRsets(w, cfg, m);
    m.(ttl := if s == [] then NORR_TTL else Least(cfg.limits.maxTtl, Ttls(s)), rrsets := s)
  }

  /** What is assumed of the wire format: what was written is read, and has a header. */
  ghost predicate Faithful(w: Wire, cfg: Config)
  {
    forall m :: w.encode(m).Some? ==>
      |w.encode(m).value| >= 12 && w.decode(w.encode(m).value) == Some(Carried(w, cfg, m))
  }

  lemma RecordTtlRange(cfg: Config, soa: Option<nat>, ttl: int)
    requires Sane(cfg.limits)
    ensures 0 <= RecordTtl(cfg, soa, ttl) < 0x8000_0000
  {
  }

  lemma LimitedAgain(cfg: Config, soa: Option<nat>, ttl: int)
    requires Sane(cfg.limits)
    ensures RecordTtl(cfg, soa, RecordTtl(cfg, soa, ttl)) == RecordTtl(cfg, soa, ttl)
  {
    hide Written;
    var r := RecordTtl(cfg, soa, ttl);
    RecordTtlRange(cfg, soa, ttl);
    SmallWritten(cfg, r);
  }

  lemma SmallWritten(cfg: Config, ttl: int)
    requires 0 <= ttl < 0x8000_0000
    ensures Written(cfg, ttl) == ttl
  {
  }

  /** A message as the parser makes it crosses the wire unchanged. */
  lemma ParsedIsCarried(w: Wire, cfg: Config, m: Reply)
    requires Sane(cfg.limits)
    ensures Carried(w, cfg, Carried(w, cfg, m)) == Carried(w, cfg, m)
  {
    hide Limited, Written, RecordTtl, Least;
    var c := Carried(w, cfg, m);
    var d := Carried(w, cfg, c);
    forall i | 0 <= i < |c.rrsets| ensures d.rrsets[i] == c.rrsets[i] {
      var t := c.rrsets[i].rrTtl;
      forall j | 0 <= j < |t| ensures d.rrsets[i].rrTtl[j] == t[j] {
        LimitedAgain(cfg, w.soa(m.content, i, j), m.rrsets[i].rrTtl[j]);
      }
      assert d.rrsets[i].rrTtl == t;
    }
    assert d.rrsets == c.rrsets;
  }

  /** The least TTL the parser gives a record. */
  function Floor(l: Limits, soa: Option<nat>): int
  {
    if soa.None? then Min(l.minTtl, l.maxTtl)
    else if l.minNegTtl > 0 then l.minNegTtl
    else Min(Min(l.minTtl, l.maxTtl), l.maxNegTtl)
  }

  /** The wire lengthens a record's time exactly if it is below the parser's lower limit. */
  lemma NeverLonger(cfg: Config, soa: Option<nat>, ttl: int)
    requires Sane(cfg.limits) && 0 <= ttl < 0x8000_0000
    ensures RecordTtl(cfg, soa, ttl) <= ttl <==> Floor(cfg.limits, soa) <= ttl
  {
    SmallWritten(cfg, ttl);
  }

  /** The wire does not lengthen the time of the message, or leaves it none. */
  predicate NotLonger(w: Wire, cfg: Config, m: Reply)
  {
    Carried(w, cfg, m).ttl == 0 || Carried(w, cfg, m).ttl <= m.ttl
  }

  /** Record j of RRset i comes out of the parser with a TTL of at most `most`. */
  predicate RecordAtMost(w: Wire, cfg: Config, m: Reply, most: int, i: nat, j: nat)
  {
    && i < |m.rrsets| && j < |m.rrsets[i].rrTtl|
    && RecordTtl(cfg, w.soa(m.content, i, j), m.rrsets[i].rrTtl[j]) <= most
  }

  /** The TTL the parser makes is at most `most` exactly if one of its records has such a TTL, or the upper
      limit is that low; a message without records has its own. */
  lemma CarriedAtMost(w: Wire, cfg: Config, m: Reply, most: int)
    ensures Carried(w, cfg, m).ttl <= most <==>
      if m.rrsets == [] then NORR_TTL <= most
      else cfg.limits.maxTtl <= most || exists i: nat, j: nat :: RecordAtMost(w, cfg, m, most, i, j)
  {
    hide RecordTtl;
    var b, l := Carried(w, cfg, m), cfg.limits.maxTtl;
    var t := Ttls(b.rrsets);
    forall i: nat, j: nat | RecordAtMost(w, cfg, m, most, i, j) ensures m.rrsets != [] && b.ttl <= most {
      assert b.rrsets[i].rrTtl[j] == RecordTtl(cfg, w.soa(m.content, i, j), m.rrsets[i].rrTtl[j]);
      assert t[i] == b.rrsets[i].ttl == Least(l, b.rrsets[i].rrTtl);
      assert b.ttl <= t[i];
    }
    if m.rrsets != [] && b.ttl <= most && most < l {
      var i: nat :| i < |t| && t[i] == b.ttl;
      var r := b.rrsets[i].rrTtl;
      assert t[i] == Least(l, r);
      var j: nat :| j < |r| && r[j] == b.ttl;
      assert RecordAtMost(w, cfg, m, most, i, j);
    }
  }

  /** A message stored with the TTL of one of its records is not lengthened if that record is not. */
  lemma ShortestKept(w: Wire, cfg: Config, m: Reply, i: nat, j: nat)
    requires Sane(cfg.limits) && 0 <= m.ttl < 0x8000_0000
    requires i < |m.rrsets| && j < |m.rrsets[i].rrTtl| && m.rrsets[i].rrTtl[j] == m.ttl
    requires Floor(cfg.limits, w.soa(m.content, i, j)) <= m.ttl
    ensures NotLonger(w, cfg, m)
  {
    hide RecordTtl, Carried, Floor;
    NeverLonger(cfg, w.soa(m.content, i, j), m.ttl);
    assert RecordAtMost(w, cfg, m, m.ttl, i, j);
    CarriedAtMost(w, cfg, m, m.ttl);
  }

  // ----- Entries -----

  /** The bytes of an entry: the message, when it was stored, when it expires. */
  function Entry(w: Wire, m: Reply, now: int): seq<u8>
    requires w.encode(m).Some?
  {
    w.encode(m).value + BigEndian(U64(now), 8) + BigEndian(U64(U64(now) + U64(m.ttl)), 8)
  }

  /** Whether a reply is to be stored: its code is NOERROR, NXDOMAIN or YXDOMAIN, it has some time to live
      unless expired replies are served, and it fits. */
  predicate Storable(w: Wire, cfg: Config, m: Reply)
  {
    && (m.rcode == 0 || m.rcode == 3 || m.rcode == 6) && (m.ttl != 0 || cfg.serveExpired)
    && w.encode(m).Some? && |w.encode(m).value| + 16 < w.capacity
  }

  /** The entry for a reply, or none. */
  function PrepData(w: Wire, cfg: Config, now: int, m: Option<Reply>): Option<seq<u8>>
  {
    if m.None? || !Cacheable(m.value.rcode) || (m.value.ttl == 0 && !cfg.serveExpired) then None
    else if w.encode(m.value).None? || |w.encode(m.value).value| + 16 >= w.capacity then None
    else Some(Entry(w, m.value, now))
  }

  function Timestamp(buf: seq<u8>): int
    requires |buf| >= 16
  {
    Signed(FromBigEndian(buf[|buf| - 16..|buf| - 8]))
  }

  function Expiry(buf: seq<u8>): int
    requires |buf| >= 8
  {
    Signed(FromBigEndian(buf[|buf| - 8..]))
  }

  /** Whether an entry that ends at `expiry` is used at `now`. */
  predicate Usable(cfg: Config, expiry: int, now: int)
  {
    now <= expiry || (cfg.serveExpired && (cfg.serveExpiredTtl == 0 || now - expiry <= cfg.serveExpiredTtl))
  }

  predicate GoodExpiry(cfg: Config, now: int, buf: seq<u8>)
  {
    |buf| >= 8 &&
    !(Expiry(buf) < now &&
      (!cfg.serveExpired || (cfg.serveExpiredTtl != 0 && now - Expiry(buf) > cfg.serveExpiredTtl)))
  }

  /** What parsing an entry gives: whether it serves, the message left in the query, whether it was
      expired, and whether it should be fetched again. */
  datatype Lookup = Lookup(ok: bool, msg: Option<Reply>, expired: bool, refetch: bool)

  /** A message, as it was parsed, given back at `now`. */
  function Recall(cfg: Config, m: Reply, stored: int, expiry: int, now: int): Lookup
  {
    if now <= stored then Lookup(true, Some(m), false, false)
    else if m.ttl >= now - stored then
      Lookup(true, Some(Adjusted(m, now - stored)), false, cfg.serveExpired && expiry < now)
    else if cfg.serveExpired && Cacheable(m.rcode) then Lookup(true, Some(Adjusted(m, -1)), true, true)
    else Lookup(false, Some(m), true, false)
  }

  function ParseData(w: Wire, cfg: Config, now: int, buf: seq<u8>): Lookup
  {
    if |buf| < 28 || w.decode(buf[..|buf| - 16]).None? then Lookup(false, None, false, false)
    else Recall(cfg, w.decode(buf[..|buf| - 16]).value, Timestamp(buf), Expiry(buf), now)
  }

  /** An entry too short for a header and the two times, or whose message does not parse, is refused. */
  lemma MalformedRefused(w: Wire, cfg: Config, now: int, buf: seq<u8>)
    requires |buf| < 12 + 8 + 8 || w.decode(buf[..|buf| - 16]) == None
    ensures ParseData(w, cfg, now, buf) == Lookup(false, None, false, false)
  {
  }

  /** The message, its time and its expiry can be read back from an entry. */
  lemma EntryReads(w: Wire, cfg: Config, m: Reply, now: int)
    requires Faithful(w, cfg) && w.encode(m).Some? && InTime(now, m.ttl)
    ensures var e := Entry(w, m, now);
      && |e| >= 28 && w.decode(e[..|e| - 16]) == Some(Carried(w, cfg, m))
      && Timestamp(e) == now && Expiry(e) == now + m.ttl
  {
    hide BigEndian, FromBigEndian, Pow256, Carried, Signed, SignedTime, U64;
    var e, a := Entry(w, m, now), w.encode(m).value;
    var t, x := BigEndian(U64(now), 8), BigEndian(U64(U64(now) + U64(m.ttl)), 8);
    SignedWord(now);
    SignedWord(now + m.ttl);
    SumWraps(now, m.ttl);
    BigEndianInverse(U64(now), 8);
    BigEndianInverse(U64(now + m.ttl), 8);
    assert e[..|e| - 16] == a && e[|e| - 16..|e| - 8] == t && e[|e| - 8..] == x;
  }

  // ----- What one lookup promises -----

  predicate KnownCode(rcode: nat)
  {
    rcode == 0 || rcode == 3 || rcode == 6
  }

  /** One store: what was stored when. */
  datatype Stored = Stored(msg: Reply, now: int)

  /** What a lookup finds of a store, said of the message and the times, not of the bytes. */
  function Recalled(w: Wire, cfg: Config, s: Stored, now: int): Lookup
  {
    if Usable(cfg, s.now + s.msg.ttl, now) then Recall(cfg, Carried(w, cfg, s.msg), s.now, s.now + s.msg.ttl, now)
    else Lookup(false, None, false, false)
  }

  /** Checking the expiry of an entry and parsing it is recalling the store. */
  lemma LookupRecalls(w: Wire, cfg: Config, s: Stored, now: int)
    requires Faithful(w, cfg) && w.encode(s.msg).Some? && InTime(s.now, s.msg.ttl)
    ensures var e := Entry(w, s.msg, s.now);
      Recalled(w, cfg, s, now)
      == if GoodExpiry(cfg, now, e) then ParseData(w, cfg, now, e) else Lookup(false, None, false, false)
  {
    hide Entry, Timestamp, Expiry, Carried, Recall;
    EntryReads(w, cfg, s.msg, s.now);
  }

  /** The time since an entry was stored; none if the clock went back. */
  function Elapsed(stored: int, now: int): nat
  {
    if now > stored then now - stored else 0
  }

  /** Every TTL of a message is 0. */
  ghost predicate AllZero(m: Reply)
  {
    && m.ttl == 0 && (forall i :: 0 <= i < |m.rrsets| ==> m.rrsets[i].ttl == 0)
    && (forall i, j :: 0 <= i < |m.rrsets| && 0 <= j < |m.rrsets[i].rrTtl| ==> m.rrsets[i].rrTtl[j] == 0)
  }

  /** The same message but for its TTLs. */
  ghost predicate SameBut(a: Reply, b: Reply)
  {
    && a.rcode == b.rcode && a.content == b.content && |a.rrsets| == |b.rrsets|
    && forall i :: 0 <= i < |a.rrsets| ==> |a.rrsets[i].rrTtl| == |b.rrsets[i].rrTtl|
  }

  /** What is left of a TTL after some time. */
  predicate Left(a: int, b: int, elapsed: nat)
  {
    if b > elapsed then a + elapsed == b else a == 0
  }

  /** Every TTL of `a` is what is left of that of `b` after `elapsed`. */
  ghost predicate Aged(a: Reply, b: Reply, elapsed: nat)
    requires SameBut(a, b)
  {
    && Left(a.ttl, b.ttl, elapsed)
    && (forall i :: 0 <= i < |a.rrsets| ==> Left(a.rrsets[i].ttl, b.rrsets[i].ttl, elapsed))
    && (forall i, j :: 0 <= i < |a.rrsets| && 0 <= j < |a.rrsets[i].rrTtl| ==>
          Left(a.rrsets[i].rrTtl[j], b.rrsets[i].rrTtl[j], elapsed))
  }

  /** No TTL of `a`, counted from `now`, reaches past that of `b` counted from `stored`. */
  ghost predicate Within(a: Reply, b: Reply, stored: int, now: int)
    requires SameBut(a, b)
  {
    && Ends(a.ttl, b.ttl, stored, now)
    && (forall i :: 0 <= i < |a.rrsets| ==> Ends(a.rrsets[i].ttl, b.rrsets[i].ttl, stored, now))
    && (forall i, j :: 0 <= i < |a.rrsets| && 0 <= j < |a.rrsets[i].rrTtl| ==>
          Ends(a.rrsets[i].rrTtl[j], b.rrsets[i].rrTtl[j], stored, now))
  }

  predicate Ends(a: int, b: int, stored: int, now: int)
  {
    a == 0 || now + a <= stored + b
  }

  /** The reply `a`, given at `now`, is the message `b` that was parsed from what was stored at
      `stored`, grown older: aged while it has not expired, and with every TTL 0 after that. */
  ghost predicate Safe(a: Reply, b: Reply, stored: int, now: int)
  {
    && SameBut(a, b) && (a.rcode == 0 || a.rcode == 3 || a.rcode == 6) && Within(a, b, stored, now)
    && (now <= stored + b.ttl ==> Aged(a, b, Elapsed(stored, now)))
    && (now > stored + b.ttl ==> AllZero(a))
  }

  lemma AdjustedAged(m: Reply, stored: int, now: int)
    requires now > stored
    ensures var a := Adjusted(m, now - stored);
      SameBut(a, m) && Aged(a, m, now - stored) && Within(a, m, stored, now)
  {
    var a := Adjusted(m, now - stored);
    forall i | 0 <= i < |m.rrsets| ensures a.rrsets[i] == Subtracted(m.rrsets[i], now - stored) {
    }
  }

  /** What adjusting leaves, field by field: of each TTL what is left, or 0 for a negative time; and of the
      time that was added to it what is left, or that time more. */
  lemma AdjustedExactly(m: Reply, adjust: int, i: nat)
    requires i < |m.rrsets|
    ensures var a, r := Adjusted(m, adjust), m.rrsets[i];
      && |a.rrsets| == |m.rrsets| && |a.rrsets[i].rrTtl| == |r.rrTtl|
      && (adjust >= 0 ==> Left(a.ttl, m.ttl, adjust) && Left(a.rrsets[i].ttl, r.ttl, adjust))
      && (adjust >= 0 ==> forall j :: 0 <= j < |r.rrTtl| ==> Left(a.rrsets[i].rrTtl[j], r.rrTtl[j], adjust))
      && (adjust < 0 ==> a.ttl == 0 && a.rrsets[i].ttl == 0)
      && (adjust < 0 ==> forall j :: 0 <= j < |r.rrTtl| ==> a.rrsets[i].rrTtl[j] == 0)
      && (r.ttlAdd > adjust ==> a.rrsets[i].ttlAdd + adjust == r.ttlAdd)
      && (r.ttlAdd <= adjust ==> a.rrsets[i].ttlAdd == 0)
  {
    var a := Adjusted(m, adjust);
    assert a.rrsets[i] == Subtracted(m.rrsets[i], adjust);
  }

  lemma ExpiredZero(m: Reply, stored: int, now: int)
    ensures var a := Adjusted(m, -1); SameBut(a, m) && AllZero(a) && Within(a, m, stored, now)
  {
    var a := Adjusted(m, -1);
    forall i | 0 <= i < |m.rrsets| ensures a.rrsets[i] == Subtracted(m.rrsets[i], -1) {
    }
  }

  lemma CarriedAged(w: Wire, cfg: Config, m: Reply, stored: int, now: int)
    requires Sane(cfg.limits) && now <= stored
    ensures var b := Carried(w, cfg, m); b.ttl >= 0 && SameBut(b, b) && Aged(b, b, 0) && Within(b, b, stored, now)
  {
    hide RecordTtl;
    var b := Carried(w, cfg, m);
    forall i, j | 0 <= i < |b.rrsets| && 0 <= j < |b.rrsets[i].rrTtl| ensures b.rrsets[i].rrTtl[j] >= 0 {
      RecordTtlRange(cfg, w.soa(m.content, i, j), m.rrsets[i].rrTtl[j]);
    }
    forall i | 0 <= i < |b.rrsets| ensures b.rrsets[i].ttl >= 0 {
      assert Least(cfg.limits.maxTtl, b.rrsets[i].rrTtl) >= 0;
    }
  }

  /** Whether a store serves that ends at `byExpiry` and, by the TTL the parser gives it, at `byTtl`: it may
      serve after that if expired replies are served, and for as long as is configured. */
  predicate InService(cfg: Config, byExpiry: int, byTtl: int, now: int)
  {
    && (now <= byTtl || cfg.serveExpired)
    && (now <= byExpiry
        || (cfg.serveExpired && (cfg.serveExpiredTtl == 0 || now <= byExpiry + cfg.serveExpiredTtl)))
  }

  /** What is recalled of a store is safe. It is refused exactly if it ended too long ago, or if it is
      expired by its TTL and expired replies are not served. */
  lemma RecalledSafe(w: Wire, cfg: Config, s: Stored, now: int)
    requires Sane(cfg.limits) && KnownCode(s.msg.rcode)
    ensures var p := Recalled(w, cfg, s, now); var b := Carried(w, cfg, s.msg); var expiry := s.now + s.msg.ttl;
      && (p.ok <==> InService(cfg, expiry, s.now + b.ttl, now))
      && (p.ok ==> p.msg.Some? && Safe(p.msg.value, b, s.now, now))
      && (!p.ok ==> !p.refetch
                    && p.msg == if !cfg.serveExpired && s.now + b.ttl < now <= expiry then Some(b) else None)
      && (p.ok ==> (p.expired <==> now > s.now + b.ttl))
      && (p.ok ==> (p.refetch <==> cfg.serveExpired && now > s.now && (now > s.now + b.ttl || now > expiry)))
  {
    hide RRsets, Least, Aged, AllZero, Within, Subtracted;
    var b := Carried(w, cfg, s.msg);
    ExpiredZero(b, s.now, now);
    if now > s.now {
      AdjustedAged(b, s.now, now);
    } else {
      CarriedAged(w, cfg, s.msg, s.now, now);
    }
  }

  /** No TTL in a message is beyond `elapsed`. */
  ghost predicate NoneBeyond(m: Reply, elapsed: nat)
  {
    && (forall i :: 0 <= i < |m.rrsets| ==> m.rrsets[i].ttl <= elapsed)
    && (forall i, j :: 0 <= i < |m.rrsets| && 0 <= j < |m.rrsets[i].rrTtl| ==> m.rrsets[i].rrTtl[j] <= elapsed)
  }

  /** What a served reply is worth: every record has its own remaining time exactly if the message has
      not expired, or no record's TTL is more than the time that passed. */
  lemma AgedExactly(w: Wire, cfg: Config, m: Reply, stored: int, now: int)
    requires Faithful(w, cfg) && Sane(cfg.limits) && Storable(w, cfg, m) && InTime(stored, m.ttl)
    ensures var e := Entry(w, m, stored); var p := ParseData(w, cfg, now, e); var b := Carried(w, cfg, m);
      GoodExpiry(cfg, now, e) && p.ok ==>
        p.msg.Some? && SameBut(p.msg.value, b)
        && (Aged(p.msg.value, b, Elapsed(stored, now))
            <==> now <= stored + b.ttl || NoneBeyond(b, Elapsed(stored, now)))
  {
    hide Entry, ParseData, GoodExpiry, Recalled, Carried, SameBut, Within, AllZero, Aged, NoneBeyond;
    var s := Stored(m, stored);
    LookupRecalls(w, cfg, s, now);
    RecalledSafe(w, cfg, s, now);
    var p, b := Recalled(w, cfg, s, now), Carried(w, cfg, m);
    if p.ok && now > stored + b.ttl {
      ZeroIsAged(p.msg.value, b, Elapsed(stored, now));
    }
  }

  lemma ZeroIsAged(a: Reply, b: Reply, elapsed: nat)
    requires SameBut(a, b) && AllZero(a) && b.ttl < elapsed
    ensures Aged(a, b, elapsed) <==> NoneBeyond(b, elapsed)
  {
    if Aged(a, b, elapsed) {
      forall i | 0 <= i < |b.rrsets| ensures b.rrsets[i].ttl <= elapsed {
        assert Left(a.rrsets[i].ttl, b.rrsets[i].ttl, elapsed);
      }
      forall i, j | 0 <= i < |b.rrsets| && 0 <= j < |b.rrsets[i].rrTtl| ensures b.rrsets[i].rrTtl[j] <= elapsed {
        assert Left(a.rrsets[i].rrTtl[j], b.rrsets[i].rrTtl[j], elapsed);
      }
    }
  }

  /** The limits a resolver has that is not told otherwise. */
  const DEFAULTS := Limits(0, 864000, 0, 3600, 30)

  /** A message of two records, one with TTL 1 and one with TTL 10, served 5 seconds later: the second
      record has 5 seconds left and is given 0. */
  lemma RecordOutlivesMessage(w: Wire, cfg: Config, m: Reply)
    requires Faithful(w, cfg) && cfg == Config(true, 0, false, DEFAULTS)
    requires m == Reply(NOERROR, 1, [RRset(1, [1], 0), RRset(10, [10], 0)], 0) && Storable(w, cfg, m)
    requires w.soa(0, 0, 0) == None && w.soa(0, 1, 0) == None
    ensures var e := Entry(w, m, 0); var p := ParseData(w, cfg, 5, e);
      && Carried(w, cfg, m) == m && GoodExpiry(cfg, 5, e) && p.ok && p.msg.Some? && SameBut(p.msg.value, m)
      && p.msg.value.rrsets[1].rrTtl[0] == 0 && Left(5, m.rrsets[1].rrTtl[0], Elapsed(0, 5))
  {
    hide Entry, ParseData, GoodExpiry, Recalled, Carried, Within, Aged;
    TwoRecordsCarried(w, cfg, m);
    LookupRecalls(w, cfg, Stored(m, 0), 5);
    RecalledSafe(w, cfg, Stored(m, 0), 5);
  }

  lemma TwoRecordsCarried(w: Wire, cfg: Config, m: Reply)
    requires cfg.limits == DEFAULTS && m == Reply(NOERROR, 1, [RRset(1, [1], 0), RRset(10, [10], 0)], 0)
    requires w.soa(0, 0, 0) == None && w.soa(0, 1, 0) == None
    ensures Carried(w, cfg, m) == m
  {
    assert Records(w, cfg, 0, 0, [1]) == [1] && Records(w, cfg, 0, 1, [10]) == [10];
    var s := RRsets(w, cfg, m);
    assert s[0] == RRset(1, [1], 0) && s[1] == RRset(10, [10], 0);
    assert s == m.rrsets && Ttls(s) == [1, 10];
    assert [1, 10][0] == 1 && Least(864000, [1, 10]) == 1;
  }

  /** The test on the TTL and the test on the expiry agree at all times exactly if the parser makes
      the TTL the message was stored with (or if both say it was over at once). */
  lemma TestsAgree(w: Wire, cfg: Config, m: Reply, stored: int)
    requires Faithful(w, cfg) && Sane(cfg.limits) && Storable(w, cfg, m) && InTime(stored, m.ttl)
    ensures var e := Entry(w, m, stored);
      |e| >= 8
      && ((forall now :: ParseData(w, cfg, now, e).expired <==> now > stored && now > Expiry(e))
          <==> Carried(w, cfg, m).ttl == m.ttl || (Carried(w, cfg, m).ttl == 0 && m.ttl <= 0))
  {
    hide Entry, Timestamp, Expiry, Carried, Adjusted, Aged, Within;
    var e, b := Entry(w, m, stored), Carried(w, cfg, m);
    EntryReads(w, cfg, m, stored);
    CarriedAged(w, cfg, m, stored, stored);
    forall now ensures ParseData(w, cfg, now, e).expired <==> now > stored && now > stored + b.ttl {
    }
    if forall now :: ParseData(w, cfg, now, e).expired <==> now > stored && now > Expiry(e) {
      var t := stored + Max(b.ttl, m.ttl);
      assert ParseData(w, cfg, t, e).expired <==> t > stored && t > Expiry(e);
    }
  }

  /** A reply without records that was stored for 60 seconds: 10 seconds later its expiry admits it, and
      its TTL, which the parser makes 5, refuses it. */
  lemma NoRecordsRefused(w: Wire, cfg: Config, m: Reply)
    requires Faithful(w, cfg) && cfg == Config(false, 0, false, DEFAULTS)
    requires m == Reply(NOERROR, 60, [], 0) && Storable(w, cfg, m)
    ensures var e := Entry(w, m, 0); GoodExpiry(cfg, 10, e) && !ParseData(w, cfg, 10, e).ok
  {
    hide Entry, Timestamp, Expiry;
    EntryReads(w, cfg, m, 0);
  }

  // ----- The expiry recorded at the store -----

  /** What is served is not promised for longer than `expiry`. */
  predicate WithinExpiry(p: Lookup, expiry: int, now: int)
  {
    p.ok ==> p.msg.Some? && (p.msg.value.ttl == 0 || now + p.msg.value.ttl <= expiry)
  }

  lemma RecalledWithin(w: Wire, cfg: Config, s: Stored, now: int)
    requires Sane(cfg.limits) && KnownCode(s.msg.rcode) && NotLonger(w, cfg, s.msg)
    ensures WithinExpiry(Recalled(w, cfg, s, now), s.now + s.msg.ttl, now)
  {
    hide Carried, Recalled;
    RecalledSafe(w, cfg, s, now);
  }

  lemma RecalledBeyond(w: Wire, cfg: Config, s: Stored)
    requires Sane(cfg.limits) && KnownCode(s.msg.rcode) && !NotLonger(w, cfg, s.msg)
    ensures var now := s.now + Min(s.msg.ttl, 0); !WithinExpiry(Recalled(w, cfg, s, now), s.now + s.msg.ttl, now)
  {
    hide Carried, Aged, Within;
    CarriedAged(w, cfg, s.msg, s.now, s.now);
  }

  /** No reply from an entry is promised for longer than the expiry recorded in it, whenever it is asked
      for, exactly if the wire does not lengthen the time of the message. */
  lemma ExpiryKept(w: Wire, cfg: Config, m: Reply, stored: int)
    requires Faithful(w, cfg) && Sane(cfg.limits) && Storable(w, cfg, m) && InTime(stored, m.ttl)
    ensures var e := Entry(w, m, stored);
      |e| >= 8
      && ((forall now :: GoodExpiry(cfg, now, e) ==> WithinExpiry(ParseData(w, cfg, now, e), Expiry(e), now))
          <==> NotLonger(w, cfg, m))
  {
    hide Entry, ParseData, GoodExpiry, Recalled, Expiry, NotLonger;
    var e, s := Entry(w, m, stored), Stored(m, stored);
    EntryReads(w, cfg, m, stored);
    forall now ensures WithinExpiry(Recalled(w, cfg, s, now), stored + m.ttl, now)
      <==> (GoodExpiry(cfg, now, e) ==> WithinExpiry(ParseData(w, cfg, now, e), Expiry(e), now))
    {
      LookupRecalls(w, cfg, s, now);
    }
    if NotLonger(w, cfg, m) {
      forall now ensures WithinExpiry(Recalled(w, cfg, s, now), stored + m.ttl, now) {
        RecalledWithin(w, cfg, s, now);
      }
    } else {
      RecalledBeyond(w, cfg, s);
    }
  }

  /** Record j of RRset i, as served, is not promised beyond its own end. */
  ghost predicate RecordWithin(p: Lookup, s: Stored, i: nat, j: nat, now: int)
    requires i < |s.msg.rrsets| && j < |s.msg.rrsets[i].rrTtl|
  {
    p.ok ==>
      && p.msg.Some? && SameBut(p.msg.value, s.msg)
      && Ends(p.msg.value.rrsets[i].rrTtl[j], s.msg.rrsets[i].rrTtl[j], s.now, now)
  }

  /** So it is with each record, whenever it is asked for, if it is not below the parser's lower limit, and
      only if, unless the message was over when it was stored. */
  lemma RecordKept(w: Wire, cfg: Config, s: Stored, i: nat, j: nat)
    requires Sane(cfg.limits) && KnownCode(s.msg.rcode) && i < |s.msg.rrsets| && j < |s.msg.rrsets[i].rrTtl|
    requires 0 <= s.msg.rrsets[i].rrTtl[j] < 0x8000_0000
    ensures var low := Floor(cfg.limits, w.soa(s.msg.content, i, j)) <= s.msg.rrsets[i].rrTtl[j];
      && (low ==> forall now :: RecordWithin(Recalled(w, cfg, s, now), s, i, j, now))
      && (!low && s.msg.ttl >= 0 ==> !RecordWithin(Recalled(w, cfg, s, s.now), s, i, j, s.now))
  {
    hide RecordTtl, Floor, Recalled, Least, AllZero;
    var b, ttl := Carried(w, cfg, s.msg), s.msg.rrsets[i].rrTtl[j];
    NeverLonger(cfg, w.soa(s.msg.content, i, j), ttl);
    assert b.rrsets[i].rrTtl[j] == RecordTtl(cfg, w.soa(s.msg.content, i, j), ttl);
    forall now ensures Recalled(w, cfg, s, now).ok ==>
      Recalled(w, cfg, s, now).msg.Some? && Safe(Recalled(w, cfg, s, now).msg.value, b, s.now, now)
    {
      RecalledSafe(w, cfg, s, now);
    }
    RecalledSafe(w, cfg, s, s.now);
    CarriedAged(w, cfg, s.msg, s.now, s.now);
  }

  /** A record stored with 10 seconds to live where the configuration sets an hour as the least TTL: 5
      seconds later it is served with 3595, though it was recorded to expire after 10. */
  lemma RaisedBeyondExpiry(w: Wire, cfg: Config, m: Reply)
    requires Faithful(w, cfg) && cfg == Config(false, 0, false, DEFAULTS.(minTtl := 3600))
    requires m == Reply(NOERROR, 10, [RRset(10, [10], 0)], 0) && Storable(w, cfg, m) && w.soa(0, 0, 0) == None
    ensures var e := Entry(w, m, 0); var p := ParseData(w, cfg, 5, e);
      |e| >= 8 && Expiry(e) == 10 && GoodExpiry(cfg, 5, e) && p.ok && p.msg.Some? && p.msg.value.ttl == 3595
  {
    hide Entry, Timestamp, Expiry, Carried;
    RaisedCarried(w, cfg, m);
    EntryReads(w, cfg, m, 0);
  }

  lemma RaisedCarried(w: Wire, cfg: Config, m: Reply)
    requires cfg.limits == DEFAULTS.(minTtl := 3600) && m == Reply(NOERROR, 10, [RRset(10, [10], 0)], 0)
    requires w.soa(0, 0, 0) == None
    ensures Carried(w, cfg, m).ttl == 3600 && Carried(w, cfg, m).rcode == NOERROR
  {
    assert Records(w, cfg, 0, 0, [10]) == [3600];
    var s := RRsets(w, cfg, m);
    assert [3600][..0] == [] && Least(864000, [3600]) == 3600;
    assert s[0].ttl == 3600 && Ttls(s) == [3600];
  }

  /** A reply without records stored for 1 second under the default limits: it is served at once with 5. */
  lemma NoRecordsBeyondExpiry(w: Wire, cfg: Config, m: Reply)
    requires Faithful(w, cfg) && cfg == Config(false, 0, false, DEFAULTS)
    requires m == Reply(NOERROR, 1, [], 0) && Storable(w, cfg, m)
    ensures var e := Entry(w, m, 0); var p := ParseData(w, cfg, 0, e);
      |e| >= 8 && Expiry(e) == 1 && GoodExpiry(cfg, 0, e) && p.ok && p.msg.Some? && p.msg.value.ttl == 5
  {
    hide Entry, Timestamp, Expiry;
    EntryReads(w, cfg, m, 0);
  }

  // ----- The module -----

  type Question = nat
  type Key = nat

  datatype ModuleState = Initial | WaitModule | Finished

  datatype ModuleEvent = NewEvent | PassEvent | ModDone | ErrorEvent | OtherEvent

  predicate IsQuery(e: ModuleEvent)
  {
    e == NewEvent || e == PassEvent
  }

  /** What an event leaves in a query: the message and its result code, whether it should be fetched
      again, whether it came from the external cache, and the module's state. */
  datatype Outcome =
    Outcome(msg: Option<Reply>, rcode: nat, refetch: bool, fromCache: bool, state: ModuleState)

  class Query {
    const question: Question
    const blacklist: bool
    const noCacheLookup: bool
    const noCacheStore: bool
    const timer: bool
    var returnMsg: Option<Reply>
    var returnRcode: nat
    var needRefetch: bool
    var isCachedbAnswer: bool
    var extState: ModuleState
    var started: bool

    constructor (question: Question, blacklist: bool, noCacheLookup: bool, noCacheStore: bool, timer: bool,
                 msg: Option<Reply>, started: bool)
      ensures this.question == question && this.blacklist == blacklist && this.noCacheLookup == noCacheLookup
      ensures this.noCacheStore == noCacheStore && this.timer == timer && this.started == started
      ensures View() == Outcome(msg, NOERROR, false, false, Initial)
    {
      this.question, this.blacklist, this.noCacheLookup := question, blacklist, noCacheLookup;
      this.noCacheStore, this.timer, this.started := noCacheStore, timer, started;
      returnMsg, returnRcode, needRefetch, isCachedbAnswer, extState := msg, NOERROR, false, false, Initial;
    }

    ghost function View(): Outcome
      reads this
    {
      Outcome(returnMsg, returnRcode, needRefetch, isCachedbAnswer, extState)
    }

    method Now() returns (r: Outcome)
      ensures r == View()
    {
      r := Outcome(returnMsg, returnRcode, needRefetch, isCachedbAnswer, extState);
    }
  }

  /** What a query event makes of a query: `held` is what the cache holds under its hash, `internal`
      what the internal cache answers. */
  function AfterQuery(w: Wire, cfg: Config, lookup: bool, timer: bool, held: Option<Stored>, internal: Option<Reply>,
                      now: int, was: Outcome): Outcome
  {
    if !lookup then was.(fromCache := false, state := WaitModule)
    else if internal.Some? then Outcome(internal, NOERROR, was.refetch, false, Finished)
    else if held.None? then was.(fromCache := false, state := WaitModule)
    else
      var p := Recalled(w, cfg, held.value, now);
      var refetch := was.refetch || p.refetch;
      if p.ok && refetch && timer then Outcome(None, NOERROR, true, false, WaitModule)
      else if p.ok then Outcome(p.msg, NOERROR, refetch, true, Finished)
      else if p.msg.Some? then Outcome(p.msg, NOERROR, was.refetch, false, WaitModule)
      else was.(fromCache := false, state := WaitModule)
  }

  /** What any other event makes of it. */
  function AfterOther(started: bool, e: ModuleEvent, outbound: bool, was: Outcome): Outcome
  {
    if started && e == ModDone then was.(fromCache := false, state := Finished)
    else if started && outbound then was
    else if e == ModDone then was.(state := Finished)
    else was.(msg := None, rcode := SERVFAIL, state := Finished)
  }

  class Cache {
    const w: Wire
    const cfg: Config
    const enabled: bool
    const hash: Question -> Key
    var backend: map<Key, seq<u8>>
    ghost var held: map<Key, Stored>

    constructor (w: Wire, cfg: Config, enabled: bool, hash: Question -> Key)
      requires Faithful(w, cfg) && Sane(cfg.limits)
      ensures Valid() && this.w == w && this.cfg == cfg && this.enabled == enabled && this.hash == hash && held == map[]
    {
      this.w, this.cfg, this.enabled, this.hash, backend, held := w, cfg, enabled, hash, map[], map[];
    }

    /** The backend has, under each key, the entry of the store held there, which was fit to be made. */
    ghost predicate Valid()
      reads this
    {
      && Faithful(w, cfg) && Sane(cfg.limits) && backend.Keys == held.Keys
      && forall k :: k in held ==> GoodStore(w, cfg, held[k]) && backend[k] == Entry(w, held[k].msg, held[k].now)
    }

    ghost function Held(k: Key): Option<Stored>
      reads this
    {
      if k in held then Some(held[k]) else None
    }

    /** The backend may lose an entry at any time. */
    method Forget(k: Key)
      requires Valid()
      modifies this
      ensures Valid() && backend == old(backend) - {k} && held == old(held) - {k}
    {
      backend, held := backend - {k}, held - {k};
    }

    method ExtcacheStore(q: Query, now: int)
      requires Valid() && (q.returnMsg.Some? ==> InTime(now, q.returnMsg.value.ttl))
      modifies this
      ensures Valid()
      ensures if q.returnMsg.Some? && Storable(w, cfg, q.returnMsg.value) then
          && backend == old(backend)[hash(q.question) := Entry(w, q.returnMsg.value, now)]
          && held == old(held)[hash(q.question) := Stored(q.returnMsg.value, now)]
        else backend == old(backend) && held == old(held)
    {
      hide Faithful, Sane, Entry;
      var e := PrepData(w, cfg, now, q.returnMsg);
      if e.None? { return; }
      var k := hash(q.question);
      backend := backend[k := e.value];
      held := held[k := Stored(q.returnMsg.value, now)];
    }

    /** Looks the question up in the backend, leaving the message in the query. */
    method ExtcacheLookup(q: Query, now: int) returns (ok: bool, expired: bool)
      requires Valid()
      modifies q
      ensures var k := hash(q.question);
        var p := if k in held then Recalled(w, cfg, held[k], now) else Lookup(false, None, false, false);
        && ok == p.ok && expired == p.expired && q.needRefetch == (old(q.needRefetch) || p.refetch)
        && q.returnMsg == (if p.msg.Some? then p.msg else old(q.returnMsg))
        && q.returnRcode == (if p.msg.Some? then NOERROR else old(q.returnRcode))
      ensures q.isCachedbAnswer == old(q.isCachedbAnswer) && q.extState == old(q.extState)
        && q.started == old(q.started)
    {
      hide Faithful, Sane, Entry, ParseData, GoodExpiry, Recalled, InTime;
      ok, expired := false, false;
      var k := hash(q.question);
      if k !in backend { return; }
      var e := backend[k];
      assert k in held && GoodStore(w, cfg, held[k]);
      LookupRecalls(w, cfg, held[k], now);
      if !GoodExpiry(cfg, now, e) { return; }
      ok, expired := ParseInto(q, now, e);
    }

    /** Parses an entry into the query, as ParseData says. */
    method ParseInto(q: Query, now: int, buf: seq<u8>) returns (ok: bool, expired: bool)
      modifies q
      ensures var p := ParseData(w, cfg, now, buf);
        && ok == p.ok && expired == p.expired && q.needRefetch == (old(q.needRefetch) || p.refetch)
        && q.returnMsg == (if p.msg.Some? then p.msg else old(q.returnMsg))
        && q.returnRcode == (if p.msg.Some? then NOERROR else old(q.returnRcode))
      ensures q.isCachedbAnswer == old(q.isCachedbAnswer) && q.extState == old(q.extState)
        && q.started == old(q.started)
    {
      hide Adjusted, Timestamp, Expiry;
      ok, expired := false, false;
      if |buf| < 28 { return; }
      var m := w.decode(buf[..|buf| - 16]);
      if m.None? { return; }
      q.returnMsg, q.returnRcode := m, NOERROR;
      if now <= Timestamp(buf) {
        return true, false;
      }
      var adjust := now - Timestamp(buf);
      if m.value.ttl < adjust {
        expired := true;
        if !cfg.serveExpired || !Cacheable(m.value.rcode) { return; }
        adjust := -1;
      }
      var r := AdjustMsgTtl(m.value, adjust);
      q.returnMsg := Some(r);
      if cfg.serveExpired && (adjust == -1 || Expiry(buf) < now) {
        q.needRefetch := true;
      }
      ok := true;
    }

    /** Puts the message into the internal cache; `kept` is what that cache is given. An expired
        message is kept as expired there, and goes on to the client with TTL 0. */
    method IntcacheStore(q: Query, expired: bool) returns (kept: Option<Reply>)
      modifies q`returnMsg
      ensures
        if old(q.returnMsg).Some? && cfg.serveExpired && expired
        then kept == Some(Fixed(old(q.returnMsg).value, -3)) && q.returnMsg == Some(Adjusted(kept.value, -1))
        else kept == old(q.returnMsg) == q.returnMsg
    {
      hide Adjusted, Fixed;
      kept := q.returnMsg;
      if q.returnMsg.None? { return; }
      if cfg.serveExpired && expired {
        var r := SetMsgTtl(q.returnMsg.value, -3);
        kept := Some(r);
        r := AdjustMsgTtl(r, -1);
        q.returnMsg := Some(r);
      }
    }

    /** A query event: `internal` is what the internal cache answers. */
    method HandleQuery(q: Query, now: int, internal: Option<Reply>)
      requires Valid()
      modifies q
      ensures q.started == old(q.started)
      ensures q.View() == AfterQuery(w, cfg, enabled && !q.blacklist && !q.noCacheLookup, q.timer,
                                     Held(hash(q.question)), internal, now, old(q.View()))
    {
      hide Faithful, Adjusted, Carried;
      q.isCachedbAnswer := false;
      if !enabled || q.blacklist || q.noCacheLookup {
        q.extState := WaitModule;
        return;
      }
      if internal.Some? {
        q.returnRcode, q.returnMsg, q.extState := NOERROR, internal, Finished;
        return;
      }
      var ok, expired := ExtcacheLookup(q, now);
      if ok {
        assert expired ==> q.returnMsg == Some(Adjusted(Carried(w, cfg, held[hash(q.question)].msg), -1));
        ZeroAgain(w, cfg, held[hash(q.question)].msg);
        var kept := IntcacheStore(q, expired);
        if q.needRefetch && q.timer {
          q.returnMsg, q.extState := None, WaitModule;
          return;
        }
        q.isCachedbAnswer, q.extState := true, Finished;
        return;
      }
      q.extState := WaitModule;
    }

    /** A response event: what was resolved is stored. */
    method HandleResponse(q: Query, now: int)
      requires Valid() && (q.returnMsg.Some? ==> InTime(now, q.returnMsg.value.ttl))
      modifies this, q`isCachedbAnswer, q`extState
      ensures Valid() && !q.isCachedbAnswer && q.extState == Finished
      ensures
        if enabled && !q.noCacheStore && !cfg.noStore && q.returnMsg.Some? && Storable(w, cfg, q.returnMsg.value)
        then held == old(held)[hash(q.question) := Stored(q.returnMsg.value, now)]
        else held == old(held) && backend == old(backend)
    {
      hide Faithful, Entry, Storable;
      q.isCachedbAnswer := false;
      if !enabled || q.noCacheStore {
        q.extState := Finished;
        return;
      }
      if cfg.noStore {
        q.extState := Finished;
        return;
      }
      ExtcacheStore(q, now);
      q.extState := Finished;
    }

    /** One event of the module's state machine: a query is looked up, a finished one is stored, and
        no other event touches the cache or claims an answer. */
    method Operate(q: Query, event: ModuleEvent, outbound: bool, now: int, internal: Option<Reply>)
      requires Valid() && (event == ModDone && q.returnMsg.Some? ==> InTime(now, q.returnMsg.value.ttl))
      modifies this, q
      ensures Valid() && (q.started <==> old(q.started) || IsQuery(event))
      ensures q.View() ==
        if IsQuery(event)
        then AfterQuery(w, cfg, enabled && !q.blacklist && !q.noCacheLookup, q.timer, old(Held(hash(q.question))),
                        internal, now, old(q.View()))
        else AfterOther(old(q.started), event, outbound, old(q.View()))
      ensures
        if && old(q.started) && event == ModDone && enabled && !q.noCacheStore && !cfg.noStore
           && old(q.returnMsg).Some? && Storable(w, cfg, old(q.returnMsg).value)
        then held == old(held)[hash(q.question) := Stored(old(q.returnMsg).value, now)]
        else held == old(held) && backend == old(backend)
    {
      hide Faithful, Entry, Storable, Recalled;
      if IsQuery(event) && !q.started {
        q.started := true;
      }
      if q.started && IsQuery(event) {
        HandleQuery(q, now, internal);
      } else if q.started && event == ModDone {
        HandleResponse(q, now);
      } else if q.started && outbound {
        // responses of servers are the iterator's business
      } else if event == ErrorEvent {
        ErrorResponse(q, SERVFAIL);
      } else if !q.started && event == ModDone {
        q.extState := Finished;
      } else {
        ErrorResponse(q, SERVFAIL);
      }
    }
  }

  method ErrorResponse(q: Query, rcode: nat)
    modifies q`returnRcode, q`returnMsg, q`extState
    ensures q.returnRcode == rcode && q.returnMsg == None && q.extState == Finished
  {
    q.returnRcode, q.returnMsg, q.extState := rcode, None, Finished;
  }

  ghost predicate GoodStore(w: Wire, cfg: Config, s: Stored)
  {
    Storable(w, cfg, s.msg) && InTime(s.now, s.msg.ttl)
  }

  /** What the internal cache does to the TTLs of an expired message leaves it as it was. */
  lemma ZeroAgain(w: Wire, cfg: Config, m: Reply)
    ensures var z := Adjusted(Carried(w, cfg, m), -1); Adjusted(Fixed(z, -3), -1) == z
  {
    hide Least, Records;
    var b := Carried(w, cfg, m);
    var z := Adjusted(b, -1);
    var f := Fixed(z, -3);
    var r := Adjusted(f, -1);
    forall i | 0 <= i < |b.rrsets| ensures r.rrsets[i] == z.rrsets[i] {
      assert z.rrsets[i] == Subtracted(b.rrsets[i], -1);
      assert r.rrsets[i] == Subtracted(f.rrsets[i], -1);
      assert r.rrsets[i].rrTtl == z.rrsets[i].rrTtl;
    }
    assert r.rrsets == z.rrsets;
  }

  // ----- Whole runs -----

  datatype Event =
    | Ask(question: Question, now: int, blacklist: bool, noCacheLookup: bool, timer: bool, internal: Option<Reply>,
          again: bool)
    | Done(question: Question, now: int, msg: Option<Reply>, noCacheStore: bool, started: bool)
    | Other(question: Question, msg: Option<Reply>, started: bool, outbound: bool, event: ModuleEvent)
    | Lost(key: Key)

  /** A run of the module: what it is configured with, and what happens. */
  datatype Setup = Setup(w: Wire, cfg: Config, enabled: bool, hash: Question -> Key)

  /** What is assumed of the clock when a reply is stored; nothing of it at lookups. The other events are
      those that are neither a query nor the end of one. */
  ghost predicate GoodEvent(e: Event)
  {
    && (e.Done? && e.msg.Some? ==> InTime(e.now, e.msg.value.ttl))
    && (e.Other? ==> e.event == ErrorEvent || e.event == OtherEvent)
  }

  /** Whether an event stores a reply under `key`. */
  predicate StoresAt(c: Setup, e: Event, key: Key)
  {
    && e.Done? && e.started && c.enabled && !e.noCacheStore && !c.cfg.noStore
    && e.msg.Some? && Storable(c.w, c.cfg, e.msg.value) && c.hash(e.question) == key
  }

  /** Event `i` is the last of the first `n` to store under `key`, and what it stored was not lost. */
  ghost predicate Latest(c: Setup, events: seq<Event>, n: nat, i: nat, key: Key)
  {
    && i < n <= |events| && StoresAt(c, events[i], key)
    && forall j :: i < j < n ==> !StoresAt(c, events[j], key) && events[j] != Lost(key)
  }

  /** What the cache holds is, under each key, what the latest store there left. */
  ghost predicate Holds(c: Setup, events: seq<Event>, n: nat, held: map<Key, Stored>)
  {
    && (forall key :: key in held <==> exists i: nat :: Latest(c, events, n, i, key))
    && (forall key, i: nat :: Latest(c, events, n, i, key) ==>
          key in held && held[key] == Stored(events[i].msg.value, events[i].now))
  }

  /** Whether what `done` stored answers `ask`: it is within its expiry, and within the TTL the parser
      gives it unless expired replies are served, and no client waits for it to be fetched again. */
  predicate Fit(c: Setup, done: Event, ask: Event)
    requires done.Done? && done.msg.Some? && ask.Ask?
  {
    Serves(c, done, ask) && !(ask.timer && Stale(c, done, ask))
  }

  predicate Serves(c: Setup, done: Event, ask: Event)
    requires done.Done? && done.msg.Some? && ask.Ask?
  {
    var m := done.msg.value;
    InService(c.cfg, done.now + m.ttl, done.now + Carried(c.w, c.cfg, m).ttl, ask.now)
  }

  /** Whether it should be fetched again: it is served after its end. */
  predicate Stale(c: Setup, done: Event, ask: Event)
    requires done.Done? && done.msg.Some? && ask.Ask?
  {
    var m := done.msg.value;
    && c.cfg.serveExpired && ask.now > done.now
    && (ask.now > done.now + Carried(c.w, c.cfg, m).ttl || ask.now > done.now + m.ttl)
  }

  /** Question `k` is answered from the cache: it may be looked up, nothing internal answers it, and the
      latest reply stored under its hash and not lost is fit. */
  ghost predicate Answerable(c: Setup, events: seq<Event>, k: nat)
    requires k < |events|
  {
    var e := events[k];
    && e.Ask? && c.enabled && !e.blacklist && !e.noCacheLookup && e.internal.None?
    && exists i: nat :: Latest(c, events, k, i, c.hash(e.question)) && Fit(c, events[i], e)
  }

  /** Answer `a` to question `k` is what the latest reply stored under its hash has become, and is not
      promised beyond the expiry recorded for it unless the wire lengthened its time. */
  ghost predicate SafeAnswer(c: Setup, events: seq<Event>, k: nat, a: Reply)
    requires k < |events|
  {
    events[k].Ask? && exists i: nat ::
      && Latest(c, events, k, i, c.hash(events[k].question))
      && Safe(a, Carried(c.w, c.cfg, events[i].msg.value), events[i].now, events[k].now)
      && (NotLonger(c.w, c.cfg, events[i].msg.value) ==>
            a.ttl == 0 || events[k].now + a.ttl <= events[i].now + events[i].msg.value.ttl)
  }

  /** The state in which question `k` leaves its query: passed on if it may not be looked up or nothing
      serves, finished with what the internal cache or this one answers. A stored reply that its expiry
      admits and its TTL refuses is left in the query that is passed on. */
  ghost predicate AskEnds(c: Setup, events: seq<Event>, k: nat, r: Outcome)
    requires k < |events| && events[k].Ask?
  {
    var e := events[k];
    && r.rcode == 0 && (r.fromCache <==> Answerable(c, events, k))
    && (r.refetch
        <==> c.enabled && !e.blacklist && !e.noCacheLookup && e.internal.None?
             && exists i: nat :: Latest(c, events, k, i, c.hash(e.question)) && Refetched(c, events[i], e))
    && if !(c.enabled && !e.blacklist && !e.noCacheLookup) then r.state == WaitModule && r.msg == None
       else if e.internal.Some? then r.state == Finished && r.msg == e.internal
       else if r.fromCache then r.state == Finished && r.msg.Some? && SafeAnswer(c, events, k, r.msg.value)
       else r.state == WaitModule && forall m :: r.msg == Some(m) <==> LeftBehind(c, events, k, m)
  }

  predicate Refetched(c: Setup, done: Event, ask: Event)
    requires done.Done? && done.msg.Some? && ask.Ask?
  {
    Serves(c, done, ask) && Stale(c, done, ask)
  }

  ghost predicate LeftBehind(c: Setup, events: seq<Event>, k: nat, m: Reply)
    requires k < |events| && events[k].Ask?
  {
    var now := events[k].now;
    !c.cfg.serveExpired && exists i: nat ::
      && Latest(c, events, k, i, c.hash(events[k].question)) && m == Carried(c.w, c.cfg, events[i].msg.value)
      && events[i].now + m.ttl < now <= events[i].now + events[i].msg.value.ttl
  }

  /** How every event ends: a finished query keeps its message, an unexpected event fails, and one that
      concerns a server's response is left alone. */
  ghost predicate Ended(c: Setup, events: seq<Event>, k: nat, r: Outcome)
    requires k < |events|
  {
    var e := events[k];
    && (e.Ask? ==> AskEnds(c, events, k, r))
    && (e.Done? ==> r == Outcome(e.msg, 0, false, false, Finished))
    && (e.Other? ==> r == if e.started && e.outbound then Outcome(e.msg, 0, false, false, Initial)
                          else Outcome(None, 2, false, false, Finished))
  }

  lemma AskAnswered(c: Setup, events: seq<Event>, k: nat, held: map<Key, Stored>, r: Outcome)
    requires k < |events| && events[k].Ask? && Sane(c.cfg.limits) && Holds(c, events, k, held)
    requires var e := events[k]; var key := c.hash(e.question);
      r == AfterQuery(c.w, c.cfg, c.enabled && !e.blacklist && !e.noCacheLookup, e.timer,
                      if key in held then Some(held[key]) else None, e.internal, e.now,
                      Outcome(None, NOERROR, false, false, Initial))
    ensures AskEnds(c, events, k, r)
  {
    hide Carried, Safe, Recalled, InService, NotLonger;
    var e := events[k];
    var key := c.hash(e.question);
    if key in held {
      var i: nat :| Latest(c, events, k, i, key);
      var s := Stored(events[i].msg.value, events[i].now);
      assert held[key] == s;
      RecalledSafe(c.w, c.cfg, s, e.now);
      if NotLonger(c.w, c.cfg, s.msg) {
        RecalledWithin(c.w, c.cfg, s, e.now);
      }
      forall j: nat | Latest(c, events, k, j, key) ensures j == i {
      }
    }
  }

  /** What an event makes of what the cache holds. */
  function Next(c: Setup, e: Event, held: map<Key, Stored>): map<Key, Stored>
  {
    if e.Lost? then held - {e.key}
    else if e.Done? && StoresAt(c, e, c.hash(e.question)) then held[c.hash(e.question) := Stored(e.msg.value, e.now)]
    else held
  }

  lemma LatestNext(c: Setup, events: seq<Event>, n: nat, i: nat, key: Key)
    requires n < |events|
    ensures Latest(c, events, n + 1, i, key) <==>
      if StoresAt(c, events[n], key) then i == n
      else events[n] != Lost(key) && Latest(c, events, n, i, key)
  {
    hide StoresAt;
  }

  lemma HoldsNext(c: Setup, events: seq<Event>, n: nat, held: map<Key, Stored>)
    requires n < |events| && Holds(c, events, n, held)
    ensures Holds(c, events, n + 1, Next(c, events[n], held))
  {
    hide Latest, Storable;
    var e, m, next := events[n], n + 1, Next(c, events[n], held);
    forall i: nat, key ensures Latest(c, events, m, i, key) <==>
      if StoresAt(c, e, key) then i == n else e != Lost(key) && Latest(c, events, n, i, key)
    {
      LatestNext(c, events, n, i, key);
    }
    forall key ensures key in next <==> exists i: nat :: Latest(c, events, m, i, key) {
      if StoresAt(c, e, key) {
        assert Latest(c, events, m, n, key);
      } else if key in next {
        var i: nat :| Latest(c, events, n, i, key);
        assert Latest(c, events, m, i, key);
      }
    }
  }

  /** Any sequence of events and losses, with any clock readings: every event ends as it should, and a
      question is answered from the cache exactly if it is answerable. In the end the cache holds exactly
      the latest stores that were not lost, all of them replies fit to be stored. */
  method Run(c: Setup, events: seq<Event>) returns (outcomes: seq<Outcome>, cache: Cache)
    requires Faithful(c.w, c.cfg) && Sane(c.cfg.limits) && forall i :: 0 <= i < |events| ==> GoodEvent(events[i])
    ensures |outcomes| == |events| && forall k :: 0 <= k < |events| ==> Ended(c, events, k, outcomes[k])
    ensures fresh(cache) && cache.Valid() && Holds(c, events, |events|, cache.held)
    ensures forall key :: key in cache.held ==> var m := cache.held[key].msg;
      (m.rcode == 0 || m.rcode == 3 || m.rcode == 6) && (m.ttl != 0 || c.cfg.serveExpired)
  {
    hide Faithful, Sane, Holds, AskEnds, Storable, AfterQuery;
    cache := new Cache(c.w, c.cfg, c.enabled, c.hash);
    outcomes := [];
    assert Holds(c, events, 0, cache.held) by { NothingHeld(c, events); }
    var n := 0;
    while n < |events|
      invariant 0 <= n <= |events| && |outcomes| == n && fresh(cache) && cache.Valid()
      invariant Setup(cache.w, cache.cfg, cache.enabled, cache.hash) == c && Holds(c, events, n, cache.held)
      invariant forall k :: 0 <= k < n ==> Ended(c, events, k, outcomes[k])
    {
      HoldsNext(c, events, n, cache.held);
      var r := OneEvent(cache, c, events, n);
      outcomes := outcomes + [r];
      n := n + 1;
    }
    forall key | key in cache.held ensures Storable(c.w, c.cfg, cache.held[key].msg) {
      assert GoodStore(c.w, c.cfg, cache.held[key]);
    }
    assert forall key :: key in cache.held ==> Codes(c.cfg, cache.held[key].msg)
      by { HeldCodes(c.w, c.cfg, cache.held); }
  }

  predicate Codes(cfg: Config, m: Reply)
  {
    (m.rcode == 0 || m.rcode == 3 || m.rcode == 6) && (m.ttl != 0 || cfg.serveExpired)
  }

  lemma HeldCodes(w: Wire, cfg: Config, held: map<Key, Stored>)
    requires forall key :: key in held ==> Storable(w, cfg, held[key].msg)
    ensures forall key :: key in held ==> Codes(cfg, held[key].msg)
  {
  }

  /** A query, new or passed back, looked up. */
  method AskOnce(cache: Cache, e: Event) returns (r: Outcome)
    requires cache.Valid() && e.Ask?
    modifies cache
    ensures cache.Valid() && cache.held == old(cache.held)
    ensures r == AfterQuery(cache.w, cache.cfg, cache.enabled && !e.blacklist && !e.noCacheLookup, e.timer,
                            cache.Held(cache.hash(e.question)), e.internal, e.now,
                            Outcome(None, NOERROR, false, false, Initial))
  {
    hide Faithful, Sane, Storable, AfterQuery;
    var q := new Query(e.question, e.blacklist, e.noCacheLookup, false, e.timer, None, e.again);
    cache.Operate(q, if e.again then PassEvent else NewEvent, false, e.now, e.internal);
    r := q.Now();
  }

  /** The end of a query. */
  method EndOnce(cache: Cache, e: Event) returns (r: Outcome)
    requires cache.Valid() && e.Done? && GoodEvent(e)
    modifies cache
    ensures cache.Valid() && r == Outcome(e.msg, 0, false, false, Finished)
    ensures cache.held ==
      if && e.started && cache.enabled && !e.noCacheStore && !cache.cfg.noStore
         && e.msg.Some? && Storable(cache.w, cache.cfg, e.msg.value)
      then old(cache.held)[cache.hash(e.question) := Stored(e.msg.value, e.now)] else old(cache.held)
  {
    hide Faithful, Sane, Storable;
    var q := new Query(e.question, false, false, e.noCacheStore, false, e.msg, e.started);
    cache.Operate(q, ModDone, false, e.now, None);
    r := q.Now();
  }

  /** Any other event. */
  method OtherOnce(cache: Cache, e: Event) returns (r: Outcome)
    requires cache.Valid() && e.Other? && GoodEvent(e)
    modifies cache
    ensures cache.Valid() && cache.held == old(cache.held)
    ensures r == if e.started && e.outbound then Outcome(e.msg, 0, false, false, Initial)
                 else Outcome(None, 2, false, false, Finished)
  {
    hide Faithful, Sane, Storable;
    var q := new Query(e.question, false, false, false, false, e.msg, e.started);
    cache.Operate(q, e.event, e.outbound, 0, None);
    r := q.Now();
  }

  /** One event of a run. */
  method OneEvent(cache: Cache, c: Setup, events: seq<Event>, n: nat) returns (r: Outcome)
    requires n < |events| && GoodEvent(events[n]) && cache.Valid() && Sane(c.cfg.limits)
    requires Setup(cache.w, cache.cfg, cache.enabled, cache.hash) == c && Holds(c, events, n, cache.held)
    modifies cache
    ensures cache.Valid() && cache.held == Next(c, events[n], old(cache.held)) && Ended(c, events, n, r)
  {
    hide Faithful, Sane, Holds, AskEnds, Storable, AfterQuery;
    var e := events[n];
    match e {
      case Ask(question, now, blacklist, noCacheLookup, timer, internal, again) =>
        r := AskOnce(cache, e);
        AskAnswered(c, events, n, old(cache.held), r);
      case Done(question, now, msg, noCacheStore, started) =>
        r := EndOnce(cache, e);
        assert cache.held == Next(c, e, old(cache.held));
      case Other(question, msg, started, outbound, event) =>
        r := OtherOnce(cache, e);
      case Lost(key) =>
        cache.Forget(key);
        r := Outcome(None, NOERROR, false, false, Initial);
    }
  }

  lemma NothingHeld(c: Setup, events: seq<Event>)
    ensures Holds(c, events, 0, map[])
  {
  }
}
