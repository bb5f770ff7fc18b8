/** The event log: at most ten events, newest first, each an alert that is still going on or over. */
module Events {
  datatype Level = Ok | Careful | Warning | Critical | OtherLevel(name: string)

  /** An event; `end` is -1 while it is going on. */
  datatype Event = Event(
    begin: real, end: real, state: Level, typ: string,
    max: real, avg: real, min: real, sum: real, count: nat,
    top: seq<nat>, desc: string, sortKey: string)

  predicate Open(e: Event)
  {
    e.end < 0.0
  }

  // ----- What an event is a summary of -----

  function Sum(v: seq<real>): real
  {
    if v == [] then 0.0 else Sum(v[..|v| - 1]) + v[|v| - 1]
  }

  function Smaller(a: real, b: real): real { if b < a then b else a }

  function Larger(a: real, b: real): real { if b > a then b else a }

  function Min(v: seq<real>): real
    requires v != []
  {
    if |v| == 1 then v[0] else Smaller(Min(v[..|v| - 1]), v[|v| - 1])
  }

  function Max(v: seq<real>): real
    requires v != []
  {
    if |v| == 1 then v[0] else Larger(Max(v[..|v| - 1]), v[|v| - 1])
  }

  /** They are values, and no value is beyond them. */
  lemma {:induction false} ExtremesExactly(v: seq<real>)
    requires v != []
    ensures Min(v) in v && Max(v) in v && forall i :: 0 <= i < |v| ==> Min(v) <= v[i] <= Max(v)
  {
    if |v| > 1 {
      var init := v[..|v| - 1];
      ExtremesExactly(init);
      assert forall i :: 0 <= i < |init| ==> init[i] == v[i];
    }
  }

  /** The event counts, sums and bounds these values. */
  ghost predicate Summarises(e: Event, v: seq<real>)
  {
    && v != [] && e.count == |v| && e.sum == Sum(v) && e.min == Min(v) && e.max == Max(v)
    && e.avg * (e.count as real) == e.sum
  }

  lemma {:induction false} SumBounds(v: seq<real>)
    requires v != []
    ensures Min(v) * (|v| as real) <= Sum(v) <= Max(v) * (|v| as real)
  {
    hide Smaller, Larger;
    var n := |v| - 1;
    var u, x := v[..n], v[n];
    if n == 0 {
      assert Min(v) == x && Max(v) == x && Sum(v) == Sum([]) + x;
      assert x * 1.0 == x;
    } else {
      SumBounds(u);
      Extremes(Min(u), Max(u), x);
      assert |v| as real == n as real + 1.0;
      GrowBelow(Min(v), Min(u), x, n as real, Sum(u));
      GrowAbove(Max(v), Max(u), x, n as real, Sum(u));
    }
  }

  lemma Extremes(low: real, high: real, x: real)
    ensures Smaller(low, x) <= low && Smaller(low, x) <= x && Larger(high, x) >= high && Larger(high, x) >= x
  {
  }

  lemma GrowBelow(low: real, before: real, x: real, k: real, sum: real)
    requires low <= before && low <= x && k >= 0.0 && before * k <= sum
    ensures low * (k + 1.0) <= sum + x
  {
    Scaled(low, before, k);
    assert low * (k + 1.0) == low * k + low;
  }

  lemma GrowAbove(high: real, before: real, x: real, k: real, sum: real)
    requires high >= before && high >= x && k >= 0.0 && before * k >= sum
    ensures high * (k + 1.0) >= sum + x
  {
    Scaled(before, high, k);
    assert high * (k + 1.0) == high * k + high;
  }

  lemma Scaled(a: real, b: real, k: real)
    requires a <= b && k >= 0.0
    ensures a * k <= b * k
  {
  }

  /** The average lies between the extremes. */
  lemma MinAvgMax(e: Event, v: seq<real>)
    requires Summarises(e, v)
    ensures e.min <= e.avg <= e.max
  {
    hide Sum, Min, Max;
    SumBounds(v);
    Between(e.min, e.avg, e.max, e.count as real);
  }

  lemma Between(low: real, x: real, high: real, k: real)
    requires k > 0.0 && low * k <= x * k <= high * k
    ensures low <= x <= high
  {
    if x < low {
      ScaledStrict(x, low, k);
    }
    if high < x {
      ScaledStrict(high, x, k);
    }
  }

  lemma ScaledStrict(a: real, b: real, k: real)
    requires a < b && k > 0.0
    ensures a * k < b * k
  {
  }

  // ----- What is reported -----

  predicate Alert(level: Level) { level == Warning || level == Critical }

  predicate Calm(level: Level) { level == Ok || level == Careful }

  datatype Operation =
    | Report(level: Level, typ: string, value: real, desc: string, top: seq<nat>, currentKey: string, now: real,
             peak: real)
    | CleanUp(critical: bool)

  predicate Of(op: Operation, typ: string)
  {
    op.Report? && op.typ == typ
  }

  /** The process list key for an alert type. */
  function SortKey(typ: string): string
  {
    if "MEM" <= typ then "memory_percent" else if "CPU_IOWAIT" <= typ then "io_counters" else "cpu_percent"
  }

  /** The values of a type reported from `from` on and before `end`. */
  function Values(ops: seq<Operation>, typ: string, from: nat, end: nat): seq<real>
    requires end <= |ops|
  {
    if end <= from then []
    else Values(ops, typ, from, end - 1) + (if Of(ops[end - 1], typ) then [ops[end - 1].value] else [])
  }

  /** The last report of a type after `from` and before `end`, or `from`. */
  function LastReport(ops: seq<Operation>, typ: string, from: nat, end: nat): (r: nat)
    requires from < end <= |ops|
    ensures from <= r < end && (r == from || Of(ops[r], typ)) && forall j :: r < j < end ==> !Of(ops[j], typ)
  {
    if end == from + 1 then from
    else if Of(ops[end - 1], typ) then end - 1
    else LastReport(ops, typ, from, end - 1)
  }

  /** The last CRITICAL report of a type after `from` and before `end`, or `from`. */
  function LastCritical(ops: seq<Operation>, typ: string, from: nat, end: nat): (r: nat)
    requires from < end <= |ops|
    ensures from <= r < end && (r == from || (Of(ops[r], typ) && ops[r].level == Critical))
    ensures forall j :: r < j < end ==> !(Of(ops[j], typ) && ops[j].level == Critical)
  {
    if end == from + 1 then from
    else if Of(ops[end - 1], typ) && ops[end - 1].level == Critical then end - 1
    else LastCritical(ops, typ, from, end - 1)
  }

  /** The operations of a run that opened an event and, if it is over, closed it. */
  datatype Span = Span(first: nat, close: nat)

  function End(ops: seq<Operation>, e: Event, s: Span): nat
  {
    if Open(e) then |ops| else s.close
  }

  /** The event is the account of its type's reports: opened by an alert, with the values of all reports
      since, no one of them calm; CRITICAL once one was; described by the last. If it is over, a calm
      report closed it, later than that report's peak time after it began. */
  ghost predicate Accounts(ops: seq<Operation>, e: Event, s: Span)
  {
    var end := End(ops, e, s);
    && s.first < end <= |ops| && Of(ops[s.first], e.typ) && e.begin == ops[s.first].now
    && (ops[s.first].level == Warning || ops[s.first].level == Critical)
    && (forall j :: s.first <= j < end && Of(ops[j], e.typ) ==> ops[j].level != Ok && ops[j].level != Careful)
    && Summarises(e, Values(ops, e.typ, s.first, end))
    && Described(ops, e, s.first, end)
    && (if Open(e) then e.end == -1.0 else
        && end < |ops| && Of(ops[end], e.typ) && (ops[end].level == Ok || ops[end].level == Careful)
        && e.end == ops[end].now && e.end - e.begin > ops[end].peak)
  }

  ghost predicate Described(ops: seq<Operation>, e: Event, first: nat, end: nat)
    requires first < end <= |ops| && Of(ops[first], e.typ)
  {
    var last, critical := LastReport(ops, e.typ, first, end), LastCritical(ops, e.typ, first, end);
    && e.desc == ops[last].desc && e.state == ops[critical].level
    && e.top == (if critical == first then [] else ops[critical].top)
    && e.sortKey == (if critical == first then ops[first].currentKey else SortKey(e.typ))
  }

  // ----- What the operations do -----

  /** Where the open event of a type is, or the length. */
  function OpenIndex(list: seq<Event>, typ: string): (i: nat)
    ensures i <= |list|
    ensures i < |list| ==> Open(list[i]) && list[i].typ == typ
    ensures forall j :: 0 <= j < i ==> !(Open(list[j]) && list[j].typ == typ)
  {
    if list == [] || (Open(list[0]) && list[0].typ == typ) then 0 else 1 + OpenIndex(list[1..], typ)
  }

  function Created(r: Operation): Event
    requires r.Report?
  {
    Event(r.now, -1.0, r.level, r.typ, r.value, r.value, r.value, r.value, 1, [], r.desc, r.currentKey)
  }

  function Updated(e: Event, r: Operation): Event
    requires r.Report?
  {
    var sum, count := e.sum + r.value, e.count + 1;
    Event(e.begin, e.end, if r.level == Critical then r.level else e.state, e.typ,
          Larger(e.max, r.value), sum / (count as real), Smaller(e.min, r.value), sum, count,
          if r.level == Critical then r.top else e.top, r.desc,
          if r.level == Critical then SortKey(r.typ) else e.sortKey)
  }

  /** The list without its last element if it is too long. */
  function Limited<T>(list: seq<T>): seq<T>
  {
    if |list| > 10 then list[..|list| - 1] else list
  }

  function Without<T>(list: seq<T>, i: nat): seq<T>
    requires i < |list|
  {
    list[..i] + list[i + 1..]
  }

  function Added(list: seq<Event>, r: Operation): seq<Event>
    requires r.Report?
  {
    var i := OpenIndex(list, r.typ);
    if i == |list| then if Alert(r.level) then Limited([Created(r)] + list) else list
    else if !Calm(r.level) then list[i := Updated(list[i], r)]
    else if r.now - list[i].begin > r.peak then list[i := list[i].(end := r.now)]
    else Without(list, i)
  }

  predicate Stays(e: Event, critical: bool)
  {
    Open(e) || (!critical && e.state == Critical)
  }

  function Kept(list: seq<Event>, critical: bool): seq<Event>
  {
    if list == [] then []
    else (if Stays(list[0], critical) then [list[0]] else []) + Kept(list[1..], critical)
  }

  /** The log after a run. */
  function Replay(ops: seq<Operation>): seq<Event>
  {
    if ops == [] then []
    else
      var list, op := Replay(ops[..|ops| - 1]), ops[|ops| - 1];
      if op.Report? then Added(list, op) else Kept(list, op.critical)
  }

  // ----- One more operation -----

  /** The clock never gives a negative time. */
  ghost predicate Clocked(ops: seq<Operation>)
  {
    forall i :: 0 <= i < |ops| && ops[i].Report? ==> ops[i].now >= 0.0
  }

  lemma {:induction false} PrefixSame(ops: seq<Operation>, op: Operation, typ: string, from: nat, end: nat)
    requires end <= |ops|
    ensures Values(ops + [op], typ, from, end) == Values(ops, typ, from, end)
    ensures from < end ==> LastReport(ops + [op], typ, from, end) == LastReport(ops, typ, from, end)
    ensures from < end ==> LastCritical(ops + [op], typ, from, end) == LastCritical(ops, typ, from, end)
    decreases end
  {
    if from < end {
      PrefixSame(ops, op, typ, from, end - 1);
    }
  }

  /** An operation that is no report of its type, or comes after it is over, leaves an event's account. */
  lemma AccountsOther(ops: seq<Operation>, op: Operation, e: Event, s: Span)
    requires Accounts(ops, e, s) && !(Open(e) && Of(op, e.typ))
    ensures Accounts(ops + [op], e, s)
  {
    hide Summarises, SortKey, Alert, Calm;
    var all, end := ops + [op], End(ops, e, s);
    PrefixSame(ops, op, e.typ, s.first, end);
    if Open(e) {
      assert all[end] == op && !Of(op, e.typ);
      assert Values(all, e.typ, s.first, end + 1) == Values(ops, e.typ, s.first, end);
      assert LastReport(all, e.typ, s.first, end + 1) == LastReport(ops, e.typ, s.first, end);
      assert LastCritical(all, e.typ, s.first, end + 1) == LastCritical(ops, e.typ, s.first, end);
    }
  }

  lemma AccountsCreated(ops: seq<Operation>, r: Operation)
    requires r.Report? && Alert(r.level)
    ensures Accounts(ops + [r], Created(r), Span(|ops|, 0))
  {
    var all, n := ops + [r], |ops|;
    assert all[n] == r;
    assert Values(all, r.typ, n, n) == [];
    assert Values(all, r.typ, n, n + 1) == [r.value];
    SummaryOfOne(Created(r), r.value);
  }

  lemma SummaryOfOne(e: Event, x: real)
    requires e.count == 1 && e.sum == e.min == e.max == e.avg == x
    ensures Summarises(e, [x])
  {
    assert [x][..0] == [];
    assert Sum([x]) == 0.0 + x;
    assert x * 1.0 == x;
  }

  lemma AccountsUpdated(ops: seq<Operation>, r: Operation, e: Event, s: Span)
    requires Accounts(ops, e, s) && Open(e) && Of(r, e.typ) && !Calm(r.level)
    ensures Accounts(ops + [r], Updated(e, r), s)
  {
    hide Summarises, SortKey, Alert, Larger, Smaller;
    var n := |ops|;
    PrefixSame(ops, r, e.typ, s.first, n);
    SummaryOfMore(e, Values(ops, e.typ, s.first, n), r);
    assert (ops + [r])[n] == r;
  }

  lemma SummaryOfMore(e: Event, v: seq<real>, r: Operation)
    requires Summarises(e, v) && r.Report?
    ensures Summarises(Updated(e, r), v + [r.value])
  {
    hide Smaller, Larger, SortKey;
    var u := v + [r.value];
    assert u[..|u| - 1] == v && u[|u| - 1] == r.value;
    Quotient(e.sum + r.value, (e.count + 1) as real);
    assert Sum(u) == Sum(v) + r.value;
  }

  lemma Quotient(x: real, y: real)
    requires y > 0.0
    ensures x / y * y == x
  {
  }

  lemma AccountsClosed(ops: seq<Operation>, r: Operation, e: Event, s: Span)
    requires Accounts(ops, e, s) && Open(e) && Of(r, e.typ) && Calm(r.level) && r.now >= 0.0 && r.now - e.begin > r.peak
    ensures Accounts(ops + [r], e.(end := r.now), s.(close := |ops|))
  {
    hide SortKey, Summarises, Values, LastReport, LastCritical;
    var n := |ops|;
    PrefixSame(ops, r, e.typ, s.first, n);
    SameSummary(e, Values(ops, e.typ, s.first, n), r.now);
    assert (ops + [r])[n] == r;
  }

  lemma SameSummary(e: Event, v: seq<real>, end: real)
    requires Summarises(e, v)
    ensures Summarises(e.(end := end), v)
  {
    hide Sum, Min, Max;
  }

  // ----- The whole log -----

  /** At most ten events, the newest first, no type open twice, each but the `but`-th the account of its
      reports. */
  ghost predicate ConsistentBut(ops: seq<Operation>, list: seq<Event>, spans: seq<Span>, but: nat)
  {
    && |list| == |spans| <= 10
    && (forall i :: 0 <= i < |list| && i != but ==> Accounts(ops, list[i], spans[i]))
    && (forall i, j :: 0 <= i < j < |list| ==> !(Open(list[i]) && Open(list[j]) && list[i].typ == list[j].typ))
    && (forall i, j :: 0 <= i < j < |list| ==> spans[i].first > spans[j].first)
  }

  ghost predicate Consistent(ops: seq<Operation>, list: seq<Event>, spans: seq<Span>)
  {
    ConsistentBut(ops, list, spans, |list|)
  }

  /** Where the account of an open event is still to be brought up to date. */
  function Due(list: seq<Event>, op: Operation): nat
  {
    if op.Report? then OpenIndex(list, op.typ) else |list|
  }

  lemma OthersAccount(ops: seq<Operation>, op: Operation, list: seq<Event>, spans: seq<Span>)
    requires Consistent(ops, list, spans)
    ensures ConsistentBut(ops + [op], list, spans, Due(list, op))
  {
    hide Accounts, OpenIndex, Open;
    forall i | 0 <= i < |list| && i != Due(list, op) ensures Accounts(ops + [op], list[i], spans[i]) {
      AccountsOther(ops, op, list[i], spans[i]);
    }
  }

  lemma ReplacedConsistent(ops: seq<Operation>, list: seq<Event>, spans: seq<Span>, i: nat, e: Event, s: Span)
    requires ConsistentBut(ops, list, spans, i) && i < |list| && Accounts(ops, e, s)
    requires e.typ == list[i].typ && (Open(e) ==> Open(list[i])) && s.first == spans[i].first
    ensures Consistent(ops, list[i := e], spans[i := s])
  {
    hide Accounts, Open;
  }

  lemma RemovedConsistent(ops: seq<Operation>, list: seq<Event>, spans: seq<Span>, i: nat)
    requires ConsistentBut(ops, list, spans, i) && i < |list|
    ensures Consistent(ops, Without(list, i), Without(spans, i))
  {
    hide Accounts, Open;
    var l, p := Without(list, i), Without(spans, i);
    forall k | 0 <= k < |l|
      ensures l[k] == list[if k < i then k else k + 1] && p[k] == spans[if k < i then k else k + 1]
    {
    }
  }

  lemma PrependConsistent(ops: seq<Operation>, list: seq<Event>, spans: seq<Span>, e: Event, s: Span)
    requires Consistent(ops, list, spans) && |list| < 10 && Accounts(ops, e, s)
    requires forall i :: 0 <= i < |list| ==>
      !(Open(e) && Open(list[i]) && e.typ == list[i].typ) && s.first > spans[i].first
    ensures Consistent(ops, [e] + list, [s] + spans)
  {
    hide Accounts, Open;
  }

  lemma AddedConsistent(ops: seq<Operation>, list: seq<Event>, spans: seq<Span>, e: Event, s: Span)
    requires Consistent(ops, list, spans) && Accounts(ops, e, s)
    requires forall i :: 0 <= i < |list| ==>
      !(Open(e) && Open(list[i]) && e.typ == list[i].typ) && s.first > spans[i].first
    ensures Consistent(ops, Limited([e] + list), Limited([s] + spans))
  {
    hide Accounts, Open;
    if |list| < 10 {
      PrependConsistent(ops, list, spans, e, s);
    } else {
      var n := |list| - 1;
      RemovedConsistent(ops, list, spans, n);
      assert Without(list, n) == list[..n] && Without(spans, n) == spans[..n];
      PrependConsistent(ops, list[..n], spans[..n], e, s);
      assert Limited([e] + list) == [e] + list[..n] && Limited([s] + spans) == [s] + spans[..n];
    }
  }

  lemma ReportConsistent(ops: seq<Operation>, r: Operation, list: seq<Event>, spans: seq<Span>)
    returns (next: seq<Span>)
    requires Consistent(ops, list, spans) && r.Report? && r.now >= 0.0
    ensures Consistent(ops + [r], Added(list, r), next)
  {
    hide Accounts, OpenIndex, Limited, Without;
    var i := OpenIndex(list, r.typ);
    OthersAccount(ops, r, list, spans);
    if i == |list| {
      next := spans;
      if Alert(r.level) {
        next := Limited([Span(|ops|, 0)] + spans);
        AccountsCreated(ops, r);
        forall j | 0 <= j < |list| ensures spans[j].first < |ops| {
          Earlier(ops, list[j], spans[j]);
        }
        AddedConsistent(ops + [r], list, spans, Created(r), Span(|ops|, 0));
      }
    } else if !Calm(r.level) {
      AccountsUpdated(ops, r, list[i], spans[i]);
      ReplacedConsistent(ops + [r], list, spans, i, Updated(list[i], r), spans[i]);
      next := spans[i := spans[i]];
    } else if r.now - list[i].begin > r.peak {
      AccountsClosed(ops, r, list[i], spans[i]);
      next := spans[i := spans[i].(close := |ops|)];
      ReplacedConsistent(ops + [r], list, spans, i, list[i].(end := r.now), spans[i].(close := |ops|));
    } else {
      RemovedConsistent(ops + [r], list, spans, i);
      next := Without(spans, i);
    }
  }

  lemma Earlier(ops: seq<Operation>, e: Event, s: Span)
    requires Accounts(ops, e, s)
    ensures s.first < |ops|
  {
  }

  function KeptSpans(list: seq<Event>, spans: seq<Span>, critical: bool): (r: seq<Span>)
    requires |list| == |spans|
    ensures |r| == |Kept(list, critical)| <= |list|
  {
    if list == [] then []
    else (if Stays(list[0], critical) then [spans[0]] else []) + KeptSpans(list[1..], spans[1..], critical)
  }

  /** Which event of a list its i-th kept one is. */
  lemma {:induction false} KeptFrom(list: seq<Event>, spans: seq<Span>, critical: bool, i: nat) returns (j: nat)
    requires |list| == |spans| && i < |Kept(list, critical)|
    ensures j < |list| && Kept(list, critical)[i] == list[j] && KeptSpans(list, spans, critical)[i] == spans[j]
  {
    hide Stays;
    if Stays(list[0], critical) && i == 0 {
      j := 0;
    } else {
      j := KeptFrom(list[1..], spans[1..], critical, if Stays(list[0], critical) then i - 1 else i);
      j := j + 1;
    }
  }

  lemma {:induction false} KeptConsistent(ops: seq<Operation>, list: seq<Event>, spans: seq<Span>, critical: bool)
    requires Consistent(ops, list, spans)
    ensures Consistent(ops, Kept(list, critical), KeptSpans(list, spans, critical))
  {
    hide Accounts, Open, Stays;
    if list != [] {
      RemovedConsistent(ops, list, spans, 0);
      var l, p := list[1..], spans[1..];
      assert Without(list, 0) == l && Without(spans, 0) == p;
      KeptConsistent(ops, l, p, critical);
      var k, q := Kept(l, critical), KeptSpans(l, p, critical);
      if Stays(list[0], critical) {
        forall i | 0 <= i < |k|
          ensures !(Open(list[0]) && Open(k[i]) && list[0].typ == k[i].typ) && spans[0].first > q[i].first
        {
          var j := KeptFrom(l, p, critical, i);
          assert k[i] == list[j + 1] && q[i] == spans[j + 1];
        }
        PrependConsistent(ops, k, q, list[0], spans[0]);
      } else {
        assert [] + k == k && [] + q == q;
      }
    }
  }

  /** After any run, the log is consistent with what was reported. */
  lemma {:induction false} ReplayConsistent(ops: seq<Operation>) returns (spans: seq<Span>)
    requires Clocked(ops)
    ensures Consistent(ops, Replay(ops), spans)
  {
    hide Accounts, Added, Kept;
    if ops == [] {
      spans := [];
    } else {
      var n := |ops| - 1;
      var before, op := ops[..n], ops[n];
      assert before + [op] == ops;
      spans := ReplayConsistent(before);
      if op.Report? {
        spans := ReportConsistent(before, op, Replay(before), spans);
      } else {
        OthersAccount(before, op, Replay(before), spans);
        KeptConsistent(ops, Replay(before), spans, op.critical);
        spans := KeptSpans(Replay(before), spans, op.critical);
      }
    }
  }

  ghost predicate GoingOn(list: seq<Event>, typ: string)
  {
    exists i :: 0 <= i < |list| && Open(list[i]) && list[i].typ == typ
  }

  /** After an alert its type has an open event, and after a calm report it has none. */
  lemma AlertOpensCalmCloses(ops: seq<Operation>, r: Operation)
    requires Clocked(ops) && r.Report? && r.now >= 0.0
    ensures var list := Replay(ops + [r]);
      && (r.level == Warning || r.level == Critical ==> GoingOn(list, r.typ))
      && (r.level == Ok || r.level == Careful ==> !GoingOn(list, r.typ))
  {
    hide Accounts, Replay;
    var was := Replay(ops);
    assert (ops + [r])[..|ops|] == ops;
    assert Replay(ops + [r]) == Added(was, r) by { ReplayOne(ops, r); }
    var spans := ReplayConsistent(ops);
    var i, list := OpenIndex(was, r.typ), Added(was, r);
    if Alert(r.level) {
      var at := if i == |was| then 0 else i;
      assert Open(list[at]) && list[at].typ == r.typ;
    } else if Calm(r.level) && i < |was| {
      forall j | 0 <= j < |list| ensures !(Open(list[j]) && list[j].typ == r.typ) {
        assert list[j] == if j < i || |list| == |was| then list[j] else was[j + 1];
      }
    }
  }

  lemma ReplayOne(ops: seq<Operation>, r: Operation)
    requires r.Report?
    ensures Replay(ops + [r]) == Added(Replay(ops), r)
  {
    assert (ops + [r])[..|ops|] == ops;
  }

  /** A clean-up keeps of each event as many as there were, if it is going on, or if it was CRITICAL and is
      not asked to drop those; of every other it keeps none. */
  lemma {:induction false} KeptExactly(list: seq<Event>, critical: bool, e: Event)
    ensures multiset(Kept(list, critical))[e] ==
      if e.end < 0.0 || (!critical && e.state == Critical) then multiset(list)[e] else 0
  {
    if list != [] {
      KeptExactly(list[1..], critical, e);
      assert list == [list[0]] + list[1..];
      assert multiset(list) == multiset{list[0]} + multiset(list[1..]);
    }
  }

  /** And it keeps their order. */
  lemma {:induction false} KeptInOrder(a: seq<Event>, b: seq<Event>, critical: bool)
    ensures Kept(a + b, critical) == Kept(a, critical) + Kept(b, critical)
  {
    if a == [] {
      assert a + b == b;
      NoneKept(critical);
      assert [] + Kept(b, critical) == Kept(b, critical);
    } else {
      hide Stays, Kept;
      assert (a + b)[1..] == a[1..] + b && (a + b)[0] == a[0];
      KeptInOrder(a[1..], b, critical);
      var head := if Stays(a[0], critical) then [a[0]] else [];
      KeptStep(a + b, critical);
      KeptStep(a, critical);
      assert head + (Kept(a[1..], critical) + Kept(b, critical)) == head + Kept(a[1..], critical) + Kept(b, critical);
    }
  }

  lemma NoneKept(critical: bool)
    ensures Kept([], critical) == []
  {
  }

  lemma KeptStep(list: seq<Event>, critical: bool)
    requires list != []
    ensures Kept(list, critical) == (if Stays(list[0], critical) then [list[0]] else []) + Kept(list[1..], critical)
  {
    hide Stays;
  }

  /** A new alert comes first; the last event goes only if ten are there, and no other ever does. */
  lemma AlertInFront(list: seq<Event>, r: Operation)
    requires r.Report? && (r.level == Warning || r.level == Critical) && |list| <= 10
    requires forall i :: 0 <= i < |list| ==> !(Open(list[i]) && list[i].typ == r.typ)
    ensures var next := Added(list, r);
      |next| > 0 && next[0].typ == r.typ && next[0].end == -1.0 && next[0].begin == r.now
      && next[1..] == if |list| < 10 then list else list[..9]
  {
    var all := [Created(r)] + list;
    assert OpenIndex(list, r.typ) == |list|;
    assert all[1..] == list;
    assert |list| == 10 ==> all[..10][1..] == list[..9];
  }

  /** Memory alerts sort by memory, I/O wait by I/O, all others by CPU. */
  lemma SortKeyExactly(rest: string, typ: string)
    ensures SortKey("MEM" + rest) == "memory_percent" && SortKey("CPU_IOWAIT" + rest) == "io_counters"
    ensures typ != [] && typ[0] != 'M' && typ[0] != 'C' ==> SortKey(typ) == "cpu_percent"
  {
    var io := "CPU_IOWAIT" + rest;
    assert io[0] == 'C' && "MEM"[0] == 'M' && "CPU_IOWAIT"[0] == 'C';
    assert io[..10] == "CPU_IOWAIT";
  }

  // ----- The log -----

  class Log {
    var events: seq<Event>
    ghost var ops: seq<Operation>

    /** The log is what the operations so far come to. */
    ghost predicate Valid()
      reads this
    {
      Clocked(ops) && events == Replay(ops)
    }

    constructor ()
      ensures Valid() && events == [] && ops == []
    {
      events, ops := [], [];
    }

    /** The position of the open event of a type, or -1. */
    method EventExist(typ: string) returns (at: int)
      ensures at == if OpenIndex(events, typ) < |events| then OpenIndex(events, typ) else -1
    {
      var i := 0;
      while i < |events|
        invariant 0 <= i <= |events|
        invariant forall j :: 0 <= j < i ==> !(Open(events[j]) && events[j].typ == typ)
      {
        if events[i].end < 0.0 && events[i].typ == typ {
          return i;
        }
        i := i + 1;
      }
      return -1;
    }

    /** list.remove(x): deletes the first event equal to `x`. */
    method Remove(x: Event) returns (ghost at: nat)
      requires x in events
      modifies this`events
      ensures at < |old(events)| && old(events)[at] == x && events == Without(old(events), at)
    {
      var i := 0;
      assert events[0..] == events;
      while events[i] != x
        invariant 0 <= i < |events| && x in events[i..] && events == old(events)
        decreases |events| - i
      {
        assert events[i..] == [events[i]] + events[i + 1..];
        i := i + 1;
      }
      at := i;
      events := events[..i] + events[i + 1..];
    }

    method CreateEvent(r: Operation) returns (ok: bool)
      requires r.Report?
      modifies this`events
      ensures ok == Alert(r.level)
      ensures events == if ok then Limited([Created(r)] + old(events)) else old(events)
    {
      if r.level == Warning || r.level == Critical {
        var item :=
          Event(r.now, -1.0, r.level, r.typ, r.value, r.value, r.value, r.value, 1, [], r.desc, r.currentKey);
        events := [item] + events;
        if |events| > 10 {
          events := events[..|events| - 1];
        }
        return true;
      }
      return false;
    }

    /** Updates or closes an open event. Removing it by value removes no other: no other equals it. */
    method UpdateEvent(i: nat, r: Operation)
      requires Valid() && i < |events| && Open(events[i]) && r.Report?
      modifies this`events
      ensures var e := old(events)[i];
        events ==
          if !Calm(r.level) then old(events)[i := Updated(e, r)]
          else if r.now - e.begin > r.peak then old(events)[i := e.(end := r.now)]
          else Without(old(events), i)
    {
      hide Accounts, Replay, SortKey;
      var e := events[i];
      if r.level == Ok || r.level == Careful {
        if r.now - e.begin > r.peak {
          events := events[i := e.(end := r.now)];
        } else {
          ghost var spans := ReplayConsistent(ops);
          ghost var at := Remove(events[i]);
          assert at == i;
        }
        return;
      }
      if r.level == Critical {
        e := e.(state := r.level);
      }
      e := e.(min := if r.value < e.min then r.value else e.min, max := if r.value > e.max then r.value else e.max);
      e := e.(sum := e.sum + r.value, count := e.count + 1);
      e := e.(avg := e.sum / (e.count as real));
      if r.level == Critical {
        e := e.(top := r.top, sortKey := SortKey(r.typ));
      }
      e := e.(desc := r.desc);
      events := events[i := e];
    }

    method Add(r: Operation) returns (n: nat)
      requires Valid() && r.Report? && r.now >= 0.0
      modifies this
      ensures Valid() && ops == old(ops) + [r] && events == Added(old(events), r) && n == |events|
    {
      hide Created, Updated;
      var at := EventExist(r.typ);
      if at < 0 {
        var ok := CreateEvent(r);
      } else {
        UpdateEvent(at, r);
      }
      ops := ops + [r];
      assert ops[..|ops| - 1] == old(ops);
      n := |events|;
    }

    /** Drops what is over, keeping finished CRITICAL events unless asked to drop them too. */
    method Clean(critical: bool) returns (n: nat)
      requires Valid()
      modifies this
      ensures Valid() && ops == old(ops) + [CleanUp(critical)] && events == Kept(old(events), critical) && n == |events|
    {
      var clean: seq<Event> := [];
      assert events + clean == events && Kept([], critical) == [];
      while |events| > 0
        invariant |events| <= |old(events)| && events == old(events)[..|events|] && ops == old(ops)
        invariant clean == Kept(old(events)[|events|..], critical)
        decreases |events|
      {
        var last := |events| - 1;
        var item := events[last];
        assert old(events)[last..][1..] == old(events)[last + 1..] && old(events)[last..][0] == item;
        events := events[..last];
        if item.end < 0.0 || (!critical && item.state == Critical) {
          clean := [item] + clean;
        }
      }
      assert old(events)[0..] == old(events);
      events := clean;
      ops := ops + [CleanUp(critical)];
      assert ops[..|ops| - 1] == old(ops);
      n := |events|;
    }
  }

  // ----- Any run -----

  /** After any sequence of reports and clean-ups the log is what they come to: at most ten events, the
      newest first, no type open twice, each the account of its type's reports since the alert that
      opened it, with its average between its extremes. */
  method Run(ops: seq<Operation>) returns (log: Log, ghost spans: seq<Span>)
    requires Clocked(ops)
    ensures fresh(log) && log.events == Replay(ops) && Consistent(ops, log.events, spans)
    ensures forall i :: 0 <= i < |log.events| ==> log.events[i].min <= log.events[i].avg <= log.events[i].max
  {
    hide Replay, Added, Kept, Accounts;
    log := new Log();
    var n := 0;
    while n < |ops|
      invariant 0 <= n <= |ops| && fresh(log) && log.Valid() && log.ops == ops[..n]
    {
      match ops[n] {
        case Report(_, _, _, _, _, _, _, _) =>
          var size := log.Add(ops[n]);
        case CleanUp(critical) =>
          var size := log.Clean(critical);
      }
      n := n + 1;
    }
    assert ops[..n] == ops;
    spans := ReplayConsistent(ops);
    forall i | 0 <= i < |log.events| ensures log.events[i].min <= log.events[i].avg <= log.events[i].max {
      Averages(ops, log.events[i], spans[i]);
    }
  }

  lemma Averages(ops: seq<Operation>, e: Event, s: Span)
    requires Accounts(ops, e, s)
    ensures e.min <= e.avg <= e.max
  {
    hide Summarises;
    MinAvgMax(e, Values(ops, e.typ, s.first, End(ops, e, s)));
  }
}
