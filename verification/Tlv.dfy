/** Netlink attributes: a 4-byte header (length, type), a payload, zero padding to 4 bytes. An
    attribute's payload may itself be a list of attributes. */
module Tlv {
  import opened Bits

  /** The flag that marks an attribute's payload as a list of attributes. */
  const NESTED := 0x8000

  datatype Attr = Leaf(typ: nat, data: seq<u8>) | Nest(typ: nat, kids: seq<Attr>)

  /** An attribute as the walker sees it: the type field and the payload bytes. */
  datatype Item = Item(raw: nat, payload: seq<u8>)

  function Align(n: nat): (r: nat)
    ensures n <= r < n + 4 && r % 4 == 0
  {
    (n + 3) / 4 * 4
  }

  function Le16(n: nat): (b: seq<u8>)
    ensures |b| == 2
  {
    [n % 256, n / 256 % 256]
  }

  function FromLe16(lo: u8, hi: u8): (n: nat)
    ensures n < 0x10000
  {
    lo + 256 * hi
  }

  lemma Le16Inverse(n: nat)
    requires n < 0x10000
    ensures FromLe16(Le16(n)[0], Le16(n)[1]) == n
  {
  }

  function Zeros(n: nat): (b: seq<u8>)
    ensures |b| == n
  {
    seq(n, _ => 0)
  }

  lemma ZerosAreZero(n: nat, i: nat)
    requires i < n
    ensures Zeros(n)[i] == 0
  {
  }

  // ----- Encoding -----

  /** One attribute in the buffer. */
  function ItemBytes(raw: nat, payload: seq<u8>): (b: seq<u8>)
    ensures |b| == 4 + Align(|payload|) && |b| % 4 == 0
  {
    Le16(4 + |payload|) + Le16(raw) + payload + Zeros(Align(|payload|) - |payload|)
  }

  function Encode(a: Attr): (b: seq<u8>)
    ensures |b| % 4 == 0 && |b| >= 4
  {
    match a
    case Leaf(typ, data) => ItemBytes(typ, data)
    case Nest(typ, kids) => ItemBytes(NESTED + typ, EncodeAll(kids))
  }

  function EncodeAll(attrs: seq<Attr>): (b: seq<u8>)
  {
    if attrs == [] then [] else Encode(attrs[0]) + EncodeAll(attrs[1..])
  }

  lemma {:induction false} EncodedAligned(attrs: seq<Attr>)
    ensures |EncodeAll(attrs)| % 4 == 0
  {
    hide Encode;
    if attrs == [] {
    } else {
      EncodedAligned(attrs[1..]);
      SumAligned(|Encode(attrs[0])|, |EncodeAll(attrs[1..])|);
    }
  }

  lemma SumAligned(m: nat, n: nat)
    requires m % 4 == 0 && n % 4 == 0
    ensures (m + n) % 4 == 0
  {
  }

  lemma {:induction false} EncodeConcat(a: seq<Attr>, b: seq<Attr>)
    ensures EncodeAll(a + b) == EncodeAll(a) + EncodeAll(b)
  {
    hide Encode;
    if a == [] {
      assert a + b == b;
    } else {
      assert (a + b)[1..] == a[1..] + b;
      EncodeConcat(a[1..], b);
    }
  }

  lemma EncodeOne(a: Attr)
    ensures EncodeAll([a]) == Encode(a)
  {
    hide Encode;
    assert EncodeAll([a]) == Encode(a) + EncodeAll([a][1..]);
  }

  lemma EncodeAppend(a: seq<Attr>, x: Attr)
    ensures EncodeAll(a + [x]) == EncodeAll(a) + Encode(x)
  {
    hide Encode, EncodeAll;
    EncodeConcat(a, [x]);
    EncodeOne(x);
  }

  // ----- Walking -----

  /** Whether a whole attribute starts here, with `|b|` bytes left. */
  predicate Ok(b: seq<u8>)
  {
    |b| >= 4 && 4 <= FromLe16(b[0], b[1]) <= |b|
  }

  /** What remains after the first attribute; the aligned step may pass the end. */
  function Next(b: seq<u8>): (r: seq<u8>)
    requires Ok(b)
    ensures |r| < |b|
  {
    var step := Align(FromLe16(b[0], b[1]));
    if step <= |b| then b[step..] else []
  }

  function First(b: seq<u8>): (r: Item)
    requires Ok(b)
    ensures |r.payload| < |b|
  {
    Item(FromLe16(b[2], b[3]), b[4..FromLe16(b[0], b[1])])
  }

  /** Every attribute the walker visits, in order. */
  function Walk(b: seq<u8>): (r: seq<Item>)
    ensures forall i :: 0 <= i < |r| ==> |r[i].payload| < |b|
    decreases |b|
  {
    if Ok(b) then [First(b)] + Walk(Next(b)) else []
  }

  /** The bytes left where the walker stops. */
  function Rest(b: seq<u8>): seq<u8>
    decreases |b|
  {
    if Ok(b) then Rest(Next(b)) else b
  }

  /** The attribute tree, descending wherever the type carries the nested flag. */
  function Decode(b: seq<u8>): seq<Attr>
    decreases |b|, 1
  {
    DecodeItems(Walk(b), |b|)
  }

  function DecodeItems(items: seq<Item>, bound: nat): seq<Attr>
    requires forall i :: 0 <= i < |items| ==> |items[i].payload| < bound
    decreases bound, 0, |items|
  {
    if items == [] then [] else [DecodeItem(items[0], bound)] + DecodeItems(items[1..], bound)
  }

  function DecodeItem(item: Item, bound: nat): Attr
    requires |item.payload| < bound
    decreases bound, 0, 0
  {
    if item.raw >= NESTED then Nest(item.raw % 0x4000, Decode(item.payload))
    else Leaf(item.raw % 0x4000, item.payload)
  }

  /** The bytes from a position to the end of a buffer, none once the position has passed it. */
  function Window(s: seq<u8>, at: nat, end: nat): seq<u8>
    requires end <= |s|
  {
    if at <= end then s[at..end] else []
  }

  lemma WindowStep(s: seq<u8>, at: nat, end: nat)
    requires end <= |s| && Ok(Window(s, at, end))
    ensures at + 4 <= end && var size := FromLe16(s[at], s[at + 1]);
      && 4 <= size <= end - at
      && First(Window(s, at, end)) == Item(FromLe16(s[at + 2], s[at + 3]), s[at + 4..at + size])
      && Next(Window(s, at, end)) == Window(s, at + Align(size), end)
  {
    hide FromLe16;
    var b := Window(s, at, end);
    assert b[0] == s[at] && b[1] == s[at + 1] && b[2] == s[at + 2] && b[3] == s[at + 3];
    var size := FromLe16(s[at], s[at + 1]);
    SliceOfSlice(s, at, end, 4, size);
    var step := Align(size);
    if step <= |b| {
      SliceOfSlice(s, at, end, step, |b|);
    }
  }

  lemma SliceOfSlice<T>(s: seq<T>, a: nat, e: nat, i: nat, j: nat)
    requires a <= e <= |s| && i <= j <= e - a
    ensures s[a..e][i..j] == s[a + i..a + j]
  {
    var x, y := s[a..e][i..j], s[a + i..a + j];
    assert forall k :: 0 <= k < |x| ==> x[k] == y[k];
  }

  /** The walker as the parsing loops run it: a position moving through a buffer. */
  method ForEach(buf: array<u8>, from: nat, end: nat) returns (items: seq<Item>)
    requires from <= end <= buf.Length
    ensures items == Walk(buf[from..end])
  {
    hide Walk, Ok, First, Next;
    items := [];
    ghost var s := buf[..];
    assert Window(s, from, end) == buf[from..end];
    var at := from;
    while at <= end && Ok(buf[at..end])
      invariant from <= at
      invariant items + Walk(Window(s, at, end)) == Walk(buf[from..end])
      decreases end + 4 - at
    {
      assert Window(s, at, end) == buf[at..end];
      WindowStep(s, at, end);
      WalkStep(Window(s, at, end));
      var size := FromLe16(buf[at], buf[at + 1]);
      items := items + [Item(FromLe16(buf[at + 2], buf[at + 3]), buf[at + 4..at + size])];
      at := at + Align(size);
    }
    assert at <= end ==> Window(s, at, end) == buf[at..end];
    NotOkEmpty();
    WalkStep(Window(s, at, end));
  }

  lemma NotOkEmpty()
    ensures !Ok([])
  {
  }

  lemma WalkStep(b: seq<u8>)
    ensures Walk(b) == if Ok(b) then [First(b)] + Walk(Next(b)) else []
  {
  }

  // ----- Round trip -----

  /** Whether every type and length fits its 16-bit field. */
  ghost predicate Fits(a: Attr)
    decreases a
  {
    a.typ < 0x4000 && |Encode(a)| < 0x10000 && (a.Nest? ==> forall k | k in a.kids :: Fits(k))
  }

  /** The item an attribute is written as. */
  function Raw(a: Attr): Item
  {
    match a
    case Leaf(typ, data) => Item(typ, data)
    case Nest(typ, kids) => Item(NESTED + typ, EncodeAll(kids))
  }

  lemma FirstOfItem(raw: nat, payload: seq<u8>, rest: seq<u8>)
    requires raw < 0x10000 && |ItemBytes(raw, payload)| < 0x10000
    ensures var b := ItemBytes(raw, payload) + rest;
      Ok(b) && First(b) == Item(raw, payload) && Next(b) == rest
  {
    var b := ItemBytes(raw, payload) + rest;
    var size := 4 + |payload|;
    Le16Inverse(size);
    Le16Inverse(raw);
    assert b[0] == Le16(size)[0] && b[1] == Le16(size)[1];
    assert b[2] == Le16(raw)[0] && b[3] == Le16(raw)[1];
    assert b[4..size] == payload;
    assert Align(size) == |ItemBytes(raw, payload)|;
  }

  function Raws(attrs: seq<Attr>): (r: seq<Item>)
    ensures |r| == |attrs|
  {
    if attrs == [] then [] else [Raw(attrs[0])] + Raws(attrs[1..])
  }

  lemma EncodeIsItem(a: Attr)
    requires Fits(a)
    ensures Encode(a) == ItemBytes(Raw(a).raw, Raw(a).payload) && Raw(a).raw < 0x10000 && |Encode(a)| < 0x10000
  {
    hide ItemBytes, EncodeAll;
  }

  lemma RestStep(b: seq<u8>)
    ensures Rest(b) == if Ok(b) then Rest(Next(b)) else b
  {
  }

  /** The walker reads back exactly the attributes written. */
  lemma {:induction false} WalkEncoded(attrs: seq<Attr>)
    requires forall a :: a in attrs ==> Fits(a)
    ensures Walk(EncodeAll(attrs)) == Raws(attrs)
  {
    hide Encode, Walk, Ok, First, Next, Raw, Fits;
    WalkStep(EncodeAll(attrs));
    if attrs == [] {
      NotOkEmpty();
    } else {
      assert attrs[0] in attrs;
      EncodeIsItem(attrs[0]);
      FirstOfItem(Raw(attrs[0]).raw, Raw(attrs[0]).payload, EncodeAll(attrs[1..]));
      WalkEncoded(attrs[1..]);
    }
  }

  /** It stops exactly at their end. */
  lemma {:induction false} RestEncoded(attrs: seq<Attr>)
    requires forall a :: a in attrs ==> Fits(a)
    ensures Rest(EncodeAll(attrs)) == []
  {
    hide Encode, Rest, Ok, First, Next, Raw, Fits;
    RestStep(EncodeAll(attrs));
    if attrs == [] {
      NotOkEmpty();
    } else {
      assert attrs[0] in attrs;
      EncodeIsItem(attrs[0]);
      FirstOfItem(Raw(attrs[0]).raw, Raw(attrs[0]).payload, EncodeAll(attrs[1..]));
      RestEncoded(attrs[1..]);
    }
  }

  /** Building an attribute tree and walking it gives the tree back. */
  lemma {:induction false} DecodeEncoded(attrs: seq<Attr>)
    requires forall a :: a in attrs ==> Fits(a)
    ensures Decode(EncodeAll(attrs)) == attrs
    decreases attrs, 1
  {
    hide Encode, Walk, Fits, Raws, DecodeItems;
    var items := Walk(EncodeAll(attrs));
    WalkEncoded(attrs);
    DecodeRaw(attrs, items, |EncodeAll(attrs)|);
  }

  lemma {:induction false} DecodeRaw(attrs: seq<Attr>, items: seq<Item>, bound: nat)
    requires forall a :: a in attrs ==> Fits(a)
    requires items == Raws(attrs)
    requires forall i :: 0 <= i < |items| ==> |items[i].payload| < bound
    ensures DecodeItems(items, bound) == attrs
    decreases attrs, 0
  {
    hide Encode, Walk, EncodeAll;
    if attrs == [] {
    } else {
      var a := attrs[0];
      assert Fits(a);
      if a.Nest? {
        DecodeEncoded(a.kids);
      }
      assert DecodeItem(items[0], bound) == a;
      DecodeRaw(attrs[1..], items[1..], bound);
      assert attrs == [a] + attrs[1..];
    }
  }
}
