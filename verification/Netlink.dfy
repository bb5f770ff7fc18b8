/** Building one netlink message in a fixed buffer: the length field, attributes appended at the
    tail, and nested attributes whose length is filled in when they end. */
module Netlink {
  import opened Bits
  import opened Tlv

  /** The netlink header and the generic netlink header. */
  const HEADER := 20

  /** A nest of type `typ` begun after `before`, its length not yet written, holding `body`. */
  ghost predicate Opened(bytes: seq<u8>, before: seq<u8>, typ: nat, body: seq<u8>)
  {
    && |bytes| == |before| + 4 + |body|
    && bytes[..|before|] == before
    && bytes[|before| + 2..|before| + 4] == Le16(NESTED + typ)
    && bytes[|before| + 4..] == body
  }

  /** Appending to the message appends to the body of the innermost nest. */
  lemma OpenedAppend(bytes: seq<u8>, before: seq<u8>, typ: nat, body: seq<u8>, more: seq<u8>)
    requires Opened(bytes, before, typ, body)
    ensures Opened(bytes + more, before, typ, body + more)
  {
    var n, all := |before|, bytes + more;
    assert all[..n] == bytes[..n];
    assert all[n + 2..n + 4] == bytes[n + 2..n + 4];
    assert all[n + 4..] == bytes[n + 4..] + more;
  }

  /** Writing the length of a nest makes it a complete attribute. */
  lemma OpenedEnd(bytes: seq<u8>, before: seq<u8>, typ: nat, body: seq<u8>)
    requires Opened(bytes, before, typ, body) && |body| % 4 == 0
    ensures var n := |before|;
      bytes[..n] + Le16(|bytes| - n) + bytes[n + 2..] == before + ItemBytes(NESTED + typ, body)
  {
    hide Le16;
    var n := |before|;
    assert bytes[n + 2..] == bytes[n + 2..n + 4] + bytes[n + 4..];
    assert Align(|body|) == |body|;
    assert Zeros(0) == [];
  }

  /** `s` with `d` written over it at `at`. */
  ghost function Splice(s: seq<u8>, at: nat, d: seq<u8>): (r: seq<u8>)
    requires at + |d| <= |s|
    ensures |r| == |s|
  {
    s[..at] + d + s[at + |d|..]
  }

  lemma SpliceLeft(s: seq<u8>, at: nat, a: seq<u8>, b: seq<u8>)
    requires at + |a| + |b| <= |s|
    ensures Splice(Splice(s, at + |a|, b), at, a) == Splice(s, at, a + b)
  {
  }

  lemma SpliceRight(s: seq<u8>, at: nat, a: seq<u8>, b: seq<u8>)
    requires at + |a| + |b| <= |s|
    ensures Splice(Splice(s, at, a), at + |a|, b) == Splice(s, at, a + b)
  {
  }

  lemma SpliceTail(s: seq<u8>, from: nat, at: nat, d: seq<u8>)
    requires from <= at && at + |d| <= |s|
    ensures Splice(s, at, d)[from..at + |d|] == s[from..at] + d
  {
  }

  lemma AlignHeader(n: nat)
    ensures Align(4 + n) == 4 + Align(n) && (4 + Align(n)) % 4 == 0
  {
  }

  lemma AlignedDifference(a: nat, b: nat)
    requires (a + b) % 4 == 0 && b % 4 == 0
    ensures a % 4 == 0
  {
  }

  class Message {
    const buf: array<u8>
    var len: nat

    ghost predicate Valid()
      reads this
    {
      HEADER <= len <= buf.Length <= 8192 && len % 4 == 0
    }

    /** The attributes written so far. */
    ghost function Attrs(): (b: seq<u8>)
      requires Valid()
      reads this, buf
      ensures |b| == len - HEADER
    {
      buf[HEADER..len]
    }

    constructor (size: nat)
      requires HEADER <= size <= 8192
      ensures Valid() && fresh(buf) && buf.Length == size && Attrs() == []
    {
      buf := new u8[size];
      len := HEADER;
    }

    /** Starts the next message in the same buffer. */
    method Prepare()
      requires Valid()
      modifies this`len, buf
      ensures Valid() && Attrs() == []
    {
      forall i | 0 <= i < HEADER {
        buf[i] := 0;
      }
      len := HEADER;
    }

    /** memcpy into the buffer. */
    method Write(at: nat, data: seq<u8>)
      requires at + |data| <= buf.Length
      modifies buf
      ensures buf[..] == Splice(old(buf[..]), at, data)
    {
      forall i | 0 <= i < |data| {
        buf[at + i] := data[i];
      }
    }

    method Put(typ: nat, data: seq<u8>)
      requires Valid() && len + 4 + Align(|data|) <= buf.Length
      modifies this`len, buf
      ensures Valid() && Attrs() == old(Attrs()) + ItemBytes(typ, data)
    {
      hide Le16, Zeros, Splice, Align;
      ghost var s := buf[..];
      AlignHeader(|data|);
      SumAligned(len, 4 + Align(|data|));
      var at, size, pad := len, 4 + |data|, Align(|data|) - |data|;
      Write(at + 2, Le16(typ));
      Write(at, Le16(size));
      Write(at + 4, data);
      len := len + Align(size);
      Write(at + size, Zeros(pad));
      SpliceLeft(s, at, Le16(size), Le16(typ));
      SpliceRight(s, at, Le16(size) + Le16(typ), data);
      SpliceRight(s, at, Le16(size) + Le16(typ) + data, Zeros(pad));
      SpliceTail(s, HEADER, at, ItemBytes(typ, data));
      assert buf[HEADER..len] == buf[..][HEADER..len];
      assert old(buf[HEADER..len]) == s[HEADER..at];
    }

    method PutCheck(typ: nat, data: seq<u8>) returns (ok: bool)
      requires Valid()
      modifies this`len, buf
      ensures Valid() && ok == (old(len) + 4 + Align(|data|) <= buf.Length)
      ensures Attrs() == if ok then old(Attrs()) + ItemBytes(typ, data) else old(Attrs())
    {
      if len + 4 + Align(|data|) > buf.Length {
        return false;
      }
      Put(typ, data);
      return true;
    }

    /** Begins a nest; its length stays unwritten until NestEnd. */
    method NestStart(typ: nat) returns (start: nat)
      requires Valid() && len + 4 <= buf.Length
      modifies this`len, buf
      ensures Valid() && start == old(len) && len == start + 4
      ensures Opened(Attrs(), old(Attrs()), typ, [])
    {
      start := len;
      buf[start + 2], buf[start + 3] := Le16(NESTED + typ)[0], Le16(NESTED + typ)[1];
      len := len + 4;
      assert buf[HEADER..start] == old(buf[HEADER..len]);
    }

    method NestStartCheck(typ: nat) returns (ok: bool, start: nat)
      requires Valid()
      modifies this`len, buf
      ensures Valid() && ok == (old(len) + 4 <= buf.Length)
      ensures if ok then start == old(len) && len == start + 4 && Opened(Attrs(), old(Attrs()), typ, [])
        else Attrs() == old(Attrs())
    {
      if len + 4 > buf.Length {
        return false, 0;
      }
      start := NestStart(typ);
      ok := true;
    }

    method NestEnd(start: nat, ghost before: seq<u8>, ghost typ: nat, ghost body: seq<u8>)
      requires Valid() && start == HEADER + |before| && |body| % 4 == 0
      requires Opened(Attrs(), before, typ, body)
      modifies buf
      ensures Valid() && Attrs() == before + ItemBytes(NESTED + typ, body)
    {
      hide Opened, ItemBytes;
      ghost var bytes, n := Attrs(), |before|;
      assert |bytes| == n + 4 + |body| by { OpenedSize(bytes, before, typ, body); }
      OpenedEnd(bytes, before, typ, body);
      var size := len - start;
      buf[start], buf[start + 1] := Le16(size)[0], Le16(size)[1];
      assert Attrs()[..n] == bytes[..n];
      assert Attrs()[n..n + 2] == Le16(size);
      assert Attrs()[n + 2..] == bytes[n + 2..];
      assert Attrs() == Attrs()[..n] + Attrs()[n..n + 2] + Attrs()[n + 2..];
    }

    /** Drops a nest and everything put in it: the message is as it was before the nest began. */
    method NestCancel(start: nat, ghost before: seq<u8>, ghost typ: nat, ghost body: seq<u8>)
      requires Valid() && start == HEADER + |before| && |body| % 4 == 0
      requires Opened(Attrs(), before, typ, body)
      modifies this`len
      ensures Valid() && len == start && Attrs() == before
    {
      AlignedDifference(start, 4 + |body|);
      ghost var bytes := Attrs();
      len := len - (len - start);
      assert Attrs() == bytes[..|before|];
    }
  }

  lemma OpenedSize(bytes: seq<u8>, before: seq<u8>, typ: nat, body: seq<u8>)
    requires Opened(bytes, before, typ, body)
    ensures |bytes| == |before| + 4 + |body|
  {
  }

  // ----- Whole trees -----

  /** Appends a list of attributes, nests and all. */
  method Build(m: Message, attrs: seq<Attr>)
    requires m.Valid() && m.len + |EncodeAll(attrs)| <= m.buf.Length
    modifies m`len, m.buf
    ensures m.Valid() && m.Attrs() == old(m.Attrs()) + EncodeAll(attrs)
    decreases attrs, 1
  {
    hide Encode;
    if attrs == [] {
      return;
    }
    BuildOne(m, attrs[0]);
    Build(m, attrs[1..]);
  }

  method BuildOne(m: Message, a: Attr)
    requires m.Valid() && m.len + |Encode(a)| <= m.buf.Length
    modifies m`len, m.buf
    ensures m.Valid() && m.Attrs() == old(m.Attrs()) + Encode(a)
    decreases a, 0
  {
    hide EncodeAll, ItemBytes, Opened;
    match a {
      case Leaf(typ, data) =>
        m.Put(typ, data);
      case Nest(typ, kids) =>
        ghost var before, body := m.Attrs(), EncodeAll(kids);
        EncodedAligned(kids);
        AlignedWhole(|body|);
        var start := m.NestStart(typ);
        ghost var bytes := m.Attrs();
        Build(m, kids);
        OpenedAppend(bytes, before, typ, [], body);
        assert [] + body == body;
        m.NestEnd(start, before, typ, body);
    }
  }

  lemma AlignedWhole(n: nat)
    requires n % 4 == 0
    ensures Align(n) == n
  {
  }

  /** What is built decodes to what it was built from, with nothing left over. */
  method BuildMessage(size: nat, attrs: seq<Attr>) returns (m: Message)
    requires HEADER + |EncodeAll(attrs)| <= size <= 8192 && forall a :: a in attrs ==> Fits(a)
    ensures fresh(m) && fresh(m.buf) && m.Valid() && m.buf.Length == size
    ensures Decode(m.Attrs()) == attrs && Rest(m.Attrs()) == []
  {
    m := new Message(size);
    Build(m, attrs);
    assert m.Attrs() == EncodeAll(attrs);
    DecodeEncoded(attrs);
    RestEncoded(attrs);
  }
}
