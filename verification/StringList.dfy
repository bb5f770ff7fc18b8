/** A list of strings in one growing buffer: each string with its terminating null, and a further
    null after the last. */
module StringList {
  import opened Bits

  /** A C string: bytes other than null. */
  ghost predicate Clean(s: seq<u8>)
  {
    forall i :: 0 <= i < |s| ==> s[i] != 0
  }

  /** The strings one after another, each ended by a null. */
  function Packed(strings: seq<seq<u8>>): seq<u8>
  {
    if strings == [] then [] else Packed(strings[..|strings| - 1]) + strings[|strings| - 1] + [0]
  }

  /** Where the first null is, or the length. */
  function Strlen(b: seq<u8>): (n: nat)
    ensures n <= |b| && Clean(b[..n]) && (n < |b| ==> b[n] == 0)
  {
    if b == [] || b[0] == 0 then 0
    else
      var n := Strlen(b[1..]);
      assert b[..n + 1] == [b[0]] + b[1..][..n];
      1 + n
  }

  /** What a reader sees that steps from string to string until an empty one. */
  function Walk(b: seq<u8>): seq<seq<u8>>
    decreases |b|
  {
    var n := Strlen(b);
    if n == 0 || n == |b| then [] else [b[..n]] + Walk(b[n + 1..])
  }

  ghost predicate Strings(strings: seq<seq<u8>>)
  {
    forall i :: 0 <= i < |strings| ==> Clean(strings[i]) && strings[i] != []
  }

  lemma StrlenOf(s: seq<u8>, rest: seq<u8>)
    requires Clean(s)
    ensures Strlen(s + [0] + rest) == |s|
    decreases |s|
  {
    var b := s + [0] + rest;
    if s != [] {
      assert b[1..] == s[1..] + [0] + rest;
      StrlenOf(s[1..], rest);
    }
  }

  lemma {:induction false} PackedFirst(strings: seq<seq<u8>>)
    requires strings != []
    ensures Packed(strings) == strings[0] + [0] + Packed(strings[1..])
    decreases |strings|
  {
    var n := |strings| - 1;
    if n == 0 {
      assert strings[..0] == [] && strings[1..] == [];
    } else {
      PackedFirst(strings[..n]);
      assert strings[..n][1..] == strings[1..][..n - 1] && strings[1..][n - 1] == strings[n];
      var a, m, z := strings[0] + [0], Packed(strings[1..][..n - 1]), strings[n] + [0];
      assert (a + m) + z == a + (m + z);
      assert Packed(strings[..n]) + strings[n] + [0] == Packed(strings[..n]) + z;
      assert m + strings[n] + [0] == m + z;
    }
  }

  /** Walking a packed buffer gives back exactly the strings, in order. */
  lemma {:induction false} WalkPacked(strings: seq<seq<u8>>, junk: seq<u8>)
    requires Strings(strings)
    ensures Walk(Packed(strings) + [0] + junk) == strings
    decreases |strings|
  {
    hide Packed;
    var b := Packed(strings) + [0] + junk;
    if strings == [] {
      assert Packed([]) == [] by { NothingPacked(); }
      assert b[0] == 0;
    } else {
      var s, rest := strings[0], Packed(strings[1..]) + [0] + junk;
      PackedFirst(strings);
      assert b == s + [0] + rest;
      StrlenOf(s, rest);
      assert b[..|s|] == s && b[|s| + 1..] == rest;
      WalkPacked(strings[1..], junk);
      assert strings == [s] + strings[1..];
    }
  }

  lemma NothingPacked()
    ensures Packed([]) == []
  {
  }

  class List {
    var buffer: array<u8>
    var len: nat
    var cap: nat
    ghost var strings: seq<seq<u8>>

    /** The buffer holds the strings and one more null, with room for both. */
    ghost predicate Valid()
      reads this, buffer
    {
      && buffer.Length == cap && Strings(strings)
      && (if cap == 0 then len == 0 && strings == [] else len < cap && buffer[len] == 0)
      && len <= cap && buffer[..len] == Packed(strings)
    }

    constructor ()
      ensures Valid() && fresh(buffer) && strings == []
    {
      buffer := new u8[0];
      len, cap, strings := 0, 0, [];
    }

    /** realloc: more room, the same contents. */
    method Grow(newCap: nat)
      requires len <= buffer.Length && len <= newCap
      modifies this`buffer, this`cap
      ensures fresh(buffer) && buffer.Length == newCap == cap && buffer[..len] == old(buffer[..len])
    {
      var grown := new u8[newCap];
      forall i | 0 <= i < len {
        grown[i] := buffer[i];
      }
      assert grown[..len] == buffer[..len];
      buffer, cap := grown, newCap;
    }

    /** memcpy of the string and its null behind the contents, and the null after the last. */
    method Append(str: seq<u8>)
      requires len + |str| + 1 < buffer.Length
      modifies buffer, this`len
      ensures len == old(len) + |str| + 1 && buffer[len] == 0
      ensures buffer[..len] == old(buffer[..len]) + str + [0]
    {
      ghost var before := buffer[..len];
      var data := str + [0];
      forall i | 0 <= i < |data| {
        buffer[len + i] := data[i];
      }
      len := len + |data|;
      buffer[len] := 0;
      assert buffer[..len] == before + data;
    }

    /** Adds a string; an empty one is left out. */
    method Add(str: seq<u8>)
      requires Valid() && Clean(str)
      modifies this, buffer
      ensures Valid() && (buffer == old(buffer) || fresh(buffer))
      ensures strings == if str == [] then old(strings) else old(strings) + [str]
    {
      hide Packed, Clean;
      var n := |str| + 1;
      if n == 1 {
        return;
      }
      if n >= cap - len {
        var newCap := cap * 2;
        if newCap < len + n + 1 {
          newCap := len + n + 1;
        }
        Grow(newCap);
      }
      Append(str);
      PackedMore(strings, str);
      strings := strings + [str];
    }
  }

  lemma PackedMore(strings: seq<seq<u8>>, s: seq<u8>)
    ensures Packed(strings + [s]) == Packed(strings) + s + [0]
  {
    assert (strings + [s])[..|strings|] == strings;
  }

  function Nonempty(strings: seq<seq<u8>>): seq<seq<u8>>
  {
    if strings == [] then []
    else
      var last := strings[|strings| - 1];
      Nonempty(strings[..|strings| - 1]) + if last == [] then [] else [last]
  }

  /** Of each string as many as there were, but of the empty one none. */
  lemma {:induction false} NonemptyExactly(a: seq<seq<u8>>, x: seq<u8>)
    ensures multiset(Nonempty(a))[x] == if x == [] then 0 else multiset(a)[x]
  {
    if a != [] {
      var n := |a| - 1;
      NonemptyExactly(a[..n], x);
      assert a == a[..n] + [a[n]];
    }
  }

  /** And in their order. */
  lemma {:induction false} NonemptyInOrder(a: seq<seq<u8>>, b: seq<seq<u8>>)
    ensures Nonempty(a + b) == Nonempty(a) + Nonempty(b)
    decreases |b|
  {
    if b == [] {
      assert a + b == a;
      assert Nonempty(a) + [] == Nonempty(a);
    } else {
      var n, c := |b| - 1, a + b;
      NonemptyInOrder(a, b[..n]);
      assert c[..|c| - 1] == a + b[..n] && c[|c| - 1] == b[n];
    }
  }

  /** Adding any strings and walking the buffer: the nonempty ones come back, in order. */
  method AddAll(inputs: seq<seq<u8>>) returns (list: List, seen: seq<seq<u8>>)
    requires forall i :: 0 <= i < |inputs| ==> Clean(inputs[i])
    ensures fresh(list) && list.Valid() && seen == Nonempty(inputs)
  {
    hide Packed, Clean, Walk;
    list := new List();
    var i := 0;
    while i < |inputs|
      invariant 0 <= i <= |inputs| && fresh(list) && fresh(list.buffer) && list.Valid()
      invariant list.strings == Nonempty(inputs[..i])
    {
      list.Add(inputs[i]);
      assert inputs[..i + 1][..i] == inputs[..i] && inputs[..i + 1][i] == inputs[i];
      i := i + 1;
    }
    assert inputs[..i] == inputs;
    seen := if list.cap == 0 then [] else Walk(list.buffer[..]);
    if list.cap > 0 {
      var b := list.buffer[..];
      assert b == list.buffer[..list.len] + [0] + list.buffer[list.len + 1..];
      WalkPacked(list.strings, list.buffer[list.len + 1..]);
    }
  }
}
