/** The text the configuration reader and printer share: character classes, numbers, splitting. */
module Text {
  datatype Option<T> = None | Some(value: T)

  // ----- Characters -----

  predicate IsSpace(c: char)
  {
    '\t' <= c <= '\r' || c == ' '
  }

  predicate IsDigit(c: char)
  {
    '0' <= c <= '9'
  }

  function ToLower(c: char): char
  {
    if 'A' <= c <= 'Z' then c + ' ' else c
  }

  /** The character test as the code computes it, on the byte value. */
  function SpaceTrick(c: bv8): bool
  {
    var d := c - 9;
    ((0x80001F as bv32) >> ((d & 31) as bv6)) & ((1 as bv32) >> ((d >> 5) as bv6)) != 0
  }

  lemma SpaceByTrick(c: bv8)
    ensures SpaceTrick(c) <==> 9 <= c <= 13 || c == 32
  {
  }

  // ----- Strings -----

  /** Without white space and without the comment character. */
  predicate Dense(s: string)
  {
    forall i :: 0 <= i < |s| ==> !IsSpace(s[i]) && s[i] != '#'
  }

  predicate Free(s: string, c: char)
  {
    forall i :: 0 <= i < |s| ==> s[i] != c
  }

  predicate SameNoCase(a: string, b: string)
  {
    |a| == |b| && forall i :: 0 <= i < |a| ==> ToLower(a[i]) == ToLower(b[i])
  }

  /** What follows `key` in a line that starts with it, if anything does. */
  function GetValue(line: string, key: string): (r: Option<string>)
  {
    if |key| >= |line| || !SameNoCase(line[..|key|], key) then None else Some(line[|key|..])
  }

  /** The part before a comment, without white space. */
  function Clean(s: string): string
  {
    if s == [] || s[0] == '#' then []
    else (if IsSpace(s[0]) then [] else [s[0]]) + Clean(s[1..])
  }

  lemma {:induction false} CleanDense(s: string)
    requires Dense(s)
    ensures Clean(s) == s
  {
    if s != [] {
      CleanDense(s[1..]);
      assert s == [s[0]] + s[1..];
    }
  }

  lemma {:induction false} CleanConcat(a: string, b: string)
    requires Free(a, '#')
    ensures Clean(a + b) == Clean(a) + Clean(b)
  {
    if a == [] {
      assert a + b == b;
    } else {
      assert (a + b)[1..] == a[1..] + b;
      CleanConcat(a[1..], b);
    }
  }

  /** Where a character first occurs, or the length. */
  function IndexOf(s: string, c: char): (n: nat)
    ensures n <= |s| && Free(s[..n], c) && (n < |s| ==> s[n] == c)
  {
    if s == [] || s[0] == c then 0 else 1 + IndexOf(s[1..], c)
  }

  /** Where a character last occurs, or the length. */
  function LastIndexOf(s: string, c: char): (n: nat)
    ensures n <= |s| && (n < |s| ==> s[n] == c && Free(s[n + 1..], c))
    ensures n == |s| ==> Free(s, c)
  {
    if s == [] then 0
    else
      var n := LastIndexOf(s[1..], c);
      if n < |s| - 1 then n + 1 else if s[0] == c then 0 else |s|
  }

  lemma {:induction false} IndexOfConcat(a: string, c: char, b: string)
    requires Free(a, c)
    ensures IndexOf(a + [c] + b, c) == |a|
  {
    if a == [] {
      assert a + [c] + b == [c] + b;
    } else {
      assert (a + [c] + b)[1..] == a[1..] + [c] + b;
      IndexOfConcat(a[1..], c, b);
    }
  }

  lemma IndexOfNone(a: string, c: char)
    requires Free(a, c)
    ensures IndexOf(a, c) == |a|
  {
  }

  lemma {:induction false} LastIndexOfConcat(a: string, c: char, b: string)
    requires Free(b, c)
    ensures LastIndexOf(a + [c] + b, c) == |a|
  {
    var s := a + [c] + b;
    if a == [] {
      assert s[1..] == b;
      assert LastIndexOf(b, c) == |b|;
    } else {
      assert s[1..] == a[1..] + [c] + b;
      LastIndexOfConcat(a[1..], c, b);
    }
  }

  /** The pieces between separators; one empty piece for the empty string. */
  function Split(s: string, c: char): (r: seq<string>)
    ensures |r| > 0
    decreases |s|
  {
    var n := IndexOf(s, c);
    if n == |s| then [s] else [s[..n]] + Split(s[n + 1..], c)
  }

  /** Pieces joined by `c` and a separator text that cleaning reduces to `c`. */
  function Joined(parts: seq<string>, sep: string): string
    requires parts != []
  {
    if |parts| == 1 then parts[0] else parts[0] + sep + Joined(parts[1..], sep)
  }

  lemma {:induction false} SplitJoined(parts: seq<string>, c: char)
    requires parts != [] && forall i :: 0 <= i < |parts| ==> Free(parts[i], c)
    ensures Split(Joined(parts, [c]), c) == parts
  {
    hide Free, Split;
    if |parts| == 1 {
      SplitNone(parts[0], c);
      assert parts == [parts[0]];
    } else {
      SplitFirst(parts[0], c, Joined(parts[1..], [c]));
      SplitJoined(parts[1..], c);
      assert parts == [parts[0]] + parts[1..];
    }
  }

  lemma SplitNone(a: string, c: char)
    requires Free(a, c)
    ensures Split(a, c) == [a]
  {
    IndexOfNone(a, c);
  }

  lemma SplitFirst(a: string, c: char, b: string)
    requires Free(a, c)
    ensures Split(a + [c] + b, c) == [a] + Split(b, c)
  {
    hide IndexOf;
    var s := a + [c] + b;
    IndexOfConcat(a, c, b);
    assert s[..|a|] == a && s[|a| + 1..] == b;
  }

  // ----- Numbers -----

  function Digit(n: nat): char
    requires n < 16
  {
    if n < 10 then '0' + n as char else 'a' + (n - 10) as char
  }

  function DigitValue(c: char): nat
  {
    if '0' <= c <= '9' then (c - '0') as nat
    else if 'a' <= c <= 'f' then (c - 'a') as nat + 10
    else if 'A' <= c <= 'F' then (c - 'A') as nat + 10
    else 16
  }

  /** A number in a base, without leading zeros. */
  function Numeral(n: nat, base: nat): (s: string)
    requires 2 <= base <= 16
    ensures |s| > 0
  {
    if n < base then [Digit(n)] else Numeral(n / base, base) + [Digit(n % base)]
  }

  /** The value of a string of digits, as `strtoul` reads it to the end; none if some is no digit. */
  function Number(s: string, base: nat): Option<nat>
    requires 2 <= base <= 16
  {
    if s == [] then None
    else
      var d, init := DigitValue(s[|s| - 1]), s[..|s| - 1];
      if d >= base then None
      else if init == [] then Some(d)
      else
        var h := Number(init, base);
        if h.None? then None else Some(h.value * base + d)
  }

  lemma DigitRoundTrip(n: nat)
    requires n < 16
    ensures DigitValue(Digit(n)) == n && !IsSpace(Digit(n)) && (n < 10 ==> IsDigit(Digit(n)))
    ensures Digit(n) != '#' && Digit(n) != ',' && Digit(n) != '/' && Digit(n) != ':'
  {
  }

  lemma NumberAppend(init: string, c: char, base: nat)
    requires 2 <= base <= 16 && init != [] && Number(init, base).Some? && DigitValue(c) < base
    ensures Number(init + [c], base) == Some(Number(init, base).value * base + DigitValue(c))
  {
    hide DigitValue;
    var s := init + [c];
    assert s[|s| - 1] == c && s[..|s| - 1] == init;
  }

  lemma DivMod(n: nat, base: nat)
    requires base >= 2
    ensures n / base * base + n % base == n && (n >= base ==> 0 < n / base < n)
  {
    var q := n / base;
    assert q >= 1 ==> q * base >= q * 2;
  }

  lemma NumeralStep(n: nat, base: nat)
    requires 2 <= base <= 16 && n >= base
    ensures Numeral(n, base) == Numeral(n / base, base) + [Digit(n % base)]
  {
    hide Digit;
  }

  lemma {:induction false} NumberOfNumeral(n: nat, base: nat)
    requires 2 <= base <= 16
    ensures Number(Numeral(n, base), base) == Some(n)
    decreases n
  {
    hide Digit, DigitValue, Number, Numeral;
    if n < base {
      DigitRoundTrip(n);
      NumberOne(Digit(n), base);
      NumeralOne(n, base);
    } else {
      var q, r := n / base, n % base;
      DivMod(n, base);
      NumeralStep(n, base);
      DigitRoundTrip(r);
      NumberOfNumeral(q, base);
      NumberAppend(Numeral(q, base), Digit(r), base);
    }
  }

  lemma NumeralOne(n: nat, base: nat)
    requires 2 <= base <= 16 && n < base
    ensures Numeral(n, base) == [Digit(n)]
  {
  }

  lemma NumberOne(c: char, base: nat)
    requires 2 <= base <= 16 && DigitValue(c) < base
    ensures Number([c], base) == Some(DigitValue(c))
  {
    hide DigitValue;
    assert [c][..0] == [];
  }

  /** A numeral has no character that means anything to the reader, and starts with a digit. */
  lemma {:induction false} NumeralPlain(n: nat, base: nat)
    requires 2 <= base <= 16
    ensures var s := Numeral(n, base); Dense(s) && Free(s, ',') && Free(s, '/') && Free(s, ':')
    ensures base == 10 ==> IsDigit(Numeral(n, base)[0])
  {
    hide Digit, IsSpace, IsDigit;
    if n < base {
      DigitRoundTrip(n);
    } else {
      NumeralPlain(n / base, base);
      DigitRoundTrip(n % base);
    }
  }
}
