/** The field of Curve25519: the integers modulo p = 2^255 - 19, each element by its representative
    in [0, p). Only the ring laws are used; nothing here depends on p being prime. */
module Field {
  const PRIME: int := 0x7fffffffffffffffffffffffffffffffffffffffffffffffffffffffffffffed

  /** The representative of `x` modulo p: p is added to it or taken from it until it lies in [0, p). */
  function F(x: int): (r: int)
    ensures 0 <= r < PRIME
    decreases if x < 0 then PRIME - x else x
  {
    if x < 0 then F(x + PRIME) else if x >= PRIME then F(x - PRIME) else x
  }

  function Add(a: int, b: int): (r: int)
    ensures 0 <= r < PRIME
  {
    F(a + b)
  }

  function Sub(a: int, b: int): (r: int)
    ensures 0 <= r < PRIME
  {
    F(a - b)
  }

  /** The product, by repeated addition. */
  function Mul(a: int, b: int): (r: int)
    ensures 0 <= r < PRIME
    decreases if b < 0 then 1 - b else b, a
  {
    if b == 0 then 0 else if b > 0 then Add(Mul(a, b - 1), a) else Sub(Mul(a, b + 1), a)
  }

  /** `x^n`, by repeated multiplication. */
  function Pow(x: int, n: nat): int
  {
    if n == 0 then 1 else Mul(x, Pow(x, n - 1))
  }

  // ----- Congruence -----

  lemma {:induction false} Congruent(a: int, b: int, k: int)
    requires a == b + k * 0x7fffffffffffffffffffffffffffffffffffffffffffffffffffffffffffffed
    ensures F(a) == F(b)
    decreases if k < 0 then -k else k
  {
    if k > 0 {
      Congruent(a - PRIME, b, k - 1);
    } else if k < 0 {
      Congruent(a + PRIME, b, k + 1);
    }
  }

  lemma {:induction false} Quotient(a: int) returns (k: int)
    ensures a == F(a) + k * 0x7fffffffffffffffffffffffffffffffffffffffffffffffffffffffffffffed
    decreases if a < 0 then PRIME - a else a
  {
    if a < 0 {
      k := Quotient(a + PRIME);
      k := k - 1;
    } else if a >= PRIME {
      k := Quotient(a - PRIME);
      k := k + 1;
    } else {
      k := 0;
    }
  }

  /** It is the residue. */
  lemma Residue(x: int)
    ensures F(x) == x % 0x7fffffffffffffffffffffffffffffffffffffffffffffffffffffffffffffed
  {
    hide F;
    var k := Quotient(x);
  }

  lemma Canonical(a: int)
    requires 0 <= a < PRIME
    ensures F(a) == a
  {
  }

  lemma ReduceSum(a: int, b: int)
    ensures F(F(a) + F(b)) == F(a + b)
    ensures F(F(a) - F(b)) == F(a - b)
  {
    hide F;
    var j := Quotient(a);
    var k := Quotient(b);
    Congruent(a + b, F(a) + F(b), j + k);
    Congruent(a - b, F(a) - F(b), j - k);
  }

  lemma ReduceFirst(a: int, b: int)
    ensures F(F(a) + b) == F(a + b) && F(F(a) - b) == F(a - b)
  {
    hide F;
    var k := Quotient(a);
    Congruent(a + b, F(a) + b, k);
    Congruent(a - b, F(a) - b, k);
  }

  /** Repeated addition multiplies. */
  lemma {:induction false} Product(a: int, b: int)
    ensures Mul(a, b) == F(a * b)
    decreases if b < 0 then 1 - b else b
  {
    hide F;
    if b == 0 {
      Canonical(0);
    } else if b > 0 {
      Product(a, b - 1);
      ReduceFirst(a * (b - 1), a);
      assert a * (b - 1) + a == a * b;
    } else {
      Product(a, b + 1);
      ReduceFirst(a * (b + 1), a);
      assert a * (b + 1) - a == a * b;
    }
  }

  /** Reducing the operands first changes no sum, difference or product. */
  lemma Reduce(a: int, b: int)
    ensures Add(F(a), F(b)) == Add(a, b)
    ensures Sub(F(a), F(b)) == Sub(a, b)
    ensures Mul(F(a), F(b)) == Mul(a, b)
  {
    hide F, Mul;
    ReduceSum(a, b);
    ReduceLeft(a, F(b));
    ReduceRight(a, b);
  }

  lemma ReduceLeft(a: int, b: int)
    ensures Mul(F(a), b) == Mul(a, b)
  {
    hide F, Mul;
    Product(F(a), b);
    Product(a, b);
    var k := Quotient(a);
    ScaledSum(F(a), k, 0x7fffffffffffffffffffffffffffffffffffffffffffffffffffffffffffffed, b);
    Congruent(a * b, F(a) * b, k * b);
  }

  lemma ScaledSum(x: int, k: int, m: int, b: int)
    ensures (x + k * m) * b == x * b + (k * b) * m
  {
    assert (k * m) * b == (k * b) * m;
  }

  lemma ReduceRight(a: int, b: int)
    ensures Mul(a, F(b)) == Mul(a, b)
  {
    hide F, Mul;
    MulComm(a, F(b));
    ReduceLeft(b, a);
    MulComm(b, a);
  }

  lemma Idempotent(a: int)
    ensures F(F(a)) == F(a)
  {
    Canonical(F(a));
  }

  // ----- Ring laws -----

  lemma MulComm(a: int, b: int)
    ensures Mul(a, b) == Mul(b, a)
  {
    hide F, Mul;
    Product(a, b);
    Product(b, a);
  }

  lemma AddComm(a: int, b: int)
    ensures Add(a, b) == Add(b, a)
  {
    hide F;
  }

  lemma MulAssoc(a: int, b: int, c: int)
    ensures Mul(Mul(a, b), c) == Mul(a, Mul(b, c))
  {
    hide F, Mul;
    calc {
      Mul(Mul(a, b), c);
      { Product(a, b); ReduceLeft(a * b, c); Product(a * b, c); }
      F((a * b) * c);
      { assert (a * b) * c == a * (b * c); }
      F(a * (b * c));
      { Product(a, b * c); ReduceRight(a, b * c); Product(b, c); }
      Mul(a, Mul(b, c));
    }
  }

  /** (a b)(c d) = (a c)(b d). */
  lemma MulSwap(a: int, b: int, c: int, d: int)
    ensures Mul(Mul(a, b), Mul(c, d)) == Mul(Mul(a, c), Mul(b, d))
  {
    hide F, Mul;
    calc {
      Mul(Mul(a, b), Mul(c, d));
      { MulAssoc(a, b, Mul(c, d)); MulAssoc(b, c, d); }
      Mul(a, Mul(Mul(b, c), d));
      { MulComm(b, c); MulAssoc(c, b, d); }
      Mul(a, Mul(c, Mul(b, d)));
      { MulAssoc(a, c, Mul(b, d)); }
      Mul(Mul(a, c), Mul(b, d));
    }
  }

  lemma Distribute(a: int, b: int, c: int)
    ensures Add(Mul(a, b), Mul(a, c)) == Mul(a, Add(b, c))
    ensures Sub(Mul(a, b), Mul(a, c)) == Mul(a, Sub(b, c))
  {
    hide F, Mul;
    Product(a, b);
    Product(a, c);
    ReduceSum(a * b, a * c);
    assert Mul(a, Add(b, c)) == F(a * (b + c)) by { ReduceRight(a, b + c); Product(a, b + c); }
    assert Mul(a, Sub(b, c)) == F(a * (b - c)) by { ReduceRight(a, b - c); Product(a, b - c); }
    assert a * (b + c) == a * b + a * c;
    assert a * (b - c) == a * b - a * c;
  }

  /** A difference and its opposite have the same square. */
  lemma SquareOfNegation(a: int, b: int)
    ensures Mul(Sub(a, b), Sub(a, b)) == Mul(Sub(b, a), Sub(b, a))
  {
    hide F, Mul;
    var d, e := a - b, b - a;
    Reduce(d, d);
    Reduce(e, e);
    Product(d, d);
    Product(e, e);
    assert d * d == e * e;
  }

  lemma MulOne(a: int)
    ensures Mul(1, a) == F(a) && Mul(a, 1) == F(a)
  {
    hide F, Mul;
    Product(1, a);
    Product(a, 1);
  }

  // ----- Powers -----

  lemma {:induction false} PowCanonical(x: int, n: nat)
    ensures F(Pow(x, n)) == Pow(x, n)
  {
    hide F, Mul;
    if n == 0 {
      Canonical(1);
    } else {
      Canonical(Pow(x, n));
    }
  }

  lemma {:induction false} PowAdd(x: int, m: nat, n: nat)
    ensures Mul(Pow(x, m), Pow(x, n)) == Pow(x, m + n)
  {
    hide F, Mul;
    if m == 0 {
      PowCanonical(x, n);
      MulOne(Pow(x, n));
    } else {
      PowAdd(x, m - 1, n);
      MulAssoc(x, Pow(x, m - 1), Pow(x, n));
    }
  }

  lemma {:induction false} PowMul(x: int, m: nat, n: nat)
    ensures Pow(Pow(x, m), n) == Pow(x, m * n)
  {
    hide F, Mul;
    if n == 0 {
    } else {
      PowMul(x, m, n - 1);
      PowAdd(x, m, m * (n - 1));
      assert m + m * (n - 1) == m * n;
    }
  }

  lemma {:induction false} PowOfProduct(x: int, y: int, n: nat)
    ensures Pow(Mul(x, y), n) == Mul(Pow(x, n), Pow(y, n))
  {
    hide F, Mul;
    if n == 0 {
      Canonical(1);
      MulOne(1);
    } else {
      PowOfProduct(x, y, n - 1);
      MulSwap(x, y, Pow(x, n - 1), Pow(y, n - 1));
    }
  }

  lemma {:induction false} PowReduce(x: int, n: nat)
    ensures Pow(F(x), n) == Pow(x, n)
  {
    hide F, Mul;
    if n == 0 {
    } else {
      PowReduce(x, n - 1);
      ReduceLeft(x, Pow(x, n - 1));
    }
  }
}
