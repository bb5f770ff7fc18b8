/** Fermat's little theorem for the field's modulus, from the one hypothesis that it is prime. */
module Fermat {
  import opened Field

  ghost predicate Prime(n: int)
  {
    n >= 2 && forall d: int :: 2 <= d < n ==> n % d != 0
  }

  // ----- Inverses -----

  /** Every nonzero element has an inverse: replace `a` by the remainder of p by `a`. */
  lemma {:induction false} Inverse(a: int, p: int) returns (u: int)
    requires p == PRIME && Prime(p) && 0 < a < p
    ensures Mul(u, a) == 1
    decreases a
  {
    if a == 1 {
      u := 1;
      Canonical(1);
    } else {
      var t, r := p / a, p % a;
      var v := Inverse(r, p);
      u := -(t * v);
      Negate(p, a, t, r, v);
    }
  }

  lemma Negate(p: int, a: int, t: int, r: int, v: int)
    requires p == PRIME && p == a * t + r && Mul(v, r) == 1
    ensures Mul(-(t * v), a) == 1
  {
    hide F, Mul;
    Product(v, r);
    Product(-(t * v), a);
    assert -(t * v) * a == v * r - v * p by {
      assert v * p == v * (a * t) + v * r;
      assert v * (a * t) == t * v * a;
    }
    Congruent(-(t * v) * a, v * r, -v);
  }

  // ----- Binomials -----

  function Choose(n: nat, k: nat): nat
  {
    if k == 0 then 1 else if n == 0 then 0 else Choose(n - 1, k) + Choose(n - 1, k - 1)
  }

  lemma {:induction false} ChooseBeyond(n: nat, k: nat)
    requires n < k
    ensures Choose(n, k) == 0
  {
    if n == 0 {
    } else {
      ChooseBeyond(n - 1, k);
      ChooseBeyond(n - 1, k - 1);
    }
  }

  lemma {:induction false} ChooseAll(n: nat)
    ensures Choose(n, n) == 1
  {
    if n == 0 {
    } else {
      ChooseAll(n - 1);
      ChooseBeyond(n - 1, n);
    }
  }

  /** k C(n, k) = n C(n-1, k-1). */
  lemma {:induction false} Absorb(n: nat, k: nat)
    requires n > 0 && k > 0
    ensures k * Choose(n, k) == n * Choose(n - 1, k - 1)
  {
    if n == 1 {
    } else {
      var x, y := Choose(n - 1, k), Choose(n - 1, k - 1);
      Absorb(n - 1, k);
      if k == 1 {
        assert Choose(n - 1, 0) == Choose(n - 2, 0) == 1;
      } else {
        Absorb(n - 1, k - 1);
        var s, t := Choose(n - 2, k - 1), Choose(n - 2, k - 2);
        assert y == s + t;
        Combine(n, k, x, y, s, t);
      }
    }
  }

  lemma Combine(n: int, k: int, x: int, y: int, s: int, t: int)
    requires k * x == (n - 1) * s && (k - 1) * y == (n - 1) * t && y == s + t
    ensures k * (x + y) == n * y
  {
    assert k * (x + y) == k * x + (k - 1) * y + y;
    assert (n - 1) * s + (n - 1) * t == (n - 1) * y;
    assert (n - 1) * y + y == n * y;
  }

  /** The inner binomial coefficients of a prime vanish. */
  lemma ChooseVanishes(p: nat, k: nat)
    requires p == PRIME && Prime(p) && 0 < k < p
    ensures F(Choose(p, k)) == 0
  {
    hide F, Mul, Choose;
    var c, d := Choose(p, k), Choose(p - 1, k - 1);
    Absorb(p, k);
    Congruent(k * c, 0, d);
    Canonical(0);
    var u := Inverse(k, p);
    MulAssoc(u, k, c);
    Product(k, c);
    Product(u, 0);
    assert u * 0 == 0;
    MulOne(c);
  }

  // ----- The binomial theorem over the field -----

  /** The terms 0 to m of the expansion of (a + 1)^n. */
  function Expansion(a: int, n: nat, m: nat): (r: int)
  {
    if m == 0 then 1 else Add(Expansion(a, n, m - 1), Mul(Choose(n, m), Pow(a, m)))
  }

  lemma {:induction false} Pascal(a: int, n: nat, m: nat)
    ensures Expansion(a, n + 1, m + 1) == Add(Expansion(a, n, m + 1), Mul(a, Expansion(a, n, m)))
  {
    hide F, Add, Mul, Choose, Pow;
    var c, d, w := Choose(n, m + 1), Choose(n, m), Pow(a, m);
    assert Choose(n + 1, m + 1) == c + d by { ChoosePascal(n, m); }
    assert Pow(a, m + 1) == Mul(a, w) by { PowStep(a, m); }
    SplitTerm(c, d, a, w);
    if m == 0 {
      assert Mul(d, w) == 1 by { ChoosePascal(n, 0); PowStep(a, 0); Canonical(1); MulOne(1); }
      AddAssoc(1, Mul(c, Mul(a, w)), Mul(a, Mul(d, w)));
    } else {
      Pascal(a, n, m - 1);
      var e, g := Expansion(a, n, m), Expansion(a, n, m - 1);
      AddSwap(e, Mul(a, g), Mul(c, Mul(a, w)), Mul(a, Mul(d, w)));
      Distribute(a, g, Mul(d, w));
    }
  }

  lemma ChoosePascal(n: nat, m: nat)
    ensures Choose(n + 1, m + 1) == Choose(n, m + 1) + Choose(n, m)
    ensures Choose(n, 0) == 1
  {
  }

  lemma PowStep(a: int, m: nat)
    ensures Pow(a, m + 1) == Mul(a, Pow(a, m)) && Pow(a, 0) == 1
  {
    hide F, Mul;
  }

  lemma SplitTerm(c: int, d: int, a: int, w: int)
    ensures Mul(c + d, Mul(a, w)) == Add(Mul(c, Mul(a, w)), Mul(a, Mul(d, w)))
  {
    hide F, Add, Mul;
    var v := Mul(a, w);
    assert Mul(c + d, v) == Add(Mul(c, v), Mul(d, v)) by {
      MulComm(c + d, v);
      MulComm(c, v);
      MulComm(d, v);
      Distribute(v, c, d);
      AddReduced(v, c, d);
    }
    assert Mul(d, v) == Mul(a, Mul(d, w)) by {
      MulAssoc(d, a, w);
      MulAssoc(a, d, w);
      MulComm(a, d);
    }
  }

  lemma AddReduced(v: int, c: int, d: int)
    ensures Mul(v, Add(c, d)) == Mul(v, c + d)
  {
    hide F;
    ReduceRight(v, c + d);
  }

  lemma AddAssoc(a: int, b: int, c: int)
    ensures Add(Add(a, b), c) == Add(a, Add(b, c))
  {
    hide F;
    AddReduce(a + b, c);
    AddReduce(b + c, a);
    AddComm(F(b + c), a);
  }

  lemma AddReduce(a: int, b: int)
    ensures Add(F(a), b) == Add(a, b)
  {
    hide F;
    Reduce(a, b);
    Reduce(F(a), b);
    Idempotent(a);
  }

  /** (a + b) + (c + d) = (a + c) + (b + d). */
  lemma AddSwap(a: int, b: int, c: int, d: int)
    ensures Add(Add(a, b), Add(c, d)) == Add(Add(a, c), Add(b, d))
  {
    hide F;
    Reduce(a + b, c + d);
    Reduce(a + c, b + d);
  }

  lemma {:induction false} Binomial(a: int, n: nat)
    ensures Pow(Add(a, 1), n) == Expansion(a, n, n)
  {
    hide F, Add, Mul, Choose, Pow;
    PowStep(Add(a, 1), 0);
    if n > 0 {
      var e := Expansion(a, n - 1, n - 1);
      Binomial(a, n - 1);
      PowStep(Add(a, 1), n - 1);
      Pascal(a, n - 1, n - 1);
      assert Expansion(a, n - 1, n) == F(e) by {
        ChooseBeyond(n - 1, n);
        AddNothing(e, Pow(a, n));
      }
      OnePlus(a, e);
    }
  }

  lemma AddNothing(e: int, w: int)
    ensures Add(e, Mul(0, w)) == F(e)
  {
    hide F, Mul;
    Product(0, w);
    Canonical(0);
  }

  lemma OnePlus(a: int, e: int)
    ensures Mul(Add(a, 1), e) == Add(F(e), Mul(a, e))
  {
    hide F, Mul;
    ReduceLeft(a + 1, e);
    Product(a + 1, e);
    Product(a, e);
    ReduceSum(e, a * e);
    assert (a + 1) * e == e + a * e;
  }

  // ----- The theorem -----

  lemma {:induction false} InnerTermsVanish(a: int, p: nat, m: nat)
    requires p == PRIME && Prime(p) && m < p
    ensures Expansion(a, p, m) == 1
  {
    hide F, Mul, Choose, Pow, Prime;
    if m == 0 {
    } else {
      InnerTermsVanish(a, p, m - 1);
      ChooseVanishes(p, m);
      var c, w := Choose(p, m), Pow(a, m);
      ReduceLeft(c, w);
      AddNothing(1, w);
      Canonical(1);
    }
  }

  lemma {:induction false} PthPower(a: nat, p: nat)
    requires p == PRIME && Prime(p)
    ensures Pow(a, p) == F(a)
    decreases a
  {
    hide F, Mul, Choose, Prime, Pow;
    PowStep(a, p - 1);
    if a == 0 {
      AddNothing(0, Pow(a, p - 1));
      ZeroTimes(Pow(a, p - 1));
    } else {
      var b := a - 1;
      PthPower(b, p);
      Binomial(b, p);
      InnerTermsVanish(b, p, p - 1);
      ChooseAll(p);
      LastTerm(b, p);
      PowReduce(a, p);
    }
  }

  lemma ZeroTimes(w: int)
    ensures Mul(0, w) == 0 && F(0) == 0
  {
    hide Mul;
    Product(0, w);
  }

  lemma LastTerm(b: int, p: nat)
    requires p > 0 && Choose(p, p) == 1 && Expansion(b, p, p - 1) == 1 && Pow(b, p) == F(b)
    ensures Expansion(b, p, p) == F(b + 1)
  {
    hide F, Choose, Pow;
    MulOne(Pow(b, p));
    Idempotent(b);
    AddReduce(b, 1);
    AddComm(1, F(b));
  }

  lemma Little(a: int, p: int)
    requires p == PRIME && Prime(p) && 0 < a < p
    ensures Pow(a, p - 1) == 1
  {
    hide F, Mul, Prime, Pow;
    var w := Pow(a, p - 1);
    PthPower(a, p);
    PowStep(a, p - 1);
    Canonical(a);
    var u := Inverse(a, p);
    MulAssoc(u, a, w);
    MulOne(w);
    PowCanonical(a, p - 1);
  }
}
