/** Arithmetic modulo a prime: Euclid's lemma, the binomial theorem, Fermat's little theorem. */
module NumberTheory {
  import opened Bytes

  ghost predicate Prime(p: nat) {
    p > 1 && forall d :: 1 < d < p ==> p % d != 0
  }

  predicate Divides(p: nat, n: int)
    requires p > 0
  {
    n % p == 0
  }

  // ----- divisibility -----

  lemma MultipleDivides(p: nat, k: int)
    requires p > 0
    ensures Divides(p, k * p)
  {
    var r := (k * p) % p;
    var q := k - (k * p) / p;
    assert r == q * p;
    SmallMultiple(q, p);
  }

  /** A multiple of p strictly between -p and p is zero. */
  lemma SmallMultiple(q: int, p: int)
    requires p > 0 && -p < q * p < p
    ensures q == 0
  {
    assert q >= 1 ==> q * p >= p;
    assert q <= -1 ==> q * p <= -p;
  }

  lemma ModStep(a: int, b: int, m: int)
    requires m > 0
    ensures (a + b) % m == (a % m + b) % m
  {
    ModShift(a % m + b, a / m, m);
    assert a + b == a % m + b + a / m * m;
  }

  lemma ModShift(a: int, q: int, m: int)
    requires m > 0
    ensures (a + q * m) % m == a % m
  {
    var r := (a + q * m) % m - a % m;
    var k := a / m + q - (a + q * m) / m;
    assert r == k * m;
    MultipleGrows(k, m);
  }

  lemma DividesSum(p: nat, a: int, b: int)
    requires p > 0 && Divides(p, a) && Divides(p, b)
    ensures Divides(p, a + b) && Divides(p, a - b)
  {
    MultipleDivides(p, a / p + b / p);
    MultipleDivides(p, a / p - b / p);
    assert (a / p + b / p) * p == a + b && (a / p - b / p) * p == a - b;
  }

  lemma DividesProduct(p: nat, a: int, k: int)
    requires p > 0 && Divides(p, a)
    ensures Divides(p, a * k) && Divides(p, k * a)
  {
    MultipleDivides(p, a / p * k);
    assert a / p * k * p == a / p * p * k;
  }

  lemma RemainderDivides(p: nat, a: int)
    requires p > 0
    ensures Divides(p, a - a % p)
  {
    MultipleDivides(p, a / p);
  }

  /** Reduced values congruent modulo p are equal. */
  lemma ReducedEqual(p: nat, a: nat, b: nat)
    requires p > 0 && a < p && b < p && Divides(p, a - b)
    ensures a == b
  {
    SmallMultiple((a - b) / p, p);
  }

  lemma DividesSmall(p: nat, a: nat)
    requires 0 < a < p
    ensures !Divides(p, a)
  {
    if Divides(p, a) {
      ReducedEqual(p, a, 0);
    }
  }

  // ----- Euclid's lemma -----

  /** The least positive n with p | n * b. */
  ghost function LeastMultiplier(p: nat, b: int, from: nat): (n: nat)
    requires 0 < from <= p
    ensures from <= n <= p && Divides(p, n * b)
    ensures forall m :: from <= m < n ==> !Divides(p, m * b)
    decreases p - from
  {
    hide Divides;
    MultipleDivides(p, b);
    assert p * b == b * p;
    if Divides(p, from * b) || from == p then from else LeastMultiplier(p, b, from + 1)
  }

  lemma LeastMultiplierDivides(p: nat, b: int, m: nat, n: nat)
    requires p > 0 && m == LeastMultiplier(p, b, 1) && Divides(p, n * b)
    ensures Divides(m, n)
  {
    var q, r := n / m, n % m;
    DividesProduct(p, m * b, q);
    DividesSum(p, n * b, m * b * q);
    assert r == n - q * m;
    Distribute(n, q * m, b);
    Rotate(q, m, b);
    assert Divides(p, r * b);
  }

  lemma Rotate(a: int, b: int, c: int)
    ensures a * b * c == b * c * a
  {
  }

  lemma Distribute(a: int, c: int, b: int)
    ensures (a - c) * b == a * b - c * b
  {
  }

  /** A prime that divides a product divides a factor. */
  lemma EuclidsLemma(p: nat, a: nat, b: int)
    requires Prime(p) && Divides(p, a * b)
    ensures Divides(p, a) || Divides(p, b)
  {
    var m := LeastMultiplier(p, b, 1);
    MultipleDivides(p, b);
    assert p * b == b * p;
    LeastMultiplierDivides(p, b, m, p);
    if m == 1 {
      assert 1 * b == b;
    } else {
      LeastMultiplierDivides(p, b, m, a);
      assert m == p;
    }
  }

  // ----- binomial coefficients -----

  function Choose(n: nat, k: nat): nat {
    if k == 0 then 1 else if n == 0 then 0 else Choose(n - 1, k - 1) + Choose(n - 1, k)
  }

  lemma {:induction false} ChooseAbove(n: nat, k: nat)
    requires k > n
    ensures Choose(n, k) == 0
  {
    if n > 0 {
      ChooseAbove(n - 1, k - 1);
      ChooseAbove(n - 1, k);
    }
  }

  lemma {:induction false} ChooseSelf(n: nat)
    ensures Choose(n, n) == 1
  {
    if n > 0 {
      ChooseSelf(n - 1);
      ChooseAbove(n - 1, n);
    }
  }

  lemma {:induction false} Absorption(n: nat, k: nat)
    requires n > 0 && k > 0
    ensures k * Choose(n, k) == n * Choose(n - 1, k - 1)
  {
    if n == 1 {
      ChooseAbove(0, k);
      if k > 1 {
        ChooseAbove(0, k - 1);
      }
    } else {
      Absorption(n - 1, k);
      if k > 1 {
        Absorption(n - 1, k - 1);
        AbsorptionStep(n, k, Choose(n - 1, k - 1), Choose(n - 1, k), Choose(n - 2, k - 2), Choose(n - 2, k - 1));
      }
    }
  }

  lemma AbsorptionStep(n: nat, k: nat, a: nat, b: nat, c: nat, d: nat)
    requires n > 1 && k > 1
    requires k * b == (n - 1) * d && (k - 1) * a == (n - 1) * c && a == c + d
    ensures k * (a + b) == n * a
  {
    assert k * (a + b) == (k - 1) * a + a + k * b;
    assert (n - 1) * c + (n - 1) * d == (n - 1) * (c + d);
  }

  lemma PrimeDividesChoose(p: nat, k: nat)
    requires Prime(p) && 0 < k < p
    ensures Divides(p, Choose(p, k))
  {
    hide Choose;
    Absorption(p, k);
    MultipleDivides(p, Choose(p - 1, k - 1));
    EuclidsLemma(p, k, Choose(p, k));
    DividesSmall(p, k);
  }

  /** The first `m` terms of the expansion of (x + 1)^n. */
  function PartialSum(x: nat, n: nat, m: nat): nat {
    if m == 0 then 0 else PartialSum(x, n, m - 1) + Choose(n, m - 1) * Pow(x, m - 1)
  }

  lemma {:induction false} PascalSum(x: nat, n: nat, m: nat)
    ensures PartialSum(x, n + 1, m + 1) == PartialSum(x, n, m + 1) + x * PartialSum(x, n, m)
  {
    if m > 0 {
      PascalSum(x, n, m - 1);
      var c, d, q := Choose(n, m - 1), Choose(n, m), Pow(x, m - 1);
      PascalTerm(x, c, d, q, PartialSum(x, n, m - 1));
    }
  }

  lemma PascalTerm(x: nat, c: nat, d: nat, q: nat, s: nat)
    ensures (c + d) * (x * q) == d * (x * q) + x * (c * q)
    ensures x * (s + c * q) == x * s + x * (c * q)
  {
    assert (c + d) * (x * q) == c * (x * q) + d * (x * q);
    assert c * (x * q) == x * (c * q);
  }

  /** The expansion is complete after n + 1 terms. */
  lemma ExpansionEnds(x: nat, n: nat)
    ensures PartialSum(x, n, n + 2) == PartialSum(x, n, n + 1)
  {
    ChooseAbove(n, n + 1);
  }

  lemma {:induction false} BinomialTheorem(x: nat, n: nat)
    ensures Pow(x + 1, n) == PartialSum(x, n, n + 1)
  {
    hide PartialSum, Pow, Choose;
    if n == 0 {
      FirstTerm(x);
    } else {
      var s := PartialSum(x, n - 1, n);
      BinomialTheorem(x, n - 1);
      PascalSum(x, n - 1, n);
      ExpansionEnds(x, n - 1);
      PowStep(x + 1, n);
      assert (x + 1) * s == s + x * s;
    }
  }

  lemma FirstTerm(x: nat)
    ensures Pow(x + 1, 0) == PartialSum(x, 0, 1)
  {
    assert PartialSum(x, 0, 1) == PartialSum(x, 0, 0) + Choose(0, 0) * Pow(x, 0);
  }

  lemma {:induction false} MiddleTermsVanish(x: nat, p: nat, m: nat)
    requires Prime(p) && 1 <= m <= p
    ensures Divides(p, PartialSum(x, p, m) - 1)
  {
    if m == 1 {
      assert PartialSum(x, p, 1) == PartialSum(x, p, 0) + Choose(p, 0) * Pow(x, 0);
    } else {
      MiddleTermsVanish(x, p, m - 1);
      PrimeDividesChoose(p, m - 1);
      DividesProduct(p, Choose(p, m - 1), Pow(x, m - 1));
      DividesSum(p, PartialSum(x, p, m - 1) - 1, Choose(p, m - 1) * Pow(x, m - 1));
    }
  }

  /** Fermat: p divides a^p - a. */
  lemma {:induction false} Fermat(p: nat, a: nat)
    requires Prime(p)
    ensures Divides(p, Pow(a, p) - a)
  {
    if a == 0 {
      assert Pow(0, p) == 0 * Pow(0, p - 1);
    } else {
      Fermat(p, a - 1);
      BinomialTheorem(a - 1, p);
      MiddleTermsVanish(a - 1, p, p);
      ChooseSelf(p);
      DividesSum(p, Pow(a - 1, p) - (a - 1), PartialSum(a - 1, p, p) - 1);
    }
  }

  /** Modular inverse by exponentiation, `a^(p - 2) mod p`. */
  function ModInv(a: nat, p: nat): (r: nat)
    requires p >= 2
    ensures r < p
  {
    Pow(a, p - 2) % p
  }

  /** For a prime p the exponentiation inverts every residue other than zero. */
  lemma ModInvInverts(a: nat, p: nat)
    requires Prime(p) && !Divides(p, a)
    ensures Divides(p, a * ModInv(a, p) - 1)
  {
    Fermat(p, a);
    var u := Pow(a, p - 2);
    assert Pow(a, p) == a * (a * u);
    assert a * (a * u) - a == a * (a * u - 1) by { Distribute2(a, a * u); }
    EuclidsLemma(p, a, a * u - 1);
    RemainderDivides(p, u);
    DividesProduct(p, u - u % p, a);
    DividesSum(p, a * u - 1, a * (u - u % p));
    assert a * (u - u % p) == a * u - a * (u % p) by { Distribute(u, u % p, a); }
  }

  lemma Distribute2(a: int, b: int)
    ensures a * b - a == a * (b - 1)
  {
  }
}
