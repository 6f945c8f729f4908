/** Scalar multiplication by double-and-add, its meaning as a k-fold sum, and the point codec. */
module ScalarMultiplication {
  import opened Bytes
  import opened NumberTheory
  import opened EllipticCurve

  // ----- double and add -----

  /** The point reached after reading all bits of `k`, most significant first. */
  function DoubleAndAdd(c: Curve, k: nat, pt: Point): Point
    requires c.p >= 2
  {
    if k == 0 then Infinity
    else
      var r := Double(c, DoubleAndAdd(c, k / 2, pt));
      if k % 2 == 1 then Add(c, r, pt) else r
  }

  function BitLength(k: nat): nat {
    if k == 0 then 0 else 1 + BitLength(k / 2)
  }

  lemma {:induction false} BitLengthBounds(k: nat)
    ensures k < Pow(2, BitLength(k))
  {
    if k > 0 {
      BitLengthBounds(k / 2);
    }
  }

  lemma DivPow(k: nat, i: nat)
    ensures Pow(2, i) > 0 && Pow(2, i + 1) > 0
    ensures k / Pow(2, i + 1) == k / Pow(2, i) / 2
  {
    PowPositive(2, i);
    PowPositive(2, i + 1);
    DivTwice(k, Pow(2, i), 2);
  }

  method ScalarMul(c: Curve, k: nat, pt: Point) returns (result: Point)
    requires c.p >= 2
    ensures result == DoubleAndAdd(c, k, pt)
  {
    hide Double, Add, DoubleAndAdd, BitLength, Pow;
    DoubleAndAddZero(c, pt);
    DivByPowZero(k);
    if k == 0 {
      return Infinity;
    }
    result := Infinity;
    var i := BitLength(k);
    BitLengthBounds(k);
    PowPositive(2, i);
    SmallQuotient(k, Pow(2, i));
    while i > 0
      invariant Pow(2, i) > 0
      invariant result == DoubleAndAdd(c, k / Pow(2, i), pt)
    {
      i := i - 1;
      DivPow(k, i);
      var rest := k / Pow(2, i);
      DoubleAndAddStep(c, rest, pt);
      result := Double(c, result);
      if rest % 2 == 1 {
        result := Add(c, result, pt);
      }
    }
  }

  lemma DoubleAndAddZero(c: Curve, pt: Point)
    requires c.p >= 2
    ensures DoubleAndAdd(c, 0, pt) == Infinity
  {
  }

  lemma DivByPowZero(k: nat)
    ensures Pow(2, 0) > 0 && k / Pow(2, 0) == k
  {
  }

  lemma SmallQuotient(k: nat, m: nat)
    requires k < m
    ensures k / m == 0
  {
  }

  /** One bit; leading zero bits leave the point at infinity. */
  lemma DoubleAndAddStep(c: Curve, k: nat, pt: Point)
    requires c.p >= 2
    ensures var r := Double(c, DoubleAndAdd(c, k / 2, pt));
            DoubleAndAdd(c, k, pt) == if k % 2 == 1 then Add(c, r, pt) else r
  {
  }

  // ----- the k-fold sum -----

  function Times(c: Curve, k: nat, pt: Point): Point
    requires c.p >= 2
  {
    if k == 0 then Infinity else Add(c, Times(c, k - 1, pt), pt)
  }

  /** The group law that is assumed and not proved: addition of points of the curve is associative. */
  ghost predicate Associative(c: Curve)
    requires c.p >= 2
  {
    forall a: Point, b: Point, d: Point {:trigger Add(c, Add(c, a, b), d)} ::
      Member(c, a) && Member(c, b) && Member(c, d) ==> Add(c, Add(c, a, b), d) == Add(c, a, Add(c, b, d))
  }

  lemma AddAssociates(c: Curve, a: Point, b: Point, d: Point)
    requires c.p >= 2 && Associative(c) && Member(c, a) && Member(c, b) && Member(c, d)
    ensures Add(c, Add(c, a, b), d) == Add(c, a, Add(c, b, d))
  {
    hide Add, Member;
  }

  lemma {:induction false} TimesMember(c: Curve, k: nat, pt: Point)
    requires PrimeField(c) && Member(c, pt)
    ensures Member(c, Times(c, k, pt))
  {
    hide Add;
    if k > 0 {
      TimesMember(c, k - 1, pt);
      AddClosed(c, Times(c, k - 1, pt), pt);
    }
  }

  lemma {:induction false} TimesAdd(c: Curve, m: nat, n: nat, pt: Point)
    requires PrimeField(c) && Associative(c) && Member(c, pt)
    ensures Times(c, m + n, pt) == Add(c, Times(c, m, pt), Times(c, n, pt))
  {
    hide Member, Associative, Add;
    if n == 0 {
      InfinityIsNeutral(c, Times(c, m, pt));
    } else {
      TimesAdd(c, m, n - 1, pt);
      TimesMember(c, m, pt);
      TimesMember(c, n - 1, pt);
      AddAssociates(c, Times(c, m, pt), Times(c, n - 1, pt), pt);
    }
  }

  lemma DoubleIsAdd(c: Curve, pt: Point)
    requires c.p >= 2
    ensures Double(c, pt) == Add(c, pt, pt)
  {
  }

  /** Double-and-add computes the k-fold sum. */
  lemma {:induction false} DoubleAndAddIsTimes(c: Curve, k: nat, pt: Point)
    requires PrimeField(c) && Associative(c) && Member(c, pt)
    ensures DoubleAndAdd(c, k, pt) == Times(c, k, pt)
  {
    hide Add, Double, Member, Associative;
    if k > 0 {
      var h := k / 2;
      DoubleAndAddIsTimes(c, h, pt);
      DoubleIsAdd(c, Times(c, h, pt));
      TimesAdd(c, h, h, pt);
    }
  }

  lemma {:induction false} TimesTimes(c: Curve, m: nat, n: nat, pt: Point)
    requires PrimeField(c) && Associative(c) && Member(c, pt)
    ensures Times(c, m, Times(c, n, pt)) == Times(c, m * n, pt)
  {
    hide Add, Member, Associative;
    if m == 0 {
      assert m * n == 0;
    } else {
      TimesTimes(c, m - 1, n, pt);
      TimesAdd(c, (m - 1) * n, n, pt);
      assert (m - 1) * n + n == m * n;
    }
  }

  lemma {:induction false} TimesInfinity(c: Curve, k: nat)
    requires c.p >= 2
    ensures Times(c, k, Infinity) == Infinity
  {
    if k > 0 {
      TimesInfinity(c, k - 1);
    }
  }

  /** Multiples of a point whose order divides `n` depend on the scalar modulo `n` only. */
  lemma TimesMod(c: Curve, n: nat, k: nat, pt: Point)
    requires PrimeField(c) && Associative(c) && Member(c, pt) && n > 0 && Times(c, n, pt) == Infinity
    ensures Times(c, k % n, pt) == Times(c, k, pt)
  {
    hide Member, Associative, Times, Add;
    var q := k / n;
    TimesTimes(c, q, n, pt);
    TimesInfinity(c, q);
    TimesAdd(c, q * n, k % n, pt);
    InfinityIsNeutral(c, Times(c, k % n, pt));
    assert q * n + k % n == k;
  }

  lemma InfinityIsNeutral(c: Curve, pt: Point)
    requires c.p >= 2
    ensures Add(c, Infinity, pt) == pt && Add(c, pt, Infinity) == pt
  {
  }

  /** A finite point killed by a prime `n` is killed by exactly the multiples of `n`. */
  lemma KilledExactlyByMultiples(c: Curve, n: nat, k: nat, pt: Point)
    requires PrimeField(c) && Associative(c) && Member(c, pt)
    requires Prime(n) && Times(c, n, pt) == Infinity && pt != Infinity
    ensures Times(c, k, pt) == Infinity <==> Divides(n, k)
  {
    assert n > 1;
    hide Member, Associative, Prime, Add, Times, ModInv, PrimeField;
    TimesMod(c, n, k, pt);
    TimesZero(c, pt);
    if Times(c, k, pt) == Infinity && !Divides(n, k) {
      ModInvInverts(k, n);
      UnitMultiple(c, n, ModInv(k, n), k, pt);
    }
  }

  /** If e * k = 1 modulo n, the k-fold point determines the point. */
  lemma UnitMultiple(c: Curve, n: nat, e: nat, k: nat, pt: Point)
    requires PrimeField(c) && Associative(c) && Member(c, pt)
    requires n > 1 && Times(c, n, pt) == Infinity && Divides(n, k * e - 1)
    ensures Times(c, e, Times(c, k, pt)) == pt
    ensures Times(c, k, pt) == Infinity ==> pt == Infinity
  {
    hide Member, Associative, Add, Times, Prime;
    TimesTimes(c, e, k, pt);
    assert e * k == k * e;
    TimesMod(c, n, k * e, pt);
    OneModulo(n, k * e);
    TimesOne(c, pt);
    TimesInfinity(c, e);
  }

  lemma TimesZero(c: Curve, pt: Point)
    requires c.p >= 2
    ensures Times(c, 0, pt) == Infinity
  {
  }

  lemma OneModulo(n: nat, x: nat)
    requires n > 1 && Divides(n, x - 1)
    ensures x % n == 1
  {
    ModShift(1, (x - 1) / n, n);
    assert x == 1 + (x - 1) / n * n;
  }

  lemma TimesOne(c: Curve, pt: Point)
    requires c.p >= 2
    ensures Times(c, 1, pt) == pt
  {
    assert Times(c, 1, pt) == Add(c, Times(c, 0, pt), pt);
  }

  // ----- points as bytes -----

  /** The shortest little-endian form; zero takes one byte. */
  function MinimalLe(n: nat): (s: Bytes)
    ensures |s| >= 1
  {
    if n < 0x100 then [n] else [n % 0x100] + MinimalLe(n / 0x100)
  }

  /** Cut off or extend with zeros at the most significant end. */
  function Resize(s: Bytes, n: nat): Bytes {
    if |s| >= n then s[..n] else s + Zeros(n - |s|)
  }

  function FieldBytes(c: Curve): nat { |MinimalLe(c.p)| }

  function EncodeCoordLe(c: Curve, v: nat): Bytes { Resize(MinimalLe(v), FieldBytes(c)) }

  function EncodePointLe(c: Curve, pt: Point): Option<Bytes> {
    match pt
    case Infinity => None
    case Affine(x, y) => Some(EncodeCoordLe(c, x) + EncodeCoordLe(c, y))
  }

  function DecodePointLe(c: Curve, bytes: Bytes): Option<Point>
    requires c.p > 0
  {
    if |bytes| != 2 * FieldBytes(c) then None
    else
      var pt := Affine(LeNat(bytes[..FieldBytes(c)]), LeNat(bytes[FieldBytes(c)..]));
      if IsOnCurve(c, pt) then Some(pt) else None
  }

  lemma {:induction false} ResizeMinimal(n: nat, k: nat)
    ensures Resize(MinimalLe(n), k) == Le(n, k)
    decreases k
  {
    if k > 0 {
      ResizeMinimal(n / 0x100, k - 1);
      if n < 0x100 {
        LeZero(k - 1);
        assert Resize([n], k) == [n] + Zeros(k - 1);
      } else {
        assert Resize(MinimalLe(n), k) == [n % 0x100] + Resize(MinimalLe(n / 0x100), k - 1);
      }
    }
  }

  lemma {:induction false} LeZero(k: nat)
    ensures Le(0, k) == Zeros(k)
  {
    if k > 0 {
      LeZero(k - 1);
    }
  }

  lemma {:induction false} MinimalBound(n: nat)
    ensures n < Pow(0x100, |MinimalLe(n)|)
  {
    if n < 0x100 {
      assert Pow(0x100, 1) == 0x100 * Pow(0x100, 0);
    } else {
      MinimalBound(n / 0x100);
    }
  }

  /** The least number of bytes that hold the field prime. */
  lemma FieldBytesLeast(c: Curve)
    requires c.p > 0
    ensures Pow(0x100, FieldBytes(c) - 1) <= c.p < Pow(0x100, FieldBytes(c))
  {
    hide MinimalLe, Pow;
    MinimalBound(c.p);
    MinimalIsLeast(c.p);
  }

  lemma {:induction false} MinimalIsLeast(n: nat)
    requires n > 0
    ensures Pow(0x100, |MinimalLe(n)| - 1) <= n
  {
    if n < 0x100 {
      assert Pow(0x100, 0) == 1;
    } else {
      MinimalIsLeast(n / 0x100);
    }
  }

  /** A point in bytes: the abscissa, then the ordinate, each least significant byte first in as many bytes as the prime. */
  lemma PointLayout(c: Curve, x: nat, y: nat)
    requires x < c.p && y < c.p
    ensures EncodePointLe(c, Infinity) == None
    ensures var n := FieldBytes(c);
            && EncodePointLe(c, Affine(x, y)).Some?
            && var e := EncodePointLe(c, Affine(x, y)).value;
            |e| == 2 * n && LeNat(e[..n]) == x && LeNat(e[n..]) == y
  {
    hide MinimalLe, LeNat, Le;
    var n := FieldBytes(c);
    ResizeMinimal(x, n);
    ResizeMinimal(y, n);
    MinimalBound(c.p);
    LeNatOfLe(x, n);
    LeNatOfLe(y, n);
    var e := EncodePointLe(c, Affine(x, y)).value;
    assert e[..n] == Le(x, n) && e[n..] == Le(y, n);
  }

  /** Decoding undoes encoding on every canonical finite point of the curve. */
  lemma DecodeAfterEncode(c: Curve, pt: Point)
    requires c.p > 0 && Member(c, pt) && pt != Infinity
    ensures DecodePointLe(c, EncodePointLe(c, pt).value) == Some(pt)
  {
    hide IsOnCurve;
    var n := FieldBytes(c);
    ResizeMinimal(pt.x, n);
    ResizeMinimal(pt.y, n);
    MinimalBound(c.p);
    LeNatOfLe(pt.x, n);
    LeNatOfLe(pt.y, n);
    var bytes := EncodePointLe(c, pt).value;
    assert bytes[..n] == Le(pt.x, n) && bytes[n..] == Le(pt.y, n);
  }

  /** Encoding undoes decoding on every accepted string, canonical or not. */
  lemma EncodeAfterDecode(c: Curve, bytes: Bytes)
    requires c.p > 0 && DecodePointLe(c, bytes).Some?
    ensures EncodePointLe(c, DecodePointLe(c, bytes).value) == Some(bytes)
  {
    hide IsOnCurve;
    var n := FieldBytes(c);
    LeRoundTrip(bytes[..n]);
    LeRoundTrip(bytes[n..]);
    ResizeMinimal(LeNat(bytes[..n]), n);
    ResizeMinimal(LeNat(bytes[n..]), n);
    assert bytes == bytes[..n] + bytes[n..];
  }
}
