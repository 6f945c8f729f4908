/** Key agreement VKO_GOSTR3410_2012_256 (RFC 7836 section 4.3.1): both sides reach the same point,
    and it is finite exactly when no factor of the scalar vanishes modulo the group order. */
module Vko {
  import opened Bytes
  import opened NumberTheory
  import opened EllipticCurve
  import opened ScalarMultiplication

  function Generator(c: Curve): Point { Affine(c.gx, c.gy) }

  /** What the parameter sets promise: a prime field, a generator on the curve, and its order q. */
  ghost predicate Domain(c: Curve) {
    && PrimeField(c) && c.q > 0
    && Member(c, Generator(c))
    && Times(c, c.q, Generator(c)) == Infinity
  }

  function PublicPoint(c: Curve, d: nat): Point
    requires c.p >= 2
  {
    DoubleAndAdd(c, d, Generator(c))
  }

  /** The shared point `(ukm * d mod q) * peer`, ukm read little-endian. */
  function VkoPoint(c: Curve, own: nat, peer: Point, ukm: Bytes): Point
    requires c.p >= 2 && c.q > 0
  {
    DoubleAndAdd(c, LeNat(ukm) * own % c.q, peer)
  }

  /** The key-encryption key; the caller must know that the shared point is finite. */
  function Vko256(h: Hash, c: Curve, own: nat, peer: Point, ukm: Bytes): Key
    requires c.p >= 2 && c.q > 0 && VkoPoint(c, own, peer, ukm) != Infinity
  {
    h(EncodePointLe(c, VkoPoint(c, own, peer, ukm)).value)
  }

  /** The key is the hash of the string that holds the two coordinates of the shared point, the abscissa first, each least
      significant byte first in as many bytes as the prime. */
  lemma Vko256Hashes(h: Hash, c: Curve, own: nat, peer: Point, ukm: Bytes, s: Bytes)
    requires c.p >= 2 && c.q > 0 && |s| == 2 * FieldBytes(c)
    requires VkoPoint(c, own, peer, ukm) == Affine(LeNat(s[..FieldBytes(c)]), LeNat(s[FieldBytes(c)..]))
    ensures Vko256(h, c, own, peer, ukm) == h(s)
  {
    hide VkoPoint, LeNat, MinimalLe, Le;
    var n := FieldBytes(c);
    LeRoundTrip(s[..n]);
    LeRoundTrip(s[n..]);
    ResizeMinimal(LeNat(s[..n]), n);
    ResizeMinimal(LeNat(s[n..]), n);
    assert s == s[..n] + s[n..];
  }

  /** The shared point is the (ukm * a * b)-fold generator. */
  lemma VkoPointIsMultiple(c: Curve, a: nat, b: nat, ukm: Bytes)
    requires Domain(c) && Associative(c)
    ensures VkoPoint(c, a, PublicPoint(c, b), ukm) == Times(c, LeNat(ukm) * a * b, Generator(c))
  {
    hide Member, Associative, Add, Double, DoubleAndAdd, Times, Prime, LeNat;
    var g, u := Generator(c), LeNat(ukm);
    var k := u * a % c.q;
    DoubleAndAddIsTimes(c, b, g);
    TimesMember(c, b, g);
    DoubleAndAddIsTimes(c, k, Times(c, b, g));
    TimesTimes(c, k, b, g);
    TimesMod(c, c.q, k * b, g);
    TimesMod(c, c.q, u * a * b, g);
    ReduceFactor(u * a, b, c.q);
  }

  lemma ReduceFactor(x: nat, y: nat, n: nat)
    requires n > 0
    ensures x % n * y % n == x * y % n
  {
    var r, m := x % n, x / n;
    ModShift(r * y, m * y, n);
    assert x * y == r * y + m * y * n by {
      assert x == m * n + r;
      assert (m * n + r) * y == m * n * y + r * y;
      Rotate(m, n, y);
      Rotate(y, m, n);
    }
  }

  /** Diffie-Hellman agreement: each side's private key with the other side's public point. */
  lemma VkoSymmetric(c: Curve, a: nat, b: nat, ukm: Bytes)
    requires Domain(c) && Associative(c)
    ensures VkoPoint(c, a, PublicPoint(c, b), ukm) == VkoPoint(c, b, PublicPoint(c, a), ukm)
  {
    hide Domain, Associative, VkoPoint, PublicPoint, LeNat;
    VkoPointIsMultiple(c, a, b, ukm);
    VkoPointIsMultiple(c, b, a, ukm);
    SwapFactors(LeNat(ukm), a, b);
  }

  lemma SwapFactors(u: nat, a: nat, b: nat)
    ensures u * a * b == u * b * a
  {
  }

  /** With a generator of prime order the agreement fails exactly when the ukm or a private key is zero modulo q. */
  lemma VkoFiniteExactly(c: Curve, a: nat, b: nat, ukm: Bytes)
    requires Domain(c) && Associative(c) && Prime(c.q)
    ensures VkoPoint(c, a, PublicPoint(c, b), ukm) == Infinity
       <==> LeNat(ukm) % c.q == 0 || a % c.q == 0 || b % c.q == 0
  {
    hide Member, Associative, VkoPoint, PublicPoint, LeNat, Times, Prime;
    var u, q := LeNat(ukm), c.q;
    VkoPointIsMultiple(c, a, b, ukm);
    KilledExactlyByMultiples(c, q, u * a * b, Generator(c));
    if Divides(q, u * a * b) {
      EuclidsLemma(q, u * a, b);
      if Divides(q, u * a) {
        EuclidsLemma(q, u, a);
      }
    }
    if Divides(q, u) || Divides(q, a) {
      if Divides(q, u) { DividesProduct(q, u, a); } else { DividesProduct(q, a, u); }
      DividesProduct(q, u * a, b);
    } else if Divides(q, b) {
      DividesProduct(q, b, u * a);
    }
  }

  datatype Ephemeral = Ephemeral(private: nat, public: Point)

  /** The key pair made from `entropy`: the scalar reduced modulo q, zero replaced by one. */
  function EphemeralKeypair(c: Curve, entropy: Bytes): Ephemeral
    requires c.p >= 2 && c.q > 0
  {
    var d := BeNat(entropy) % c.q;
    var d' := if d == 0 then 1 else d;
    Ephemeral(d', PublicPoint(c, d'))
  }

  /** Every ephemeral key is usable: a scalar of 1 .. q-1 and a finite canonical public point, its multiple of the
      generator; the scalar is the residue of the entropy, read most significant byte first, or one in place of zero. */
  lemma EphemeralIsUsable(c: Curve, entropy: Bytes)
    requires Domain(c) && Associative(c) && Prime(c.q)
    ensures var e := EphemeralKeypair(c, entropy);
            && 1 <= e.private < c.q && e.private % c.q != 0
            && Member(c, e.public) && e.public != Infinity
            && e.public == Times(c, e.private, Generator(c))
            && if Divides(c.q, BeNat(entropy)) then e.private == 1 else Divides(c.q, BeNat(entropy) - e.private)
  {
    hide Member, Associative, Times, DoubleAndAdd, BeNat;
    assert c.q > 1;
    hide Prime;
    var e, g := EphemeralKeypair(c, entropy), Generator(c);
    DoubleAndAddIsTimes(c, e.private, g);
    TimesMember(c, e.private, g);
    KilledExactlyByMultiples(c, c.q, e.private, g);
    DividesSmall(c.q, e.private);
    DividesRest(c.q, BeNat(entropy));
  }

  lemma DividesRest(q: nat, n: nat)
    requires q > 0
    ensures Divides(q, n) <==> n % q == 0
    ensures Divides(q, n - n % q)
  {
    ModShift(0, n / q, q);
    assert n - n % q == n / q * q;
  }
}
