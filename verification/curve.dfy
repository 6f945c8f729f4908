/** Short Weierstrass curves y^2 = x^3 + a*x + b over a prime field: chord-and-tangent addition,
    proved to stay on the curve, to commute, and to reach infinity exactly on opposite points. */
module EllipticCurve {
  import opened Bytes
  import opened NumberTheory

  datatype Curve = Curve(p: nat, a: nat, b: nat, q: nat, gx: nat, gy: nat)

  datatype Point = Infinity | Affine(x: nat, y: nat)

  /** What makes the arithmetic below a field arithmetic. */
  ghost predicate PrimeField(c: Curve) {
    Prime(c.p) && c.p > 3
  }

  // ----- field operations on reduced values -----

  function ModAdd(a: nat, b: nat, p: nat): nat
    requires p > 0
  {
    (a + b) % p
  }

  function ModSub(a: nat, b: nat, p: nat): nat
    requires p > 0
  {
    var a', b' := a % p, b % p;
    if a' >= b' then a' - b' else a' + p - b'
  }

  function ModMul(a: nat, b: nat, p: nat): nat
    requires p > 0
  {
    a * b % p
  }

  ghost predicate Cong(p: nat, a: int, b: int)
    requires p > 0
  {
    Divides(p, a - b)
  }

  lemma CongTrans(p: nat, a: int, b: int, c: int)
    requires p > 0 && Cong(p, a, b) && Cong(p, b, c)
    ensures Cong(p, a, c)
  {
    DividesSum(p, a - b, b - c);
  }

  lemma CongSymm(p: nat, a: int, b: int)
    requires p > 0 && Cong(p, a, b)
    ensures Cong(p, b, a)
  {
    DividesSum(p, 0, a - b);
  }

  lemma CongSum(p: nat, a: int, a': int, b: int, b': int)
    requires p > 0 && Cong(p, a, a') && Cong(p, b, b')
    ensures Cong(p, a + b, a' + b') && Cong(p, a - b, a' - b')
  {
    DividesSum(p, a - a', b - b');
    assert a + b - (a' + b') == (a - a') + (b - b') && a - b - (a' - b') == (a - a') - (b - b');
  }

  lemma CongProduct(p: nat, a: int, a': int, b: int, b': int)
    requires p > 0 && Cong(p, a, a') && Cong(p, b, b')
    ensures Cong(p, a * b, a' * b')
  {
    DividesProduct(p, a - a', b);
    DividesProduct(p, b - b', a');
    DividesSum(p, (a - a') * b, a' * (b - b'));
    assert a * b - a' * b' == (a - a') * b + a' * (b - b');
  }

  lemma ModAddCong(a: nat, b: nat, p: nat)
    requires p > 0
    ensures Cong(p, ModAdd(a, b, p), a + b) && ModAdd(a, b, p) < p
  {
    RemainderDivides(p, a + b);
    CongSymm(p, a + b, (a + b) % p);
  }

  lemma ModMulCong(a: nat, b: nat, p: nat)
    requires p > 0
    ensures Cong(p, ModMul(a, b, p), a * b) && ModMul(a, b, p) < p
  {
    RemainderDivides(p, a * b);
    CongSymm(p, a * b, a * b % p);
  }

  lemma ModSubCong(a: nat, b: nat, p: nat)
    requires p > 0
    ensures Cong(p, ModSub(a, b, p), a - b) && ModSub(a, b, p) < p
  {
    RemainderDivides(p, a);
    RemainderDivides(p, b);
    DividesSum(p, a - a % p, b - b % p);
    CongSymm(p, a - b, a % p - b % p);
    MultipleDivides(p, 1);
    DividesSum(p, a % p - b % p - (a - b), p);
    assert a % p + p - b % p - (a - b) == (a % p - b % p - (a - b)) + p;
  }

  lemma CancelFactor(p: nat, d: int, e: int)
    requires Prime(p) && Divides(p, d * e) && !Divides(p, d)
    ensures Divides(p, e)
  {
    if d >= 0 {
      EuclidsLemma(p, d, e);
    } else {
      DividesProduct(p, d * e, -1);
      assert d * e * -1 == (-d) * e;
      EuclidsLemma(p, -d, e);
      if Divides(p, -d) {
        DividesProduct(p, -d, -1);
      }
    }
  }

  // ----- points and the curve equation -----

  function IsOnCurve(c: Curve, pt: Point): bool
    requires c.p > 0
  {
    match pt
    case Infinity => true
    case Affine(x, y) =>
      var lhs := ModMul(y, y, c.p);
      var x3 := ModMul(ModMul(x, x, c.p), x, c.p);
      var ax := ModMul(c.a, x, c.p);
      lhs == ModAdd(ModAdd(x3, ax, c.p), c.b, c.p)
  }

  predicate Reduced(c: Curve, pt: Point) {
    pt.Affine? ==> pt.x < c.p && pt.y < c.p
  }

  /** A point of the curve in canonical form. */
  predicate Member(c: Curve, pt: Point)
    requires c.p > 0
  {
    Reduced(c, pt) && IsOnCurve(c, pt)
  }

  /** The defect of the curve equation at (x, y). */
  function Defect(c: Curve, x: int, y: int): int {
    y * y - (x * x * x + c.a * x + c.b)
  }

  lemma DefectCong(c: Curve, x: int, x': int, y: int, y': int)
    requires c.p > 0 && Cong(c.p, x, x') && Cong(c.p, y, y')
    ensures Cong(c.p, Defect(c, x, y), Defect(c, x', y'))
  {
    var p := c.p;
    CongProduct(p, y, y', y, y');
    CongProduct(p, x, x', x, x');
    CongProduct(p, x * x, x' * x', x, x');
    CongRefl(p, c.a);
    CongRefl(p, c.b);
    CongProduct(p, c.a, c.a, x, x');
    CongSum(p, x * x * x, x' * x' * x', c.a * x, c.a * x');
    CongSum(p, x * x * x + c.a * x, x' * x' * x' + c.a * x', c.b, c.b);
    CongSum(p, y * y, y' * y', x * x * x + c.a * x + c.b, x' * x' * x' + c.a * x' + c.b);
  }

  lemma CongRefl(p: nat, a: int)
    requires p > 0
    ensures Cong(p, a, a)
  {
  }

  /** The test in reduced arithmetic is the curve equation modulo p. */
  lemma OnCurveIsEquation(c: Curve, x: nat, y: nat)
    requires c.p > 0
    ensures IsOnCurve(c, Affine(x, y)) <==> Divides(c.p, Defect(c, x, y))
  {
    var p := c.p;
    var lhs, x2 := ModMul(y, y, p), ModMul(x, x, p);
    var x3, ax := ModMul(x2, x, p), ModMul(c.a, x, p);
    var s := ModAdd(x3, ax, p);
    var rhs := ModAdd(s, c.b, p);
    ModMulCong(y, y, p);
    ModMulCong(x, x, p);
    ModMulCong(x2, x, p);
    CongRefl(p, x);
    CongProduct(p, x2, x * x, x, x);
    CongTrans(p, x3, x2 * x, x * x * x);
    ModMulCong(c.a, x, p);
    CongSum(p, x3, x * x * x, ax, c.a * x);
    ModAddCong(x3, ax, p);
    CongTrans(p, s, x3 + ax, x * x * x + c.a * x);
    CongRefl(p, c.b);
    CongSum(p, s, x * x * x + c.a * x, c.b, c.b);
    ModAddCong(s, c.b, p);
    CongTrans(p, rhs, s + c.b, x * x * x + c.a * x + c.b);
    CongSum(p, lhs, y * y, rhs, x * x * x + c.a * x + c.b);
    if lhs == rhs {
      CongSymm(p, 0, Defect(c, x, y));
    } else if Divides(p, Defect(c, x, y)) {
      DividesSum(p, lhs - rhs - Defect(c, x, y), Defect(c, x, y));
      ReducedEqual(p, lhs, rhs);
    }
  }

  // ----- addition -----

  /** `x3 = l^2 - xa - xb`, `y3 = l * (xa - x3) - ya`. */
  function FromLambda(c: Curve, lambda: nat, xa: nat, ya: nat, xb: nat): (r: Point)
    requires c.p > 0
    ensures r.Affine?
  {
    var l2 := ModMul(lambda, lambda, c.p);
    var x3 := ModSub(ModSub(l2, xa, c.p), xb, c.p);
    Affine(x3, ModSub(ModMul(lambda, ModSub(xa, x3, c.p), c.p), ya, c.p))
  }

  function TangentLambda(c: Curve, x: nat, y: nat): nat
    requires c.p >= 2
  {
    var num := ModAdd(ModMul(3, ModMul(x, x, c.p), c.p), c.a, c.p);
    ModMul(num, ModInv(ModMul(2, y, c.p), c.p), c.p)
  }

  function ChordLambda(c: Curve, x1: nat, y1: nat, x2: nat, y2: nat): nat
    requires c.p >= 2
  {
    ModMul(ModSub(y2, y1, c.p), ModInv(ModSub(x2, x1, c.p), c.p), c.p)
  }

  function Double(c: Curve, pt: Point): Point
    requires c.p >= 2
  {
    match pt
    case Infinity => Infinity
    case Affine(x, y) =>
      if y == 0 then Infinity else FromLambda(c, TangentLambda(c, x, y), x, y, x)
  }

  function Add(c: Curve, a: Point, b: Point): Point
    requires c.p >= 2
  {
    match (a, b)
    case (Infinity, _) => b
    case (_, Infinity) => a
    case (Affine(x1, y1), Affine(x2, y2)) =>
      if x1 == x2 then
        if y1 == y2 then Double(c, a) else Infinity
      else
        FromLambda(c, ChordLambda(c, x1, y1, x2, y2), x1, y1, x2)
  }

  function Negate(c: Curve, pt: Point): Point
    requires c.p > 0
  {
    match pt
    case Infinity => Infinity
    case Affine(x, y) => Affine(x, (c.p - y % c.p) % c.p)
  }

  // ----- the slope -----

  /** Dividing by a non-zero residue with the exponentiation inverse solves the linear congruence. */
  lemma QuotientSolves(p: nat, num: nat, den: nat)
    requires Prime(p) && !Divides(p, den)
    ensures Cong(p, ModMul(num, ModInv(den, p), p) * den, num)
  {
    var inv := ModInv(den, p);
    var l := ModMul(num, inv, p);
    ModMulCong(num, inv, p);
    CongRefl(p, den);
    CongProduct(p, l, num * inv, den, den);
    ModInvInverts(den, p);
    CongRefl(p, num);
    CongProduct(p, num, num, den * inv, 1);
    assert num * inv * den == num * (den * inv);
    CongTrans(p, l * den, num * inv * den, num * 1);
  }

  lemma ChordSlope(c: Curve, x1: nat, y1: nat, x2: nat, y2: nat)
    requires PrimeField(c) && x1 < c.p && x2 < c.p && x1 != x2
    ensures var l := ChordLambda(c, x1, y1, x2, y2);
            l < c.p && Cong(c.p, l * (x2 - x1), y2 - y1)
    ensures !Divides(c.p, x2 - x1)
  {
    var p := c.p;
    var num, den := ModSub(y2, y1, p), ModSub(x2, x1, p);
    var l := ChordLambda(c, x1, y1, x2, y2);
    ModSubCong(y2, y1, p);
    ModSubCong(x2, x1, p);
    ModMulCong(num, ModInv(den, p), p);
    if Divides(p, x2 - x1) {
      ReducedEqual(p, x2, x1);
    }
    if Divides(p, den) {
      DividesSum(p, den, den - (x2 - x1));
    }
    QuotientSolves(p, num, den);
    CongRefl(p, l);
    CongProduct(p, l, l, den, x2 - x1);
    CongSymm(p, l * den, l * (x2 - x1));
    CongTrans(p, l * (x2 - x1), l * den, num);
    CongTrans(p, l * (x2 - x1), num, y2 - y1);
  }

  lemma TwiceIsNotZero(p: nat, y: nat)
    requires Prime(p) && p > 3 && 0 < y < p
    ensures !Divides(p, 2 * y)
  {
    if Divides(p, 2 * y) {
      EuclidsLemma(p, 2, y);
      DividesSmall(p, 2);
      DividesSmall(p, y);
    }
  }

  lemma TangentSlope(c: Curve, x: nat, y: nat)
    requires PrimeField(c) && 0 < y < c.p
    ensures var l := TangentLambda(c, x, y);
            l < c.p && Cong(c.p, l * (2 * y), 3 * (x * x) + c.a)
  {
    var p := c.p;
    var x2, den := ModMul(x, x, p), ModMul(2, y, p);
    var t := ModMul(3, x2, p);
    var num := ModAdd(t, c.a, p);
    var l := TangentLambda(c, x, y);
    ModMulCong(x, x, p);
    ModMulCong(3, x2, p);
    CongRefl(p, 3);
    CongProduct(p, 3, 3, x2, x * x);
    CongTrans(p, t, 3 * x2, 3 * (x * x));
    CongRefl(p, c.a);
    CongSum(p, t, 3 * (x * x), c.a, c.a);
    ModAddCong(t, c.a, p);
    CongTrans(p, num, t + c.a, 3 * (x * x) + c.a);
    ModMulCong(2, y, p);
    ModMulCong(num, ModInv(den, p), p);
    TwiceIsNotZero(p, y);
    if Divides(p, den) {
      DividesSum(p, den, den - 2 * y);
    }
    QuotientSolves(p, num, den);
    CongRefl(p, l);
    CongProduct(p, l, l, den, 2 * y);
    CongSymm(p, l * den, l * (2 * y));
    CongTrans(p, l * (2 * y), l * den, num);
    CongTrans(p, l * (2 * y), num, 3 * (x * x) + c.a);
  }

  // ----- the third intersection -----

  /** Where the line y = l*x + k meets the curve: the cubic minus the square of the line, divided by
      (x - x1)(x - x2)(x - x3) with x3 = l^2 - x1 - x2, leaves the remainder `Alpha * x + Beta`. */
  function Alpha(a: int, l: int, k: int, x1: int, x2: int): int {
    a - 2 * (l * k) - (x1 * x2 + (l * l - x1 - x2) * (x1 + x2))
  }

  function Beta(b: int, l: int, k: int, x1: int, x2: int): int {
    b - k * k + x1 * x2 * (l * l - x1 - x2)
  }

  lemma CubicDivision(a: int, b: int, l: int, k: int, x1: int, x2: int, x: int)
    ensures x * x * x + a * x + b - (l * x + k) * (l * x + k)
         == (x * x - (x1 + x2) * x + x1 * x2) * (x - (l * l - x1 - x2))
            + Alpha(a, l, k, x1, x2) * x + Beta(b, l, k, x1, x2)
  {
    var s, m, w := x1 + x2, x1 * x2, l * l - x1 - x2;
    Expand1(x, s, m, w);
    Expand2(l, x, k);
    assert (s + w) * (x * x) == l * l * (x * x);
    assert Alpha(a, l, k, x1, x2) * x == a * x - 2 * (l * k * x) - (m + w * s) * x;
  }

  lemma Expand1(x: int, s: int, m: int, w: int)
    ensures (x * x - s * x + m) * (x - w) == x * x * x - (s + w) * (x * x) + (m + w * s) * x - m * w
  {
  }

  lemma Expand2(l: int, x: int, k: int)
    ensures (l * x + k) * (l * x + k) == l * l * (x * x) + 2 * (l * k * x) + k * k
  {
  }

  /** If the remainder vanishes modulo p at x1 and so does its slope, the third point is on the curve. */
  lemma ThirdPoint(c: Curve, l: int, x1: int, y1: int, x2: int)
    requires c.p > 0
    requires var k := y1 - l * x1;
             && Divides(c.p, Alpha(c.a, l, k, x1, x2))
             && Divides(c.p, Alpha(c.a, l, k, x1, x2) * x1 + Beta(c.b, l, k, x1, x2))
    ensures var x3 := l * l - x1 - x2; Divides(c.p, Defect(c, x3, l * (x1 - x3) - y1))
  {
    hide Alpha, Beta, Divides, Defect;
    var k, x3 := y1 - l * x1, l * l - x1 - x2;
    var al, be := Alpha(c.a, l, k, x1, x2), Beta(c.b, l, k, x1, x2);
    CubicDivision(c.a, c.b, l, k, x1, x2, x3);
    var t := l * x3 + k;
    Distribute(x1, x3, l);
    assert l * (x1 - x3) - y1 == -t;
    DividesProduct(c.p, al, x3 - x1);
    Distribute(x3, x1, al);
    DividesSum(c.p, al * x1 + be, al * (x3 - x1));
    DefectOnLine(c, x3, t, al * x3 + be);
    DividesSum(c.p, 0, al * x3 + be);
  }

  lemma DefectOnLine(c: Curve, x: int, t: int, r: int)
    requires x * x * x + c.a * x + c.b - t * t == r
    ensures Defect(c, x, -t) == -r
  {
  }

  /** The remainder at a point (x, y) of the line, y = l*x + k, that is a root of the first factor. */
  lemma RemainderAtRoot(c: Curve, l: int, k: int, x1: int, x2: int, x: int)
    requires x == x1 || x == x2
    ensures Alpha(c.a, l, k, x1, x2) * x + Beta(c.b, l, k, x1, x2) == -Defect(c, x, l * x + k)
  {
    hide Alpha, Beta;
    CubicDivision(c.a, c.b, l, k, x1, x2, x);
    RootOfFactor(x, x1, x2);
    assert (x * x - (x1 + x2) * x + x1 * x2) * (x - (l * l - x1 - x2)) == 0;
  }

  lemma RootOfFactor(x: int, x1: int, x2: int)
    requires x == x1 || x == x2
    ensures x * x - (x1 + x2) * x + x1 * x2 == 0
  {
    assert x * x - (x1 + x2) * x + x1 * x2 == (x - x1) * (x - x2);
  }

  lemma ChordMeetsCurve(c: Curve, l: int, x1: int, y1: int, x2: int, y2: int)
    requires PrimeField(c) && !Divides(c.p, x2 - x1)
    requires Divides(c.p, Defect(c, x1, y1)) && Divides(c.p, Defect(c, x2, y2))
    requires Cong(c.p, l * (x2 - x1), y2 - y1)
    ensures var x3 := l * l - x1 - x2; Divides(c.p, Defect(c, x3, l * (x1 - x3) - y1))
  {
    var p, k := c.p, y1 - l * x1;
    var al, be := Alpha(c.a, l, k, x1, x2), Beta(c.b, l, k, x1, x2);
    RemainderAtRoot(c, l, k, x1, x2, x1);
    DividesSum(p, 0, Defect(c, x1, y1));
    RemainderAtRoot(c, l, k, x1, x2, x2);
    var t := l * x2 + k;
    assert t == y1 + l * (x2 - x1);
    assert t - y2 == l * (x2 - x1) - (y2 - y1);
    CongRefl(p, x2);
    DefectCong(c, x2, x2, t, y2);
    DividesSum(p, Defect(c, x2, t) - Defect(c, x2, y2), Defect(c, x2, y2));
    DividesSum(p, 0, Defect(c, x2, t));
    DividesSum(p, al * x2 + be, al * x1 + be);
    assert al * x2 + be - (al * x1 + be) == (x2 - x1) * al;
    CancelFactor(p, x2 - x1, al);
    ThirdPoint(c, l, x1, y1, x2);
  }

  lemma TangentMeetsCurve(c: Curve, l: int, x: int, y: int)
    requires PrimeField(c) && Divides(c.p, Defect(c, x, y))
    requires Cong(c.p, l * (2 * y), 3 * (x * x) + c.a)
    ensures var x3 := l * l - x - x; Divides(c.p, Defect(c, x3, l * (x - x3) - y))
  {
    var p, k := c.p, y - l * x;
    RemainderAtRoot(c, l, k, x, x, x);
    DividesSum(p, 0, Defect(c, x, y));
    AlphaTangent(c.a, l, x, y);
    DividesSum(p, 0, l * (2 * y) - (3 * (x * x) + c.a));
    ThirdPoint(c, l, x, y, x);
  }

  lemma AlphaTangent(a: int, l: int, x: int, y: int)
    ensures Alpha(a, l, y - l * x, x, x) == 3 * (x * x) + a - l * (2 * y)
  {
    assert l * (y - l * x) == l * y - l * l * x by { Distribute(y, l * x, l); }
    assert (l * l - x - x) * (x + x) == 2 * (l * l * x) - 4 * (x * x);
  }

  /** Reducing the chord-and-tangent formulas modulo p keeps a point on the curve. */
  lemma FromLambdaMember(c: Curve, l: nat, xa: nat, ya: nat, xb: nat)
    requires c.p > 0
    requires var x3 := l * l - xa - xb; Divides(c.p, Defect(c, x3, l * (xa - x3) - ya))
    ensures Member(c, FromLambda(c, l, xa, ya, xb))
  {
    var p := c.p;
    var l2 := ModMul(l, l, p);
    var t := ModSub(l2, xa, p);
    var x3 := ModSub(t, xb, p);
    var d := ModSub(xa, x3, p);
    var m := ModMul(l, d, p);
    var y3 := ModSub(m, ya, p);
    var X3 := l * l - xa - xb;
    ModMulCong(l, l, p);
    ModSubCong(l2, xa, p);
    CongRefl(p, xa);
    CongSum(p, l2, l * l, xa, xa);
    CongTrans(p, t, l2 - xa, l * l - xa);
    ModSubCong(t, xb, p);
    CongRefl(p, xb);
    CongSum(p, t, l * l - xa, xb, xb);
    CongTrans(p, x3, t - xb, X3);
    ModSubCong(xa, x3, p);
    CongSum(p, xa, xa, x3, X3);
    CongTrans(p, d, xa - x3, xa - X3);
    ModMulCong(l, d, p);
    CongRefl(p, l);
    CongProduct(p, l, l, d, xa - X3);
    CongTrans(p, m, l * d, l * (xa - X3));
    ModSubCong(m, ya, p);
    CongRefl(p, ya);
    CongSum(p, m, l * (xa - X3), ya, ya);
    var Y3 := l * (xa - X3) - ya;
    CongTrans(p, y3, m - ya, Y3);
    DefectCong(c, x3, X3, y3, Y3);
    DividesSum(p, Defect(c, x3, y3) - Defect(c, X3, Y3), Defect(c, X3, Y3));
    OnCurveIsEquation(c, x3, y3);
  }

  // ----- the laws -----

  /** Doubling maps canonical points of the curve to canonical points of the curve. */
  lemma DoubleClosed(c: Curve, pt: Point)
    requires PrimeField(c) && Member(c, pt)
    ensures Member(c, Double(c, pt))
  {
    if pt.Affine? && pt.y != 0 {
      OnCurveIsEquation(c, pt.x, pt.y);
      TangentSlope(c, pt.x, pt.y);
      TangentMeetsCurve(c, TangentLambda(c, pt.x, pt.y), pt.x, pt.y);
      FromLambdaMember(c, TangentLambda(c, pt.x, pt.y), pt.x, pt.y, pt.x);
    }
  }

  /** Addition maps canonical points of the curve to canonical points of the curve. */
  lemma AddClosed(c: Curve, a: Point, b: Point)
    requires PrimeField(c) && Member(c, a) && Member(c, b)
    ensures Member(c, Add(c, a, b))
  {
    if a.Affine? && b.Affine? {
      if a.x == b.x {
        DoubleClosed(c, a);
      } else {
        var l := ChordLambda(c, a.x, a.y, b.x, b.y);
        OnCurveIsEquation(c, a.x, a.y);
        OnCurveIsEquation(c, b.x, b.y);
        ChordSlope(c, a.x, a.y, b.x, b.y);
        ChordMeetsCurve(c, l, a.x, a.y, b.x, b.y);
        FromLambdaMember(c, l, a.x, a.y, b.x);
      }
    }
  }

  /** The chord slope is the only reduced solution of its congruence, so it does not depend on the order. */
  lemma ChordSlopeSymmetric(c: Curve, x1: nat, y1: nat, x2: nat, y2: nat)
    requires PrimeField(c) && x1 < c.p && x2 < c.p && x1 != x2
    ensures ChordLambda(c, x1, y1, x2, y2) == ChordLambda(c, x2, y2, x1, y1)
  {
    hide ChordLambda;
    var p := c.p;
    var l, l' := ChordLambda(c, x1, y1, x2, y2), ChordLambda(c, x2, y2, x1, y1);
    ChordSlope(c, x1, y1, x2, y2);
    ChordSlope(c, x2, y2, x1, y1);
    DividesSum(p, l * (x2 - x1) - (y2 - y1), l' * (x1 - x2) - (y1 - y2));
    assert l * (x2 - x1) - (y2 - y1) + (l' * (x1 - x2) - (y1 - y2)) == (x2 - x1) * (l - l');
    CancelFactor(p, x2 - x1, l - l');
    ReducedEqual(p, l, l');
  }

  lemma FromLambdaSymmetric(c: Curve, l: nat, x1: nat, y1: nat, x2: nat, y2: nat)
    requires c.p > 0 && Cong(c.p, l * (x2 - x1), y2 - y1)
    ensures FromLambda(c, l, x1, y1, x2) == FromLambda(c, l, x2, y2, x1)
  {
    var p := c.p;
    var l2 := ModMul(l, l, p);
    ThirdAbscissa(p, l2, x1, x2);
    ThirdAbscissa(p, l2, x2, x1);
    var x3, x3' := ModSub(ModSub(l2, x1, p), x2, p), ModSub(ModSub(l2, x2, p), x1, p);
    CongSymm(p, x3', l2 - x2 - x1);
    CongTrans(p, x3, l2 - x1 - x2, x3');
    ReducedEqual(p, x3, x3');
    ThirdOrdinate(p, l, x1, y1, x3);
    ThirdOrdinate(p, l, x2, y2, x3);
    var y3 := ModSub(ModMul(l, ModSub(x1, x3, p), p), y1, p);
    var y3' := ModSub(ModMul(l, ModSub(x2, x3, p), p), y2, p);
    var e, e' := l * (x1 - x3) - y1, l * (x2 - x3) - y2;
    assert e' - e == l * (x2 - x1) - (y2 - y1);
    CongSymm(p, e', e);
    CongTrans(p, y3, e, e');
    CongSymm(p, y3', e');
    CongTrans(p, y3, e', y3');
    ReducedEqual(p, y3, y3');
  }

  lemma ThirdAbscissa(p: nat, l2: nat, xa: nat, xb: nat)
    requires p > 0
    ensures var x3 := ModSub(ModSub(l2, xa, p), xb, p); x3 < p && Cong(p, x3, l2 - xa - xb)
  {
    var t := ModSub(l2, xa, p);
    ModSubCong(l2, xa, p);
    ModSubCong(t, xb, p);
    CongRefl(p, xb);
    CongSum(p, t, l2 - xa, xb, xb);
    CongTrans(p, ModSub(t, xb, p), t - xb, l2 - xa - xb);
  }

  lemma ThirdOrdinate(p: nat, l: nat, xa: nat, ya: nat, x3: nat)
    requires p > 0
    ensures var y3 := ModSub(ModMul(l, ModSub(xa, x3, p), p), ya, p); y3 < p && Cong(p, y3, l * (xa - x3) - ya)
  {
    var d := ModSub(xa, x3, p);
    var m := ModMul(l, d, p);
    ModSubCong(xa, x3, p);
    ModMulCong(l, d, p);
    CongRefl(p, l);
    CongProduct(p, l, l, d, xa - x3);
    CongTrans(p, m, l * d, l * (xa - x3));
    ModSubCong(m, ya, p);
    CongRefl(p, ya);
    CongSum(p, m, l * (xa - x3), ya, ya);
    CongTrans(p, ModSub(m, ya, p), m - ya, l * (xa - x3) - ya);
  }

  /** Addition of canonical points commutes, on the curve or off it. */
  lemma AddCommutes(c: Curve, a: Point, b: Point)
    requires PrimeField(c) && Reduced(c, a) && Reduced(c, b)
    ensures Add(c, a, b) == Add(c, b, a)
  {
    hide ChordLambda, FromLambda, TangentLambda;
    if a.Affine? && b.Affine? && a.x != b.x {
      ChordSlope(c, a.x, a.y, b.x, b.y);
      ChordSlopeSymmetric(c, a.x, a.y, b.x, b.y);
      FromLambdaSymmetric(c, ChordLambda(c, a.x, a.y, b.x, b.y), a.x, a.y, b.x, b.y);
    }
  }

  lemma PrimeIsOdd(p: nat)
    requires Prime(p) && p > 3
    ensures p % 2 == 1
  {
    assert p % 2 != 0;
  }

  /** Two points of the curve with one abscissa are equal or opposite. */
  lemma SameAbscissa(c: Curve, x: nat, y1: nat, y2: nat)
    requires PrimeField(c) && Member(c, Affine(x, y1)) && Member(c, Affine(x, y2)) && y1 != y2
    ensures y1 + y2 == c.p
  {
    var p := c.p;
    OnCurveIsEquation(c, x, y1);
    OnCurveIsEquation(c, x, y2);
    hide IsOnCurve, Prime;
    DividesSum(p, Defect(c, x, y1), Defect(c, x, y2));
    SquareDifference(y1, y2);
    assert Divides(p, (y1 - y2) * (y1 + y2));
    hide Defect;
    if Divides(p, y1 - y2) {
      ReducedEqual(p, y1, y2);
    }
    CancelFactor(p, y1 - y2, y1 + y2);
    OnlyMultipleBelowTwice(p, y1 + y2);
  }

  lemma OnlyMultipleBelowTwice(p: nat, s: nat)
    requires 0 < s < 2 * p && Divides(p, s)
    ensures s == p
  {
    SmallMultiple(s / p - 1, p);
  }

  lemma SquareDifference(a: int, b: int)
    ensures a * a - b * b == (a - b) * (a + b)
  {
  }

  /** A sum is the point at infinity exactly when the second point is the opposite of the first. */
  lemma AddIsInfinityExactlyOnOpposites(c: Curve, a: Point, b: Point)
    requires PrimeField(c) && Member(c, a) && Member(c, b)
    ensures Add(c, a, b) == Infinity <==> b == Negate(c, a)
  {
    hide ChordLambda, FromLambda, TangentLambda, IsOnCurve;
    if a.Affine? {
      PrimeIsOdd(c.p);
      NegateValue(c.p, a.y);
      if b.Affine? && a.x == b.x && a.y != b.y {
        SameAbscissa(c, a.x, a.y, b.y);
      }
    }
  }

  lemma NegateValue(p: nat, y: nat)
    requires y < p
    ensures (p - y % p) % p == if y == 0 then 0 else p - y
  {
    QuotientUnique(y, p, 0, y);
    if y == 0 {
      QuotientUnique(p, p, 1, 0);
    } else {
      QuotientUnique(p - y, p, 0, p - y);
    }
  }

  // ----- which point a sum is -----

  /** (x, y) is the reflection of the third point on the line through (xa, ya) with slope num / den that also meets
      the curve over xb: the opposite point lies on the line, and the three abscissas add up to the squared slope. */
  predicate IsReflectedThird(p: nat, num: int, den: int, xa: int, ya: int, xb: int, x: int, y: int)
    requires p > 0
  {
    && Divides(p, (y + ya) * den - num * (xa - x))
    && Divides(p, (xa + xb + x) * den * den - num * num)
  }

  lemma FromLambdaIsThird(c: Curve, l: nat, num: int, den: int, xa: nat, ya: nat, xb: nat)
    requires c.p > 0 && Cong(c.p, l * den, num)
    ensures var r := FromLambda(c, l, xa, ya, xb);
            r.x < c.p && r.y < c.p && IsReflectedThird(c.p, num, den, xa, ya, xb, r.x, r.y)
  {
    var p := c.p;
    var l2 := ModMul(l, l, p);
    var r := FromLambda(c, l, xa, ya, xb);
    ModMulCong(l, l, p);
    ThirdAbscissa(p, l2, xa, xb);
    ThirdOrdinate(p, l, xa, ya, r.x);
    hide FromLambda, ModMul;
    SlopeSquared(p, l, l2, num, den, xa + xb + r.x);
    SlopeTimes(p, l, num, den, r.y + ya, xa - r.x);
  }

  lemma SlopeSquared(p: nat, l: int, l2: int, num: int, den: int, s: int)
    requires p > 0 && Cong(p, l * den, num) && Cong(p, l2, l * l) && Cong(p, s, l2)
    ensures Cong(p, s * den * den, num * num)
  {
    CongTrans(p, s, l2, l * l);
    CongRefl(p, den * den);
    CongProduct(p, s, l * l, den * den, den * den);
    CongProduct(p, l * den, num, l * den, num);
    assert l * l * (den * den) == l * den * (l * den);
    assert s * (den * den) == s * den * den;
    CongTrans(p, s * den * den, l * den * (l * den), num * num);
  }

  lemma SlopeTimes(p: nat, l: int, num: int, den: int, y: int, x: int)
    requires p > 0 && Cong(p, l * den, num) && Cong(p, y, l * x)
    ensures Cong(p, y * den, num * x)
  {
    CongRefl(p, den);
    CongRefl(p, x);
    CongProduct(p, y, l * x, den, den);
    CongProduct(p, l * den, num, x, x);
    assert l * x * den == l * den * x;
    CongTrans(p, y * den, l * den * x, num * x);
  }

  /** There is only one such point. */
  lemma ThirdIsUnique(p: nat, num: int, den: int, xa: int, ya: int, xb: int, x: nat, y: nat, x': nat, y': nat)
    requires Prime(p) && !Divides(p, den) && x < p && y < p && x' < p && y' < p
    requires IsReflectedThird(p, num, den, xa, ya, xb, x, y) && IsReflectedThird(p, num, den, xa, ya, xb, x', y')
    ensures x == x' && y == y'
  {
    hide Divides, Prime;
    DividesSum(p, (xa + xb + x) * den * den - num * num, (xa + xb + x') * den * den - num * num);
    assert (xa + xb + x) * den * den - num * num - ((xa + xb + x') * den * den - num * num) == den * (den * (x - x'));
    CancelFactor(p, den, den * (x - x'));
    CancelFactor(p, den, x - x');
    ReducedEqual(p, x, x');
    DividesSum(p, (y + ya) * den - num * (xa - x), (y' + ya) * den - num * (xa - x'));
    assert (y + ya) * den - num * (xa - x) - ((y' + ya) * den - num * (xa - x')) == den * (y - y');
    CancelFactor(p, den, y - y');
    ReducedEqual(p, y, y');
  }

  /** The sum of two points over different abscissas is the reflected third point of their chord, and nothing else is. */
  lemma ChordSumExactly(c: Curve, a: Point, b: Point, r: Point)
    requires PrimeField(c) && Reduced(c, a) && Reduced(c, b) && Reduced(c, r)
    requires a.Affine? && b.Affine? && a.x != b.x
    ensures r == Add(c, a, b)
       <==> r.Affine? && IsReflectedThird(c.p, b.y - a.y, b.x - a.x, a.x, a.y, b.x, r.x, r.y)
  {
    hide FromLambda, ChordLambda, IsReflectedThird;
    var l := ChordLambda(c, a.x, a.y, b.x, b.y);
    ChordSlope(c, a.x, a.y, b.x, b.y);
    FromLambdaIsThird(c, l, b.y - a.y, b.x - a.x, a.x, a.y, b.x);
    var s := FromLambda(c, l, a.x, a.y, b.x);
    if r.Affine? && IsReflectedThird(c.p, b.y - a.y, b.x - a.x, a.x, a.y, b.x, r.x, r.y) {
      ThirdIsUnique(c.p, b.y - a.y, b.x - a.x, a.x, a.y, b.x, r.x, r.y, s.x, s.y);
    }
  }

  /** The double of a point is the reflected third point of its tangent, and nothing else is. */
  lemma TangentSumExactly(c: Curve, a: Point, r: Point)
    requires PrimeField(c) && Reduced(c, a) && Reduced(c, r) && a.Affine? && a.y != 0
    ensures Add(c, a, a) == Double(c, a)
    ensures r == Add(c, a, a)
       <==> r.Affine? && IsReflectedThird(c.p, 3 * (a.x * a.x) + c.a, 2 * a.y, a.x, a.y, a.x, r.x, r.y)
  {
    hide FromLambda, TangentLambda, IsReflectedThird;
    var l, num := TangentLambda(c, a.x, a.y), 3 * (a.x * a.x) + c.a;
    TangentSlope(c, a.x, a.y);
    TwiceIsNotZero(c.p, a.y);
    FromLambdaIsThird(c, l, num, 2 * a.y, a.x, a.y, a.x);
    var s := FromLambda(c, l, a.x, a.y, a.x);
    if r.Affine? && IsReflectedThird(c.p, num, 2 * a.y, a.x, a.y, a.x, r.x, r.y) {
      ThirdIsUnique(c.p, num, 2 * a.y, a.x, a.y, a.x, r.x, r.y, s.x, s.y);
    }
  }

  /** Infinity is neutral, and a point of order two doubles to it. */
  lemma SumWithInfinity(c: Curve, a: Point)
    requires c.p >= 2
    ensures Add(c, Infinity, a) == a && Add(c, a, Infinity) == a
    ensures a.Affine? && a.y == 0 ==> Add(c, a, a) == Infinity
  {
  }
}
