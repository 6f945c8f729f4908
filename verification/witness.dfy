/** The hypotheses of the agreement theorems hold together: a small curve on which the assumed group law and the
    domain conditions are true, and complete logins that are acceptable, on that curve and on a curve of the program. */
module Witness {
  import opened Bytes
  import opened NumberTheory
  import opened EllipticCurve
  import opened ScalarMultiplication
  import opened Vko
  import opened Prf
  import opened Der
  import opened KeyWrap
  import opened KeyTransport
  import opened HandshakeMessages
  import opened Tls
  import opened ClientSide
  import opened Login
  import opened RecordProtection
  import opened LoginAgreement
  import opened CertificateWalk

  // ----- a curve of order three -----

  /** y^2 = x^3 + 4x + 2 modulo 5: the point at infinity, (3, 1) and (3, 4). */
  function TinyCurve(): Curve { Curve(5, 4, 2, 3, 3, 1) }

  predicate TinyPoint(pt: Point) {
    pt == Infinity || pt == Affine(3, 1) || pt == Affine(3, 4)
  }

  lemma TinyMembers(pt: Point)
    ensures Member(TinyCurve(), pt) <==> TinyPoint(pt)
  {
    if pt.Affine? && pt.x < 5 && pt.y < 5 {
      Squares(pt.y);
      Cubes(pt.x);
    }
  }

  lemma Squares(y: nat)
    requires y < 5
    ensures ModMul(y, y, 5) == if y == 0 then 0 else if y == 1 || y == 4 then 1 else 4
  {
    if y == 0 {} else if y == 1 {} else if y == 2 {} else if y == 3 {} else {}
  }

  lemma Cubes(x: nat)
    requires x < 5
    ensures ModAdd(ModAdd(ModMul(ModMul(x, x, 5), x, 5), ModMul(4, x, 5), 5), 2, 5)
         == if x == 3 then 1 else if x == 2 then 3 else 2
  {
    Squares(x);
    var s: nat := ModMul(x, x, 5);
    assert s * x == if x == 0 then 0 else if x == 1 then 1 else if x == 2 then 8 else if x == 3 then 12 else 4;
    assert 4 * x % 5 == if x == 0 then 0 else if x == 1 then 4 else if x == 2 then 3 else if x == 3 then 2 else 1;
  }

  lemma TinyDoubles()
    ensures Double(TinyCurve(), Affine(3, 1)) == Affine(3, 4)
    ensures Double(TinyCurve(), Affine(3, 4)) == Affine(3, 1)
  {
    assert Pow(2, 3) == 8 && Pow(3, 3) == 27 by { PowCubes(); }
  }

  lemma PowCubes()
    ensures Pow(2, 3) == 8 && Pow(3, 3) == 27
  {
    assert Pow(2, 1) == 2 && Pow(3, 1) == 3;
    assert Pow(2, 2) == 4 && Pow(3, 2) == 9;
  }

  lemma TinyAssociates(a: Point, b: Point, d: Point)
    requires TinyPoint(a) && TinyPoint(b) && TinyPoint(d)
    ensures Add(TinyCurve(), Add(TinyCurve(), a, b), d) == Add(TinyCurve(), a, Add(TinyCurve(), b, d))
  {
    hide Double;
    TinyDoubles();
  }

  lemma TinyOrder()
    ensures Times(TinyCurve(), 3, Affine(3, 1)) == Infinity
  {
    hide Double;
    var c, g := TinyCurve(), Affine(3, 1);
    TinyDoubles();
    assert Times(c, 1, g) == g;
    assert Times(c, 2, g) == Affine(3, 4);
  }

  lemma TinyLaw()
    ensures Associative(TinyCurve())
  {
    hide Member, Add, TinyPoint;
    var c := TinyCurve();
    forall a: Point, b: Point, d: Point | Member(c, a) && Member(c, b) && Member(c, d)
      ensures Add(c, Add(c, a, b), d) == Add(c, a, Add(c, b, d))
    {
      TinyMembers(a);
      TinyMembers(b);
      TinyMembers(d);
      TinyAssociates(a, b, d);
    }
  }

  /** Associativity, the domain conditions and a prime order hold together on a curve. */
  lemma HypothesesHold()
    ensures Domain(TinyCurve()) && Associative(TinyCurve()) && Prime(TinyCurve().q)
  {
    hide Associative, Member, Times;
    TinyMembers(Generator(TinyCurve()));
    TinyLaw();
    TinyOrder();
  }

  // ----- acceptable logins -----

  /** The first curve of a list, with what a login needs of it. */
  ghost predicate First(cs: Curves, c: Curve) {
    && cs != [] && cs[0] == c && Usable(c) && c.q > 1
    && Member(c, Generator(c)) && FieldBytes(c) <= 32
  }

  function SampleHash(data: Bytes): Key { [1] + Zeros(31) }

  /** The key of a server whose private key is one. */
  function Raw(c: Curve): Bytes { EncodePointLe(c, Generator(c)).value }

  function SampleHead(): seq<Elem> { seq(5, _ => Elem(0x02, [])) }

  function Leaf(c: Curve): Bytes { EncodeCertificate(SampleHead(), SpkiContent(DerTlv(0x30, []), Raw(c)), [], []) }

  function SampleParams(cs: Curves): Params {
    Params(SampleHash, cs, [], Zeros(32), Zeros(32), [], [0xFF85], [], (digest: Key) => Some([]))
  }

  function SampleFlight(c: Curve): seq<Message> {
    [Message(SERVER_HELLO, Zeros(34)), Message(CERTIFICATE, CertificateBody([Leaf(c)]))]
  }

  function SampleUkm(): Block { DeriveSharedUkm(SampleHash, Zeros(32), Zeros(32)) }

  lemma UkmIsOne()
    ensures LeNat(SampleUkm()) == 1
  {
    assert SampleUkm() == [1] + Zeros(7);
    assert SampleUkm()[1..] == Zeros(7);
    ZerosAreZero(7);
  }

  lemma {:induction false} ZerosAreZero(n: nat)
    ensures LeNat(Zeros(n)) == 0
  {
    if n > 0 {
      assert Zeros(n)[1..] == Zeros(n - 1);
      ZerosAreZero(n - 1);
    }
  }

  lemma RawIsShort(c: Curve)
    requires FieldBytes(c) <= 32
    ensures |Raw(c)| <= 64
  {
    hide FieldBytes, EncodePointLe;
    EncodedLength(c, Generator(c));
  }

  lemma {:induction false} EmptyElements(es: seq<Elem>)
    requires forall i :: 0 <= i < |es| ==> es[i].content == []
    ensures |Elements(es)| <= 6 * |es|
  {
    hide DerTlv;
    if es != [] {
      TlvBound(es[0].tag, es[0].content);
      EmptyElements(es[1..]);
    }
  }

  function Algorithm(): Bytes { DerTlv(0x30, []) }

  lemma SpkiIsShort(c: Curve)
    requires FieldBytes(c) <= 32
    ensures |SpkiContent(Algorithm(), Raw(c))| <= 100
  {
    hide DerTlv, EncodePointLe, FieldBytes;
    RawIsShort(c);
    TlvBound(0x30, []);
    TlvBound(0x04, Raw(c));
    TlvBound(0x03, [0x00] + DerTlv(0x04, Raw(c)));
  }

  lemma LeafIsRead(c: Curve)
    requires FieldBytes(c) <= 32
    ensures ExtractPoint(Leaf(c)) == Some(Raw(c)) && ExtractAlgorithm(Leaf(c)) == Some(Algorithm())
    ensures |Leaf(c)| <= 200
  {
    hide DerTlv, EncodePointLe, FieldBytes, ExtractPoint, ExtractAlgorithm, Elements, SpkiContent;
    var head, spki := SampleHead(), SpkiContent(Algorithm(), Raw(c));
    RawIsShort(c);
    SpkiIsShort(c);
    EmptyElements(head);
    TlvBound(0x30, spki);
    var tbs := Signed(head, spki, []);
    TlvBound(0x30, tbs);
    TlvBound(0x30, DerTlv(0x30, tbs) + []);
    CertificateIsRead(head, [], Raw(c), [], []);
  }

  lemma OnceIsGenerator(c: Curve)
    requires c.p >= 2
    ensures DoubleAndAdd(c, 1, Generator(c)) == Generator(c)
  {
    hide Add, Double;
    InfinityLaws(c);
    assert DoubleAndAdd(c, 0, Generator(c)) == Infinity;
  }

  lemma InfinityLaws(c: Curve)
    requires c.p >= 2
    ensures Double(c, Infinity) == Infinity && Add(c, Infinity, Generator(c)) == Generator(c)
  {
  }

  lemma FirstIsDetected(cs: Curves, c: Curve)
    requires First(cs, c)
    ensures DetectCurve(cs, Raw(c)) == Some((c, Generator(c)))
  {
    hide DecodePointLe, EncodePointLe, Member, FieldBytes;
    DecodeAfterEncode(c, Generator(c));
  }

  /** The key transport for the sample certificate. */
  lemma KeyIsReady(cs: Curves, c: Curve) returns (key: PreparedKey)
    requires First(cs, c)
    ensures AgreementIsFinite(cs, Raw(c), SampleUkm(), [])
    ensures SoftwareKeyTransport(SampleHash, cs, Raw(c), Algorithm(), SampleUkm(), []) == Ready(key)
    ensures |key.spki| <= 100
  {
    hide DetectCurve, DecodePointLe, DoubleAndAdd, EncodePointLe, DerTlv, LeNat, BeNat, Member, IsOnCurve, SampleUkm,
         SpkiContent, Raw, Algorithm, FieldBytes;
    FirstIsDetected(cs, c);
    OnceIsGenerator(c);
    UkmIsOne();
    SpkiIsShort(c);
    NoEntropy(c.q);
    RawIsEncoded(c);
    var kek := Vko256(SampleHash, c, 1, Generator(c), SampleUkm());
    key := PreparedKey(kek, SpkiContent(Algorithm(), Raw(c)));
  }

  lemma RawIsEncoded(c: Curve)
    ensures EncodePointLe(c, Generator(c)) == Some(Raw(c))
  {
    hide EncodeCoordLe;
  }

  lemma NoEntropy(q: nat)
    requires q > 1
    ensures 1 * 1 % q == 1 && BeNat([]) % q == 0
  {
    QuotientUnique(1, q, 0, 1);
    QuotientUnique(0, q, 0, 0);
  }

  function SampleScene(c: Curve, key: PreparedKey): Scene { Scene(SampleFlight(c), [], Zeros(32), key) }

  lemma CertificateListIsShort(c: Curve)
    requires FieldBytes(c) <= 32
    ensures |Leaf(c)| <= 200 && |CertificateList([Leaf(c)])| == 3 + |Leaf(c)| && |CertificateBody([Leaf(c)])| <= 400
  {
    hide Leaf, Be, FieldBytes;
    LeafIsRead(c);
    assert [Leaf(c)][1..] == [];
  }

  /** The sample flight is folded: it leaves the certificate and the random. */
  lemma SampleFolds(cs: Curves, c: Curve, key: PreparedKey)
    requires FieldBytes(c) <= 32
    ensures var f := Folded(SampleParams(cs), SampleScene(c, key));
            && f.Some? && f.value.1 == Some(Leaf(c))
            && f.value.0.serverRandom == Some(Zeros(32)) && f.value.0.clientRandom == Zeros(32)
    ensures FitFrames(SampleFlight(c)) && HellosCarry(SampleFlight(c), Zeros(32))
  {
    hide Leaf, FieldBytes, FirstCertificate, CertificateBody, CertificateList, Frame, HelloBody, State.Push;
    CertificateListIsShort(c);
    LeafIsFoundExactly([Leaf(c)]);
    var ms := SampleFlight(c);
    assert ms[1..] == [ms[1]] && ms[1..][1..] == [];
    assert Zeros(34)[2..34] == Zeros(32);
    var st := StartState(TLS1_2, Zeros(32), HelloBody(SampleParams(cs)));
    FoldTwo(st, ms);
    AcceptHello(st, ms[0].body);
    var st1 := Accept(st, None, ms[0]).value.0;
    AcceptCertificate(st1, ms[1].body, Leaf(c));
    FoldTranscript(st, None, ms);
    StartRandom(Zeros(32), HelloBody(SampleParams(cs)));
  }

  lemma StartRandom(random: Key, hello: Bytes)
    ensures StartState(TLS1_2, random, hello).clientRandom == random
  {
    hide Frame;
  }

  lemma FoldOne(st: State, leaf: Option<Bytes>, ms: seq<Message>)
    requires |ms| == 1
    ensures FoldFlight(st, leaf, ms) == Accept(st, leaf, ms[0])
  {
    hide Accept;
    assert ms[1..] == [];
    match Accept(st, leaf, ms[0])
    case None =>
    case Some((st', leaf')) => assert FoldFlight(st', leaf', []) == Some((st', leaf'));
  }

  lemma FoldTwo(st: State, ms: seq<Message>)
    requires |ms| == 2
    ensures FoldFlight(st, None, ms)
         == match Accept(st, None, ms[0])
            case None => None
            case Some((st', leaf)) => Accept(st', leaf, ms[1])
  {
    hide Accept;
    assert ms[1..][1..] == [];
    match Accept(st, None, ms[0])
    case None =>
    case Some((st', leaf)) => FoldOne(st', leaf, ms[1..]);
  }

  lemma AcceptHello(st: State, body: Bytes)
    requires |body| >= 34
    ensures var a := Accept(st, None, Message(SERVER_HELLO, body));
            a.Some? && a.value.1 == None && a.value.0.serverRandom == Some(body[2..34])
  {
    hide Frame;
  }

  lemma AcceptCertificate(st: State, body: Bytes, cert: Bytes)
    requires FirstCertificate(body) == Some(cert)
    ensures var a := Accept(st, None, Message(CERTIFICATE, body));
            a.Some? && a.value.1 == Some(cert) && a.value.0.serverRandom == st.serverRandom
  {
    hide Frame, FirstCertificate;
  }

  lemma ExchangeIsShort(key: PreparedKey)
    requires |key.spki| <= 100
    ensures |BuildClientKeyExchange(SampleHash, key.kek, Zeros(32), Zeros(32), Zeros(32), Some(key.spki))| <= 1000
  {
    hide DerTlv, Wrap, DeriveSharedUkm, OidContent;
    var w := Wrap(key.kek, DeriveSharedUkm(SampleHash, Zeros(32), Zeros(32)), Zeros(32));
    OidIsShort();
    DerOidContent(PARAM_Z_OID);
    TlvBound(0x06, OidContent(PARAM_Z_OID));
    TlvBound(0xA0, key.spki);
    TlvBound(0x04, w.ukm);
    TlvBound(0xA0, DerTlv(0x06, OidContent(PARAM_Z_OID)) + DerTlv(0xA0, key.spki) + DerTlv(0x04, w.ukm));
    TlvBound(0x04, w.cekEnc);
    TlvBound(0x04, w.cekMac);
    TlvBound(0x30, DerTlv(0x04, w.cekEnc) + DerTlv(0x04, w.cekMac));
    TlvBound(0x30, EncodeSessionKey(w) + EncodeTransportParameters(PARAM_Z_OID, w.ukm, Some(key.spki)));
    TlvBound(0x30, EncodeKeyTransport(w, PARAM_Z_OID, Some(key.spki)));
  }

  lemma OidIsShort()
    ensures |OidContent(PARAM_Z_OID)| <= 100
  {
    ArcsAreShort(PARAM_Z_OID[2..]);
  }

  lemma {:induction false} ArcsAreShort(arcs: seq<nat>)
    requires forall i :: 0 <= i < |arcs| ==> arcs[i] < 0x4000
    ensures |OidArcs(arcs)| <= 2 * |arcs|
  {
    if arcs != [] {
      ArcsAreShort(arcs[1..]);
      ArcIsShort(arcs[0]);
    }
  }

  lemma ArcIsShort(v: nat)
    requires v < 0x4000
    ensures |OidArc(v)| <= 2
  {
    assert OidArcHigh(v / 0x80 / 0x80) == [];
  }

  lemma HelloIsShort(cs: Curves)
    ensures FitsRecord(HelloBody(SampleParams(cs)))
  {
    hide Be;
    assert [0xFF85][1..] == [];
    assert |Suites([0xFF85])| == 2 by { assert Suites([0xFF85]) == Be(0xFF85, 2) + Suites([]); }
  }

  /** For every list of curves with a usable first one there is a login to which the agreement theorems apply,
      with a certificate for the key of that curve's generator. */
  lemma AcceptableLogin(cs: Curves, c: Curve) returns (x: Scene)
    requires First(cs, c)
    ensures Acceptable(SampleParams(cs), x)
    ensures Folded(SampleParams(cs), x).Some? && Folded(SampleParams(cs), x).value.1 == Some(Leaf(c))
    ensures x.serverRandom == Zeros(32)
  {
    hide Folded, HelloBody, Leaf, FieldBytes, Member, ExtractPoint, ExtractAlgorithm, SoftwareKeyTransport, AgreementIsFinite, FitFrames,
         HellosCarry, BuildClientKeyExchange, KeyExchanged, SampleFlight, Raw, Algorithm, State.Push;
    var key := KeyIsReady(cs, c);
    x := SampleScene(c, key);
    LeafIsRead(c);
    SampleFolds(cs, c, key);
    HelloIsShort(cs);
    ExchangeIsShort(key);
    InformedRandom(SampleParams(cs), x);
    SampleBodies(cs, key, Informed(SampleParams(cs), x));
  }

  lemma InformedRandom(p: Params, x: Scene)
    requires Folded(p, x).Some?
    ensures Informed(p, x).serverRandom == Folded(p, x).value.0.serverRandom
    ensures Informed(p, x).clientRandom == Folded(p, x).value.0.clientRandom
  {
    hide Frame, Folded;
  }

  lemma SampleBodies(cs: Curves, key: PreparedKey, st: State)
    requires |BuildClientKeyExchange(SampleHash, key.kek, Zeros(32), Zeros(32), Zeros(32), Some(key.spki))| <= 1000
    requires st.clientRandom == Zeros(32) && st.serverRandom == Some(Zeros(32))
    ensures BodiesFit(IdentityBodies(SampleParams(cs), st, key, []))
  {
    hide BuildClientKeyExchange, Be;
  }

  // ----- the curves of the program -----

  const G := Affine(0x1, 0x8D91E471E0989CDA27DF505A453F2B7635294F2DDF23E3B122ACC99C9E9F1E14)

  lemma GeneratorOnB()
    ensures Member(ParamSetB(), Generator(ParamSetB())) && Usable(ParamSetB()) && ParamSetB().q > 1
  {
    var c := ParamSetB();
    assert Generator(c) == G;
    assert ModMul(G.y, G.y, c.p) == ModAdd(ModAdd(1, ModMul(c.a, 1, c.p), c.p), c.b, c.p);
  }

  lemma {:induction false} MinimalAtMost(n: nat, k: nat)
    requires k > 0 && n < Pow(0x100, k)
    ensures |MinimalLe(n)| <= k
  {
    if k == 1 {
      assert Pow(0x100, 1) == 0x100 * Pow(0x100, 0);
    } else if n >= 0x100 {
      MinimalAtMost(n / 0x100, k - 1);
    }
  }

  lemma FieldFits()
    ensures ParamSetB().p < Pow(0x100, 32)
  {
    hide Pow;
    Pow256Values();
    PowAdd(0x100, 8, 8);
    PowAdd(0x100, 16, 16);
    assert Pow(0x100, 16) == 0x1_0000_0000_0000_0000_0000_0000_0000_0000;
  }

  /** A login over the curves of the program. */
  lemma KnownLogin() returns (x: Scene)
    ensures Acceptable(SampleParams(KnownCurves()), x)
  {
    hide Acceptable, Member, Usable, SampleParams, MinimalLe, ParamSetB, ParamSetC, ParamSetD, Pow, Folded, Leaf;
    GeneratorOnB();
    FieldFits();
    MinimalAtMost(ParamSetB().p, 32);
    assert KnownCurves()[0] == ParamSetB();
    x := AcceptableLogin(KnownCurves(), ParamSetB());
  }

  // ----- all hypotheses at once -----

  function TinyCurves(): Curves { [TinyCurve()] }

  /** On the small curve everything assumed anywhere holds of one login: the group law, the domain, the prime order,
      an acceptable flight, and a certificate for a key whose private part is one. The server then recovers the
      premaster and follows the client. */
  lemma EverythingHolds() returns (x: Scene)
    ensures var p, c := SampleParams(TinyCurves()), TinyCurve();
            && Acceptable(p, x)
            && Domain(c) && Associative(c) && Prime(c.q) && PublicPoint(c, 1) != Infinity && FieldBytes(c) < 0x800_0000
            && Folded(p, x).Some? && Folded(p, x).value.1.Some?
            && ExtractPoint(Folded(p, x).value.1.value) == EncodePointLe(c, PublicPoint(c, 1))
            && DetectCurve(p.curves, EncodePointLe(c, PublicPoint(c, 1)).value) == Some((c, PublicPoint(c, 1)))
            && LeNat(DeriveSharedUkm(p.h, p.clientRandom, x.serverRandom)) % c.q != 0
    ensures var p, c := SampleParams(TinyCurves()), TinyCurve();
            && ReadClient(ClientSends(p, x)).Some?
            && var m := ReadClient(ClientSends(p, x)).value.keyExchange;
               |m| >= 4 && ServerRecovers(p.h, c, 1, m[4..]) == Some(p.premaster)
  {
    hide Acceptable, Domain, Associative, Prime, Folded, ExtractPoint, EncodePointLe, DetectCurve, LeNat, Leaf, Member,
         FieldBytes, DoubleAndAdd, ReadClient, ClientSends, ServerRecovers, Raw;
    var cs, c := TinyCurves(), TinyCurve();
    HypothesesHold();
    TinyIsFirst();
    x := AcceptableLogin(cs, c);
    LeafIsRead(c);
    OnceIsGenerator(c);
    RawIsEncoded(c);
    FirstIsDetected(cs, c);
    UkmIsOne();
    ServerKeyRecoversPremaster(SampleParams(cs), x, c, 1);
  }

  lemma TinyIsFirst()
    ensures First(TinyCurves(), TinyCurve())
  {
    TinyMembers(Generator(TinyCurve()));
  }
}
