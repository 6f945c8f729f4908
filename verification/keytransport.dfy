/** The key transport of the 0xFF85 suite: the client wraps the premaster under an ephemeral
    agreement and encodes it; a server that walks the blob recovers exactly that premaster
    (RFC 4490 section 4.2, RFC 9189 section 4.2.4.2). */
module KeyTransport {
  import opened Bytes
  import opened NumberTheory
  import opened EllipticCurve
  import opened ScalarMultiplication
  import opened Vko
  import opened KeyWrap
  import opened Der

  // ----- the three known curves -----

  predicate Usable(c: Curve) {
    c.p >= 2 && c.q > 0
  }

  function ParamSetB(): Curve {
    Curve(0xFFFFFFFFFFFFFFFFFFFFFFFFFFFFFFFFFFFFFFFFFFFFFFFFFFFFFFFFFFFFFD97,
          0xFFFFFFFFFFFFFFFFFFFFFFFFFFFFFFFFFFFFFFFFFFFFFFFFFFFFFFFFFFFFFD94,
          0xA6,
          0xFFFFFFFFFFFFFFFFFFFFFFFFFFFFFFFF6C611070995AD10045841B09B761B893,
          0x1,
          0x8D91E471E0989CDA27DF505A453F2B7635294F2DDF23E3B122ACC99C9E9F1E14)
  }

  function ParamSetC(): Curve {
    Curve(0x8000000000000000000000000000000000000000000000000000000000000C99,
          0x8000000000000000000000000000000000000000000000000000000000000C96,
          0x3E1AF419A269A5F866A7D3C25C3DF80AE979259373FF2B182F49D4CE7E1BBC8B,
          0x800000000000000000000000000000015F700CFFF1A624E5E497161BCC8A198F,
          0x1,
          0x3FA8124359F96680B83D1C3EB2C070E5C545C9858D03ECFB744BF8D717717EFC)
  }

  function ParamSetD(): Curve {
    Curve(0x9B9F605F5A858107AB1EC85E6B41C8AACF846E86789051D37998F7B9022D759B,
          0x9B9F605F5A858107AB1EC85E6B41C8AACF846E86789051D37998F7B9022D7598,
          0x805A,
          0x9B9F605F5A858107AB1EC85E6B41C8AA582CA3511EDDFB74F02F3A6598980BB9,
          0x0,
          0x41ECE55743711A8C3CBF3783CD08C0EE4D4DC440D4641A8F366E550DFDB3BB67)
  }

  type Curves = cs: seq<Curve> | forall i :: 0 <= i < |cs| ==> Usable(cs[i])

  /** The curves of the program. What follows holds for any list. */
  function KnownCurves(): Curves {
    [ParamSetB(), ParamSetC(), ParamSetD()]
  }

  /** Each known generator is a canonical point of its curve; the quotients are those of the curve equation by the prime. */
  lemma GeneratorsOnCurves()
    ensures Member(ParamSetB(), Generator(ParamSetB()))
    ensures Member(ParamSetC(), Generator(ParamSetC()))
    ensures Member(ParamSetD(), Generator(ParamSetD()))
  {
    var b, c, d := ParamSetB(), ParamSetC(), ParamSetD();
    hide IsOnCurve, Divides, FieldBytes;
    OnCurveByQuotient(b, 0x4e4a08ca06439461e237a691d9c082c69680198ebad1db9324637292b61e8bf3);
    OnCurveByQuotient(c, 0x1fa84eaa3ff8c4525c6a03460b8d4c4fc77ca3f6c81e4dac655bc71bd4d40d1e);
    OnCurveByQuotient(d, 0x1bed7318d372fdac33dcac905f931c366402e49759590ba723436ddaab60fe35);
  }

  lemma OnCurveByQuotient(c: Curve, k: nat)
    requires c.p > 0 && c.gy * c.gy == c.gx * c.gx * c.gx + c.a * c.gx + c.b + k * c.p
    ensures IsOnCurve(c, Generator(c))
  {
    hide IsOnCurve;
    OnCurveIsEquation(c, c.gx, c.gy);
    ModShift(0, k, c.p);
    assert Defect(c, c.gx, c.gy) == k * c.p;
  }

  /** On each known curve a coordinate takes 32 bytes. */
  lemma KnownFieldBytes()
    ensures FieldBytes(ParamSetB()) == FieldBytes(ParamSetC()) == FieldBytes(ParamSetD()) == 32
  {
    hide FieldBytes, Pow;
    PowBounds();
    BytesBetween(ParamSetB());
    BytesBetween(ParamSetC());
    BytesBetween(ParamSetD());
  }

  lemma PowBounds()
    ensures Pow(0x100, 31) == 0x100_0000_0000_0000_0000_0000_0000_0000_0000_0000_0000_0000_0000_0000_0000_0000
    ensures Pow(0x100, 32) == 0x1_0000_0000_0000_0000_0000_0000_0000_0000_0000_0000_0000_0000_0000_0000_0000_0000
  {
    hide Pow;
    Pow256Values();
    PowAdd(0x100, 8, 8);
    PowAdd(0x100, 16, 8);
    PowAdd(0x100, 24, 4);
    PowAdd(0x100, 28, 3);
    PowAdd(0x100, 16, 16);
  }

  lemma BytesBetween(c: Curve)
    requires Pow(0x100, 31) <= c.p < Pow(0x100, 32) && c.p > 0
    ensures FieldBytes(c) == 32
  {
    hide FieldBytes, Pow;
    var n := FieldBytes(c);
    FieldBytesLeast(c);
    if n < 32 {
      PowGrows(n, 31);
    } else if n > 32 {
      PowGrows(32, n - 1);
    }
  }

  lemma PowGrows(m: nat, n: nat)
    requires m <= n
    ensures Pow(0x100, m) <= Pow(0x100, n)
  {
    hide Pow;
    PowAdd(0x100, m, n - m);
    PowPositive(0x100, n - m);
    PowPositive(0x100, m);
    MulMonotone(1, Pow(0x100, n - m), Pow(0x100, m));
  }

  /** The first of the curves on which the raw point lies, with the point. */
  function DetectCurve(curves: Curves, raw: Bytes): (r: Option<(Curve, Point)>)
    ensures r.Some? ==> Usable(r.value.0) && DecodePointLe(r.value.0, raw) == Some(r.value.1)
  {
    if curves == [] then None
    else
      assert Usable(curves[0]);
      match DecodePointLe(curves[0], raw)
      case Some(pt) => Some((curves[0], pt))
      case None => DetectCurve(curves[1..], raw)
  }

  /** No curve is detected exactly when the point lies on none; otherwise it is the first on which the point lies. */
  lemma {:induction false} DetectFirst(curves: Curves, raw: Bytes)
    ensures DetectCurve(curves, raw) == None <==> forall i :: 0 <= i < |curves| ==> DecodePointLe(curves[i], raw) == None
    ensures DetectCurve(curves, raw).Some? ==>
              exists i :: 0 <= i < |curves| && curves[i] == DetectCurve(curves, raw).value.0
                          && forall j :: 0 <= j < i ==> DecodePointLe(curves[j], raw) == None
  {
    hide DecodePointLe;
    if curves != [] {
      DetectFirst(curves[1..], raw);
      if DecodePointLe(curves[0], raw) == None && DetectCurve(curves, raw).Some? {
        var i :| 0 <= i < |curves[1..]| && curves[1..][i] == DetectCurve(curves[1..], raw).value.0
                 && forall j :: 0 <= j < i ==> DecodePointLe(curves[1..][j], raw) == None;
        forall j | 0 <= j < i + 1 ensures DecodePointLe(curves[j], raw) == None {
          assert j > 0 ==> curves[j] == curves[1..][j - 1];
        }
        assert curves[i + 1] == DetectCurve(curves, raw).value.0;
      }
    }
  }

  method DetectCurveAndPoint(curves: Curves, raw: Bytes) returns (r: Option<(Curve, Point)>)
    ensures r == DetectCurve(curves, raw)
  {
    hide DecodePointLe;
    for i := 0 to |curves|
      invariant DetectCurve(curves, raw) == DetectCurve(curves[i..], raw)
    {
      var pt := DecodePointLe(curves[i], raw);
      if pt.Some? {
        return Some((curves[i], pt.value));
      }
    }
    r := None;
  }

  // ----- client -----

  /** First eight bytes of the hash of both randoms. */
  function DeriveSharedUkm(h: Hash, clientRandom: Key, serverRandom: Key): Block {
    h(clientRandom + serverRandom)[..8]
  }

  datatype PreparedKey = PreparedKey(kek: Key, spki: Bytes)

  datatype TransportError = UnknownCurve | EphemeralAtInfinity

  datatype TransportResult = Ready(t: PreparedKey) | Failed(e: TransportError)

  /** Algorithm identifier, then the point in an OCTET STRING in a BIT STRING without unused bits. */
  function SpkiContent(algorithm: Bytes, point: Bytes): Bytes {
    algorithm + DerTlv(0x03, [0x00] + DerTlv(0x04, point))
  }

  /** The agreement does not end at infinity; the program stops otherwise. */
  predicate AgreementIsFinite(curves: Curves, serverPoint: Bytes, ukm: Bytes, entropy: Bytes) {
    var d := DetectCurve(curves, serverPoint);
    d.Some? ==>
      VkoPoint(d.value.0, EphemeralKeypair(d.value.0, entropy).private, d.value.1, ukm) != Infinity
  }

  function SoftwareKeyTransport(h: Hash, curves: Curves, serverPoint: Bytes, algorithm: Bytes, ukm: Bytes, entropy: Bytes): TransportResult
    requires AgreementIsFinite(curves, serverPoint, ukm, entropy)
  {
    match DetectCurve(curves, serverPoint)
    case None => Failed(UnknownCurve)
    case Some((c, pt)) =>
      var e := EphemeralKeypair(c, entropy);
      var kek := Vko256(h, c, e.private, pt, ukm);
      match EncodePointLe(c, e.public)
      case None => Failed(EphemeralAtInfinity)
      case Some(q) => Ready(PreparedKey(kek, SpkiContent(algorithm, q)))
  }

  const PARAM_Z_OID: seq<nat> := [1, 2, 643, 7, 1, 2, 5, 1, 1]

  function EncodeTransportParameters(oid: seq<nat>, ukm: Block, spki: Option<Bytes>): Bytes
    requires |oid| >= 2
  {
    var key := match spki case Some(s) => DerTlv(0xA0, s) case None => [];
    DerTlv(0xA0, DerOid(oid) + key + DerOctetString(ukm))
  }

  function EncodeSessionKey(w: WrappedKey): Bytes {
    DerSequence(DerOctetString(w.cekEnc) + DerOctetString(w.cekMac))
  }

  function EncodeKeyTransport(w: WrappedKey, oid: seq<nat>, spki: Option<Bytes>): Bytes
    requires |oid| >= 2
  {
    DerSequence(EncodeSessionKey(w) + EncodeTransportParameters(oid, w.ukm, spki))
  }

  function BuildClientKeyExchange(h: Hash, kek: Key, clientRandom: Key, serverRandom: Key, premaster: Key,
                                  spki: Option<Bytes>): Bytes {
    var w := Wrap(kek, DeriveSharedUkm(h, clientRandom, serverRandom), premaster);
    DerSequence(EncodeKeyTransport(w, PARAM_Z_OID, spki))
  }

  lemma ArcBytes()
    ensures OidArc(643) == [0x85, 0x03]
  {
    assert OidArcHigh(5) == [0x85];
  }

  lemma {:induction false} SmallArcs(arcs: seq<nat>)
    requires forall i :: 0 <= i < |arcs| ==> arcs[i] < 0x80
    ensures OidArcs(arcs) == arcs
  {
    if arcs != [] {
      SmallArcs(arcs[1..]);
      assert OidArc(arcs[0]) == [arcs[0]];
      assert arcs == [arcs[0]] + arcs[1..];
    }
  }

  lemma FirstArc(arcs: seq<nat>)
    requires arcs != []
    ensures OidArcs(arcs) == OidArc(arcs[0]) + OidArcs(arcs[1..])
  {
  }

  lemma ShortLength(content: Bytes)
    requires |content| < 0x80
    ensures DerLen(|content|) == [|content|]
  {
  }

  /** The identifier 1.2.643.7.1.2.5.1.1 in DER. */
  lemma ParamZBytes()
    ensures DerOid(PARAM_Z_OID) == [0x06, 0x09, 0x2A, 0x85, 0x03, 0x07, 0x01, 0x02, 0x05, 0x01, 0x01]
  {
    hide DerLen, OidArcs, OidArc;
    var rest := PARAM_Z_OID[2..];
    assert rest == [643, 7, 1, 2, 5, 1, 1] && rest[1..] == [7, 1, 2, 5, 1, 1];
    FirstArc(rest);
    ArcBytes();
    SmallArcs(rest[1..]);
    var content: Bytes := [0x2A, 0x85, 0x03, 0x07, 0x01, 0x02, 0x05, 0x01, 0x01];
    assert [(PARAM_Z_OID[0] * 40 + PARAM_Z_OID[1]) % 0x100] + OidArcs(rest) == content;
    ShortLength(content);
  }

  /** The session key by bytes: 32 enciphered bytes and 4 of code. */
  lemma SessionKeyBytes(w: WrappedKey)
    ensures EncodeSessionKey(w) == [0x30, 0x28] + ([0x04, 0x20] + w.cekEnc + ([0x04, 0x04] + w.cekMac))
  {
    hide DerLen;
    ShortLength(w.cekEnc);
    ShortLength(w.cekMac);
    var content := [0x04, 0x20] + w.cekEnc + ([0x04, 0x04] + w.cekMac);
    assert DerOctetString(w.cekEnc) + DerOctetString(w.cekMac) == content;
    ShortLength(content);
  }

  /** The parameters by bytes: the identifier, the ephemeral key if there is one, the eight bytes of the ukm. */
  function ParameterBytes(ukm: Block, spki: Option<Bytes>): Bytes {
    [0x06, 0x09, 0x2A, 0x85, 0x03, 0x07, 0x01, 0x02, 0x05, 0x01, 0x01]
    + (match spki case None => [] case Some(s) => [0xA0] + DerLen(|s|) + s)
    + ([0x04, 0x08] + ukm)
  }

  lemma ParametersAre(ukm: Block, spki: Option<Bytes>)
    ensures var p := ParameterBytes(ukm, spki);
            EncodeTransportParameters(PARAM_Z_OID, ukm, spki) == [0xA0] + DerLen(|p|) + p
  {
    hide DerLen, DerOid;
    ParamZBytes();
    ShortLength(ukm);
  }

  /** The bytes of a key exchange: two sequences around session key and parameters. The premaster is wrapped with the first
      eight bytes of the hash of the client's random followed by the server's, and the same bytes end the parameters. */
  lemma KeyExchangeLayout(h: Hash, kek: Key, clientRandom: Key, serverRandom: Key, premaster: Key, spki: Option<Bytes>)
    ensures var ukm: Block := h(clientRandom + serverRandom)[..8];
            var w, p := Wrap(kek, ukm, premaster), ParameterBytes(ukm, spki);
            var transport := [0x30, 0x28] + ([0x04, 0x20] + w.cekEnc + ([0x04, 0x04] + w.cekMac))
                             + ([0xA0] + DerLen(|p|) + p);
            var blob := [0x30] + DerLen(|transport|) + transport;
            BuildClientKeyExchange(h, kek, clientRandom, serverRandom, premaster, spki) == [0x30] + DerLen(|blob|) + blob
  {
    hide Wrap, DerOid, DerLen, EncodeSessionKey, EncodeTransportParameters, ParameterBytes;
    var ukm: Block := h(clientRandom + serverRandom)[..8];
    WrapKeepsUkm(kek, ukm, premaster);
    SessionKeyBytes(Wrap(kek, ukm, premaster));
    ParametersAre(ukm, spki);
  }

  method WriteSessionKey(w: WrappedKey) returns (out: Bytes)
    ensures out == EncodeSessionKey(w)
  {
    hide DerTlv;
    var content := EncodeElement(0x04, w.cekEnc);
    content := EncodeTlv(0x04, w.cekMac, content);
    out := EncodeElement(0x30, content);
  }

  method WriteTransportParameters(oid: seq<nat>, ukm: Block, spki: Option<Bytes>) returns (out: Bytes)
    requires |oid| >= 2
    ensures out == EncodeTransportParameters(oid, ukm, spki)
  {
    hide DerTlv, DerOid;
    var content := EncodeOid(oid);
    if spki.Some? {
      content := EncodeTlv(0xA0, spki.value, content);
    }
    content := EncodeTlv(0x04, ukm, content);
    assert spki.None? ==> DerOid(oid) + [] == DerOid(oid);
    out := EncodeElement(0xA0, content);
  }

  method WriteKeyTransport(w: WrappedKey, oid: seq<nat>, spki: Option<Bytes>) returns (out: Bytes)
    requires |oid| >= 2
    ensures out == EncodeKeyTransport(w, oid, spki)
  {
    hide DerTlv, EncodeSessionKey, EncodeTransportParameters;
    var session := WriteSessionKey(w);
    var params := WriteTransportParameters(oid, w.ukm, spki);
    out := EncodeElement(0x30, session + params);
  }

  method WriteClientKeyExchange(h: Hash, kek: Key, clientRandom: Key, serverRandom: Key, premaster: Key, spki: Option<Bytes>)
    returns (out: Bytes)
    ensures out == BuildClientKeyExchange(h, kek, clientRandom, serverRandom, premaster, spki)
  {
    hide DerTlv, EncodeKeyTransport, Wrap;
    var w := GostKeyWrap(kek, DeriveSharedUkm(h, clientRandom, serverRandom), premaster);
    var blob := WriteKeyTransport(w, PARAM_Z_OID, spki);
    out := EncodeElement(0x30, blob);
  }

  method PrepareKeyTransport(h: Hash, curves: Curves, serverPoint: Bytes, algorithm: Bytes, ukm: Bytes, entropy: Bytes)
    returns (r: TransportResult)
    requires AgreementIsFinite(curves, serverPoint, ukm, entropy)
    ensures r == SoftwareKeyTransport(h, curves, serverPoint, algorithm, ukm, entropy)
  {
    hide DetectCurve, DecodePointLe, EncodePointLe, DerTlv, Vko256, EphemeralKeypair, VkoPoint;
    var found := DetectCurveAndPoint(curves, serverPoint);
    if found == None {
      return Failed(UnknownCurve);
    }
    var (c, pt) := found.value;
    var e := EphemeralKeypair(c, entropy);
    var kek := Vko256(h, c, e.private, pt, ukm);
    var q := EncodePointLe(c, e.public);
    if q == None {
      return Failed(EphemeralAtInfinity);
    }
    var octets := EncodeElement(0x04, q.value);
    var spki := EncodeTlv(0x03, [0x00] + octets, algorithm);
    r := Ready(PreparedKey(kek, spki));
  }

  // ----- walking the blob -----

  function Element(data: Bytes, pos: nat, tag: byte): Option<Tlv> {
    match DerPeek(data, pos)
    case None => None
    case Some(t) => if t.tag == tag then Some(t) else None
  }

  /** The raw point inside the content of a subject public key info. */
  function PointOfSpki(spki: Bytes): Option<Bytes> {
    match DerSkip(spki, 0)
    case None => None
    case Some(afterAlgorithm) =>
      match Element(spki, afterAlgorithm, 0x03)
      case None => None
      case Some(bits) =>
        if bits.content == [] || bits.content[0] != 0 then None
        else
          match Element(bits.content[1..], 0, 0x04)
          case None => None
          case Some(octets) => Some(octets.content)
  }

  datatype Blob = Blob(cekEnc: Bytes, cekMac: Bytes, oid: Bytes, spki: Bytes, ukm: Bytes)

  function Contents(data: Bytes, tag: byte): Option<Bytes> {
    match Element(data, 0, tag)
    case None => None
    case Some(t) => Some(t.content)
  }

  function WalkSession(data: Bytes): Option<(Bytes, Bytes)> {
    match Element(data, 0, 0x04)
    case None => None
    case Some(enc) =>
      match Element(data, enc.next, 0x04)
      case None => None
      case Some(mac) => Some((enc.content, mac.content))
  }

  function WalkParameters(data: Bytes): Option<(Bytes, Bytes, Bytes)> {
    match Element(data, 0, 0x06)
    case None => None
    case Some(oid) =>
      match Element(data, oid.next, 0xA0)
      case None => None
      case Some(spki) =>
        match Element(data, spki.next, 0x04)
        case None => None
        case Some(ukm) => Some((oid.content, spki.content, ukm.content))
  }

  function WalkBody(body: Bytes): Option<Blob> {
    match Element(body, 0, 0x30)
    case None => None
    case Some(session) =>
      match Element(body, session.next, 0xA0)
      case None => None
      case Some(params) =>
        match (WalkSession(session.content), WalkParameters(params.content))
        case (Some((enc, mac)), Some((oid, spki, ukm))) => Some(Blob(enc, mac, oid, spki, ukm))
        case _ => None
  }

  /** The fields of a blob with an ephemeral key, read element by element. */
  function WalkBlob(blob: Bytes): Option<Blob> {
    match Contents(blob, 0x30)
    case None => None
    case Some(outer) =>
      match Contents(outer, 0x30)
      case None => None
      case Some(body) => WalkBody(body)
  }

  /** A server with private key `d`: walk, decode the ephemeral point, agree, unwrap. */
  function ServerRecovers(h: Hash, c: Curve, d: nat, blob: Bytes): Option<Key>
    requires Usable(c)
  {
    match WalkBlob(blob)
    case None => None
    case Some(b) =>
      if |b.cekEnc| != 32 || |b.cekMac| != 4 || |b.ukm| != 8 then None
      else
        match PointOfSpki(b.spki)
        case None => None
        case Some(raw) =>
          match DecodePointLe(c, raw)
          case None => None
          case Some(q) =>
            if VkoPoint(c, d, q, b.ukm) == Infinity then None
            else
              match Unwrap(Vko256(h, c, d, q, b.ukm), WrappedKey(b.ukm, b.cekEnc, b.cekMac))
              case Ok(k) => Some(k)
              case Err(_) => None
  }

  // ----- the walk undoes the encoding -----

  /** An element in the middle of longer data. */
  lemma ElementEncoded(pre: Bytes, tag: byte, content: Bytes, post: Bytes)
    requires |content| < TWO_32
    ensures Element(pre + DerTlv(tag, content) + post, |pre|, tag)
         == Some(Tlv(tag, content, |pre + DerTlv(tag, content)|))
  {
    hide DerTlv, DerPeek;
    PeekEncoded(pre, tag, content, post);
  }

  lemma FirstElement(tag: byte, content: Bytes, post: Bytes)
    requires |content| < TWO_32
    ensures Element(DerTlv(tag, content) + post, 0, tag) == Some(Tlv(tag, content, |DerTlv(tag, content)|))
  {
    hide DerTlv, DerPeek, Element;
    ElementEncoded([], tag, content, post);
    assert [] + DerTlv(tag, content) + post == DerTlv(tag, content) + post;
    assert [] + DerTlv(tag, content) == DerTlv(tag, content);
  }

  lemma OnlyElement(tag: byte, content: Bytes)
    requires |content| < TWO_32
    ensures Contents(DerTlv(tag, content), tag) == Some(content)
  {
    hide DerTlv, DerPeek, Element;
    FirstElement(tag, content, []);
    assert DerTlv(tag, content) + [] == DerTlv(tag, content);
  }

  lemma LastElement(pre: Bytes, tag: byte, content: Bytes)
    requires |content| < TWO_32
    ensures Element(pre + DerTlv(tag, content), |pre|, tag)
         == Some(Tlv(tag, content, |pre + DerTlv(tag, content)|))
  {
    hide DerTlv, DerPeek, Element;
    ElementEncoded(pre, tag, content, []);
    assert pre + DerTlv(tag, content) + [] == pre + DerTlv(tag, content);
  }

  lemma TlvLonger(tag: byte, content: Bytes)
    ensures |DerTlv(tag, content)| > |content|
  {
  }

  /** The content bytes of the param-Z identifier. */
  function OidContent(oid: seq<nat>): Bytes
    requires |oid| >= 2
  {
    [(oid[0] * 40 + oid[1]) % 0x100] + OidArcs(oid[2..])
  }

  lemma WalkSessionEncoded(enc: Bytes, mac: Bytes)
    requires |enc| < TWO_32 && |mac| < TWO_32
    ensures WalkSession(DerTlv(0x04, enc) + DerTlv(0x04, mac)) == Some((enc, mac))
  {
    hide DerTlv, DerPeek, Element;
    FirstElement(0x04, enc, DerTlv(0x04, mac));
    LastElement(DerTlv(0x04, enc), 0x04, mac);
  }

  lemma WalkParametersEncoded(oid: Bytes, spki: Bytes, ukm: Bytes)
    requires |oid| < TWO_32 && |spki| < TWO_32 && |ukm| < TWO_32
    ensures WalkParameters(DerTlv(0x06, oid) + DerTlv(0xA0, spki) + DerTlv(0x04, ukm)) == Some((oid, spki, ukm))
  {
    hide DerTlv, DerPeek, Element;
    var o, k, u := DerTlv(0x06, oid), DerTlv(0xA0, spki), DerTlv(0x04, ukm);
    ConcatAssoc(o, k, u);
    FirstElement(0x06, oid, k + u);
    ElementEncoded(o, 0xA0, spki, u);
    LastElement(o + k, 0x04, ukm);
  }

  /** Walking any encoded blob below 4 GiB gives back its five fields. */
  lemma WalkEncoded(w: WrappedKey, oid: seq<nat>, spki: Bytes)
    requires |oid| >= 2 && |DerSequence(EncodeKeyTransport(w, oid, Some(spki)))| < TWO_32
    ensures WalkBlob(DerSequence(EncodeKeyTransport(w, oid, Some(spki))))
         == Some(Blob(w.cekEnc, w.cekMac, OidContent(oid), spki, w.ukm))
  {
    hide DerTlv, DerPeek, Element, OidContent, DerOid, Contents, WalkSession, WalkParameters;
    var session := DerTlv(0x04, w.cekEnc) + DerTlv(0x04, w.cekMac);
    var params := DerTlv(0x06, OidContent(oid)) + DerTlv(0xA0, spki) + DerTlv(0x04, w.ukm);
    var s, t := DerTlv(0x30, session), DerTlv(0xA0, params);
    DerOidContent(oid);
    assert EncodeKeyTransport(w, oid, Some(spki)) == DerTlv(0x30, s + t);
    TlvLonger(0x30, DerTlv(0x30, s + t));
    TlvLonger(0x30, s + t);
    TlvLonger(0xA0, params);
    TlvLonger(0x30, session);
    TlvLonger(0x06, OidContent(oid));
    TlvLonger(0xA0, spki);
    OnlyElement(0x30, DerTlv(0x30, s + t));
    OnlyElement(0x30, s + t);
    FirstElement(0x30, session, t);
    LastElement(s, 0xA0, params);
    WalkSessionEncoded(w.cekEnc, w.cekMac);
    WalkParametersEncoded(OidContent(oid), spki, w.ukm);
  }

  lemma DerOidContent(oid: seq<nat>)
    requires |oid| >= 2
    ensures DerOid(oid) == DerTlv(0x06, OidContent(oid))
  {
    hide DerTlv;
  }

  /** The point put into a public key info behind any well-formed algorithm identifier is read back. */
  lemma PointOfSpkiContent(algorithm: Bytes, point: Bytes)
    requires DerSkip(algorithm, 0) == Some(|algorithm|) && |point| < 0x1000_0000
    ensures PointOfSpki(SpkiContent(algorithm, point)) == Some(point)
  {
    hide DerTlv, DerPeek, Element;
    var octets := DerTlv(0x04, point);
    var content := [0x00] + octets;
    var bits := DerTlv(0x03, content);
    TlvBound(0x04, point);
    var t := DerPeek(algorithm, 0).value;
    PeekIsLocal(algorithm, bits, t);
    assert algorithm[..|algorithm|] + bits == SpkiContent(algorithm, point);
    LastElement(algorithm, 0x03, content);
    assert content[1..] == octets;
    OnlyElement(0x04, point);
  }

  lemma TlvBound(tag: byte, content: Bytes)
    requires |content| < 0x1000_0000
    ensures |DerTlv(tag, content)| <= |content| + 6
  {
    Pow256Values();
    MinimalBeLength(|content|, 4);
  }

  // ----- end to end -----

  /** The shared secret of the client's ephemeral key and the server's key, on both sides. */
  lemma BothSidesAgree(h: Hash, c: Curve, d: nat, e: nat, ukm: Bytes)
    requires Domain(c) && Associative(c) && VkoPoint(c, e, PublicPoint(c, d), ukm) != Infinity
    ensures VkoPoint(c, d, PublicPoint(c, e), ukm) != Infinity
    ensures Vko256(h, c, d, PublicPoint(c, e), ukm) == Vko256(h, c, e, PublicPoint(c, d), ukm)
  {
    hide Domain, Associative, VkoPoint, PublicPoint, EncodePointLe;
    VkoSymmetric(c, e, d, ukm);
  }

  /** Whatever the client sends, the server with the matching private key recovers the premaster. */
  lemma ServerRecoversPremaster(h: Hash, curves: Curves, c: Curve, d: nat, algorithm: Bytes, entropy: Bytes,
                                clientRandom: Key, serverRandom: Key, premaster: Key)
    requires Domain(c) && Associative(c) && Prime(c.q)
    requires PublicPoint(c, d) != Infinity && FieldBytes(c) < 0x800_0000
    requires var raw := EncodePointLe(c, PublicPoint(c, d)).value;
             var ukm := DeriveSharedUkm(h, clientRandom, serverRandom);
             && DetectCurve(curves, raw) == Some((c, PublicPoint(c, d)))
             && LeNat(ukm) % c.q != 0
    requires DerSkip(algorithm, 0) == Some(|algorithm|)
    ensures var raw := EncodePointLe(c, PublicPoint(c, d)).value;
            var ukm := DeriveSharedUkm(h, clientRandom, serverRandom);
            && AgreementIsFinite(curves, raw, ukm, entropy)
            && var r := SoftwareKeyTransport(h, curves, raw, algorithm, ukm, entropy);
            && r.Ready?
            && var blob := BuildClientKeyExchange(h, r.t.kek, clientRandom, serverRandom, premaster, Some(r.t.spki));
               |blob| < TWO_32 ==> ServerRecovers(h, c, d, blob) == Some(premaster)
  {
    hide Prime, Domain, Associative, DetectCurve, VkoPoint, PublicPoint, DeriveSharedUkm,
         DerSequence, EncodeKeyTransport, WalkBlob, PointOfSpki, SpkiContent, Wrap, Unwrap, Member, OidContent, Times;
    var raw := EncodePointLe(c, PublicPoint(c, d)).value;
    var ukm := DeriveSharedUkm(h, clientRandom, serverRandom);
    var eph := EphemeralKeypair(c, entropy);
    EphemeralIsUsable(c, entropy);
    ServerKeyNotZero(c, d);
    VkoFiniteExactly(c, eph.private, d, ukm);
    BothSidesAgree(h, c, d, eph.private, ukm);
    var r := SoftwareKeyTransport(h, curves, raw, algorithm, ukm, entropy);
    var q := EncodePointLe(c, eph.public).value;
    EncodedLength(c, eph.public);
    DecodeAfterEncode(c, eph.public);
    PointOfSpkiContent(algorithm, q);
    var w := Wrap(r.t.kek, ukm, premaster);
    UnwrapAfterWrap(r.t.kek, ukm, premaster);
    WrapKeepsUkm(r.t.kek, ukm, premaster);
    var blob := BuildClientKeyExchange(h, r.t.kek, clientRandom, serverRandom, premaster, Some(r.t.spki));
    if |blob| < TWO_32 {
      WalkEncoded(w, PARAM_Z_OID, r.t.spki);
    }
  }

  lemma WrapKeepsUkm(kek: Key, ukm: Block, cek: Key)
    ensures Wrap(kek, ukm, cek).ukm == ukm
  {
    hide Diversify;
  }

  lemma EncodedLength(c: Curve, pt: Point)
    requires pt != Infinity
    ensures |EncodePointLe(c, pt).value| == 2 * FieldBytes(c)
  {
    hide MinimalLe;
  }

  lemma ServerKeyNotZero(c: Curve, d: nat)
    requires Domain(c) && Associative(c) && Prime(c.q) && PublicPoint(c, d) != Infinity
    ensures d % c.q != 0
  {
    hide Member, Associative, Times, DoubleAndAdd, Prime;
    DoubleAndAddIsTimes(c, d, Generator(c));
    KilledExactlyByMultiples(c, c.q, d, Generator(c));
  }
}
