/** The certificate walk: whatever fields precede and follow it, the public key info of a
    well-formed certificate is found (RFC 5280 section 4.1). */
module CertificateWalk {
  import opened Bytes
  import opened Der
  import opened KeyTransport
  import opened Login

  datatype Elem = Elem(tag: byte, content: Bytes)

  function Elements(es: seq<Elem>): Bytes {
    if es == [] then [] else DerTlv(es[0].tag, es[0].content) + Elements(es[1..])
  }

  /** The fields before the public key info: an optional explicit version and five more. */
  predicate IsHead(head: seq<Elem>) {
    |head| > 0 && |head| == (if head[0].tag == 0xA0 then 6 else 5)
  }

  /** The signed part of a certificate. */
  function Signed(head: seq<Elem>, spki: Bytes, after: Bytes): Bytes {
    Elements(head) + DerTlv(0x30, spki) + after
  }

  function EncodeCertificate(head: seq<Elem>, spki: Bytes, after: Bytes, signature: Bytes): Bytes {
    DerTlv(0x30, DerTlv(0x30, Signed(head, spki, after)) + signature)
  }

  predicate AllShort(es: seq<Elem>) {
    forall i :: 0 <= i < |es| ==> |es[i].content| < TWO_32
  }

  /** Skipping elements ends behind them. */
  lemma {:induction false} SkipElements(pre: Bytes, es: seq<Elem>, rest: Bytes)
    requires AllShort(es)
    ensures SkipMany(pre + Elements(es) + rest, |pre|, |es|) == Some(|pre + Elements(es)|)
    decreases |es|
  {
    hide DerPeek, DerTlv;
    var data := pre + Elements(es) + rest;
    if es == [] {
      assert pre + [] == pre;
    } else {
      var one, more := DerTlv(es[0].tag, es[0].content), Elements(es[1..]);
      assert data == pre + one + (more + rest);
      PeekEncoded(pre, es[0].tag, es[0].content, more + rest);
      assert data == (pre + one) + more + rest;
      assert (pre + one) + more == pre + (one + more);
      SkipElements(pre + one, es[1..], rest);
    }
  }

  lemma PartsAreShort(es: seq<Elem>, i: nat)
    requires i < |es|
    ensures |es[i].content| <= |Elements(es)|
  {
    hide DerLen;
    if i > 0 {
      PartsAreShort(es[1..], i - 1);
    }
  }

  lemma ContentShorter(tag: byte, content: Bytes)
    ensures |content| < |DerTlv(tag, content)|
  {
    hide DerLen;
  }

  lemma HeadTag(head: seq<Elem>, rest: Bytes)
    requires head != [] && |head[0].content| < TWO_32
    ensures DerPeek(Elements(head) + rest, 0).Some? && DerPeek(Elements(head) + rest, 0).value.tag == head[0].tag
  {
    hide DerPeek, DerTlv;
    var one, more := DerTlv(head[0].tag, head[0].content), Elements(head[1..]);
    assert [] + one + (more + rest) == Elements(head) + rest;
    PeekEncoded([], head[0].tag, head[0].content, more + rest);
  }

  /** The walk through the signed part stops at the public key info. */
  lemma SignedIsWalked(head: seq<Elem>, spki: Bytes, after: Bytes)
    requires IsHead(head) && AllShort(head) && |spki| < TWO_32
    ensures var tbs := Signed(head, spki, after);
            && DerPeek(tbs, 0).Some?
            && var n := if DerPeek(tbs, 0).value.tag == 0xA0 then 6 else 5;
            && SkipMany(tbs, 0, n).Some?
            && DerPeek(tbs, SkipMany(tbs, 0, n).value).Some?
            && DerPeek(tbs, SkipMany(tbs, 0, n).value).value.content == spki
  {
    hide DerPeek, DerTlv, Elements, SkipMany;
    var key := DerTlv(0x30, spki);
    ConcatAssoc(Elements(head), key, after);
    HeadTag(head, key + after);
    assert [] + Elements(head) + (key + after) == Elements(head) + (key + after);
    SkipElements([], head, key + after);
    assert [] + Elements(head) == Elements(head);
    PeekEncoded(Elements(head), 0x30, spki, after);
  }

  lemma SpkiIsFound(head: seq<Elem>, spki: Bytes, after: Bytes, signature: Bytes)
    requires IsHead(head) && |EncodeCertificate(head, spki, after, signature)| < TWO_32
    ensures SpkiOf(EncodeCertificate(head, spki, after, signature)) == Some(spki)
  {
    hide DerPeek, DerTlv, Elements, SkipMany, Element;
    var tbs := Signed(head, spki, after);
    var body := DerTlv(0x30, tbs) + signature;
    ContentShorter(0x30, body);
    ContentShorter(0x30, tbs);
    ContentShorter(0x30, spki);
    forall i | 0 <= i < |head| ensures |head[i].content| < TWO_32 {
      PartsAreShort(head, i);
    }
    OnlyElement(0x30, body);
    PeekEncoded([], 0x30, tbs, signature);
    assert [] + DerTlv(0x30, tbs) + signature == body;
    SignedIsWalked(head, spki, after);
  }

  /** The point and the algorithm identifier put into a certificate are extracted from it. */
  lemma CertificateIsRead(head: seq<Elem>, algorithm: Bytes, point: Bytes, after: Bytes, signature: Bytes)
    requires var spki := SpkiContent(DerTlv(0x30, algorithm), point);
             IsHead(head) && |EncodeCertificate(head, spki, after, signature)| < TWO_32
    requires |point| < 0x1000_0000
    ensures var cert := EncodeCertificate(head, SpkiContent(DerTlv(0x30, algorithm), point), after, signature);
            && ExtractPoint(cert) == Some(point)
            && ExtractAlgorithm(cert) == Some(DerTlv(0x30, algorithm))
  {
    hide DerPeek, DerTlv, Elements, SpkiOf, PointOfSpki;
    var alg := DerTlv(0x30, algorithm);
    var bits := DerTlv(0x03, [0x00] + DerTlv(0x04, point));
    var spki := SpkiContent(alg, point);
    SpkiIsFound(head, spki, after, signature);
    ContentShorter(0x30, algorithm);
    SpkiShorter(head, spki, after, signature);
    PeekEncoded([], 0x30, algorithm, []);
    assert [] + alg + [] == alg && [] + alg == alg;
    PointOfSpkiContent(alg, point);
    PeekEncoded([], 0x30, algorithm, bits);
    assert [] + alg + bits == spki;
    assert spki[..|alg|] == alg;
  }

  lemma SpkiShorter(head: seq<Elem>, spki: Bytes, after: Bytes, signature: Bytes)
    ensures |spki| < |EncodeCertificate(head, spki, after, signature)|
  {
    hide DerTlv, Elements;
    var tbs := Signed(head, spki, after);
    ContentShorter(0x30, spki);
    ContentShorter(0x30, tbs);
    ContentShorter(0x30, DerTlv(0x30, tbs) + signature);
  }
}
