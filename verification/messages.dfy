/** Handshake message bodies as received: the bounds-checked cursor, the certificate list, the server's
    hello, and the typed decoding of a buffer of messages (RFC 5246 section 7.4). */
module HandshakeMessages {
  import opened Bytes
  import opened RecordProtection

  const CLIENT_HELLO: byte := 1
  const SERVER_HELLO: byte := 2
  const CERTIFICATE: byte := 11
  const SERVER_KEY_EXCHANGE: byte := 12
  const CERTIFICATE_REQUEST: byte := 13
  const SERVER_HELLO_DONE: byte := 14
  const CERTIFICATE_VERIFY: byte := 15
  const CLIENT_KEY_EXCHANGE: byte := 16
  const FINISHED: byte := 20

  // ----- the cursor -----

  /** The leading vector behind a `k`-byte length, and the rest. */
  function ReadVector(k: nat, data: Bytes): (r: Option<(Bytes, Bytes)>)
    ensures r.Some? ==> |data| == k + |r.value.0| + |r.value.1|
  {
    if |data| < k then None
    else
      var n := BeNat(data[..k]);
      if |data| < k + n then None else Some((data[k..k + n], data[k + n..]))
  }

  class Reader {
    const buf: Bytes
    var pos: nat

    predicate Valid()
      reads this
    {
      pos <= |buf|
    }

    constructor (data: Bytes)
      ensures Valid() && buf == data && pos == 0
      ensures buf[pos..] == data
    {
      buf := data;
      pos := 0;
    }

    function Remaining(): nat
      requires Valid()
      reads this
    {
      |buf| - pos
    }

    /** The next `n` bytes; too few leave the cursor where it is. */
    method Take(n: nat) returns (r: Option<Bytes>)
      requires Valid()
      modifies this
      ensures Valid()
      ensures if old(Remaining()) < n then r == None && pos == old(pos)
              else r == Some(buf[old(pos)..old(pos) + n]) && pos == old(pos) + n
      ensures r.Some? ==> r.value + buf[pos..] == old(buf[pos..])
    {
      if Remaining() < n {
        return None;
      }
      r := Some(buf[pos..pos + n]);
      pos := pos + n;
    }

    /** The next vector behind a length of one, two or three bytes. */
    method Vector(k: nat) returns (r: Option<Bytes>)
      requires Valid() && 1 <= k <= 3
      modifies this
      ensures Valid() && pos >= old(pos) && (r.Some? ==> pos > old(pos))
      ensures match ReadVector(k, old(buf[pos..]))
              case None => r == None
              case Some((v, rest)) => r == Some(v) && buf[pos..] == rest
    {
      ghost var start := pos;
      var len := Take(k);
      if len == None {
        return None;
      }
      assert buf[start..][..k] == len.value;
      var n := BeNat(len.value);
      r := Take(n);
      assert start + k + n <= |buf| ==> buf[start..][k..k + n] == buf[start + k..start + k + n];
    }
  }

  /** What stands behind its own length is read back; a length cut short yields a shorter vector. */
  lemma ReadVectorEncoded(k: nat, content: Bytes, rest: Bytes)
    ensures var r := ReadVector(k, Be(|content|, k) + content + rest);
            if |content| < Pow(0x100, k) then r == Some((content, rest))
            else r.Some? ==> |r.value.0| < |content|
  {
    hide Be, BeNat, Pow;
    var d := Be(|content|, k) + content + rest;
    assert d[..k] == Be(|content|, k);
    if |content| < Pow(0x100, k) {
      BeNatOfBe(|content|, k);
      assert d[k..k + |content|] == content && d[k + |content|..] == rest;
    } else {
      BeNatBound(Be(|content|, k));
    }
  }

  /** Conversely, whatever is read as a vector stands behind its length. */
  lemma ReadVectorIsEncoded(k: nat, data: Bytes)
    requires ReadVector(k, data).Some?
    ensures var r := ReadVector(k, data).value;
            data == Be(|r.0|, k) + r.0 + r.1 && |r.0| < Pow(0x100, k)
  {
    hide Be, BeNat, Pow;
    BeRoundTrip(data[..k]);
    BeNatBound(data[..k]);
    var n := BeNat(data[..k]);
    assert data == data[..k] + data[k..k + n] + data[k + n..];
  }

  // ----- the certificate chain -----

  /** Each certificate behind its 24-bit length. */
  function CertificateList(chain: seq<Bytes>): Bytes {
    if chain == [] then [] else Be(|chain[0]|, 3) + chain[0] + CertificateList(chain[1..])
  }

  function CertificateBody(chain: seq<Bytes>): Bytes {
    Be(|CertificateList(chain)|, 3) + CertificateList(chain)
  }

  /** The length of what precedes certificate `j`. */
  function Offset(chain: seq<Bytes>, j: nat): nat
    requires j <= |chain|
  {
    if j == 0 then 0 else 3 + |chain[0]| + Offset(chain[1..], j - 1)
  }

  /** Certificate `j` stands behind the low 24 bits of its length, after all certificates before it. */
  lemma {:induction false} CertificateAt(chain: seq<Bytes>, j: nat)
    requires j < |chain|
    ensures var list, at := CertificateList(chain), Offset(chain, j);
            && at + 3 + |chain[j]| <= |list|
            && BeNat(list[at..at + 3]) == |chain[j]| % 0x100_0000
            && list[at + 3..at + 3 + |chain[j]|] == chain[j]
    decreases j
  {
    hide Be, BeNat, Pow;
    var list, first, rest := CertificateList(chain), Be(|chain[0]|, 3) + chain[0], CertificateList(chain[1..]);
    assert list == first + rest;
    if j == 0 {
      Pow256Values();
      LowDigits(|chain[0]|, 3);
      assert list[0..3] == Be(|chain[0]|, 3);
    } else {
      CertificateAt(chain[1..], j - 1);
      var at, n := Offset(chain[1..], j - 1), |chain[j]|;
      InSecondPart(first, rest, at, at + 3);
      InSecondPart(first, rest, at + 3, at + 3 + n);
    }
  }

  lemma InSecondPart(first: Bytes, rest: Bytes, a: nat, b: nat)
    requires a <= b <= |rest|
    ensures (first + rest)[|first| + a..|first| + b] == rest[a..b]
  {
  }

  lemma CertificateBodyLayout(chain: seq<Bytes>)
    ensures var b := CertificateBody(chain);
            && b[3..] == CertificateList(chain) && BeNat(b[..3]) == |CertificateList(chain)| % 0x100_0000
            && |CertificateList(chain)| == Offset(chain, |chain|)
  {
    hide Be, BeNat, Pow, CertificateList;
    Pow256Values();
    LowDigits(|CertificateList(chain)|, 3);
    assert CertificateBody(chain)[..3] == Be(|CertificateList(chain)|, 3);
    ListLength(chain);
  }

  lemma {:induction false} ListLength(chain: seq<Bytes>)
    ensures |CertificateList(chain)| == Offset(chain, |chain|)
  {
    hide Be;
    if chain != [] {
      ListLength(chain[1..]);
    }
  }

  function ParseCertificateList(list: Bytes): Option<seq<Bytes>>
    decreases |list|
  {
    if list == [] then Some([])
    else
      match ReadVector(3, list)
      case None => None
      case Some((cert, rest)) =>
        match ParseCertificateList(rest)
        case None => None
        case Some(chain) => Some([cert] + chain)
  }

  /** All certificates of a Certificate message; bytes after the list are ignored. */
  function ParseCertificates(body: Bytes): Option<seq<Bytes>> {
    match ReadVector(3, body)
    case None => None
    case Some((list, _)) => ParseCertificateList(list)
  }

  /** The leaf only, as the login driver reads it. */
  function FirstCertificate(body: Bytes): Option<Bytes> {
    match ReadVector(3, body)
    case None => None
    case Some((list, _)) =>
      match ReadVector(3, list)
      case None => None
      case Some((cert, _)) => Some(cert)
  }

  method ParseCertificateMessage(body: Bytes) returns (r: Option<seq<Bytes>>)
    ensures r == ParseCertificates(body)
  {
    hide ReadVector;
    var outer := new Reader(body);
    var list := outer.Vector(3);
    if list == None {
      return None;
    }
    var inner := new Reader(list.value);
    var chain: seq<Bytes> := [];
    PrependedNone(ParseCertificateList(list.value));
    while inner.Remaining() > 0
      invariant inner.Valid() && inner.buf == list.value
      invariant ParseCertificates(body) == Prepended(chain, ParseCertificateList(inner.buf[inner.pos..]))
      decreases inner.Remaining()
    {
      var cert := inner.Vector(3);
      if cert == None {
        return None;
      }
      PrependedOne(chain, cert.value, ParseCertificateList(inner.buf[inner.pos..]));
      chain := chain + [cert.value];
    }
    assert inner.buf[inner.pos..] == [] && chain + [] == chain;
    r := Some(chain);
  }

  function Prepended<T>(done: seq<T>, more: Option<seq<T>>): Option<seq<T>> {
    if more.Some? then Some(done + more.value) else None
  }

  lemma PrependedNone<T>(more: Option<seq<T>>)
    ensures Prepended([], more) == more
  {
    assert more.Some? ==> [] + more.value == more.value;
  }

  lemma PrependedOne<T>(done: seq<T>, one: T, more: Option<seq<T>>)
    ensures Prepended(done + [one], more) == Prepended(done, Prepended([one], more))
  {
    assert more.Some? ==> done + [one] + more.value == done + ([one] + more.value);
  }

  lemma {:induction false} ParseEncodedList(chain: seq<Bytes>)
    requires |CertificateList(chain)| < 0x100_0000
    ensures ParseCertificateList(CertificateList(chain)) == Some(chain)
  {
    hide Be, ReadVector, Pow;
    if chain != [] {
      Pow256Values();
      ReadVectorEncoded(3, chain[0], CertificateList(chain[1..]));
      ParseEncodedList(chain[1..]);
      assert chain == [chain[0]] + chain[1..];
    }
  }

  /** A list that parses is the encoding of what it parses to. */
  lemma {:induction false} ParsedListIsEncoded(list: Bytes)
    requires ParseCertificateList(list).Some?
    ensures CertificateList(ParseCertificateList(list).value) == list
    decreases |list|
  {
    hide Be, ReadVector, Pow;
    if list != [] {
      ReadVectorIsEncoded(3, list);
      var r := ReadVector(3, list).value;
      ParsedListIsEncoded(r.1);
      assert ([r.0] + ParseCertificateList(r.1).value)[1..] == ParseCertificateList(r.1).value;
    }
  }

  /** The parser undoes the encoder exactly when the list fits its 24-bit length. */
  lemma CertificateRoundTripExactly(chain: seq<Bytes>)
    ensures ParseCertificates(CertificateBody(chain)) == Some(chain) <==> |CertificateList(chain)| < 0x100_0000
  {
    hide Be, ReadVector, Pow, CertificateList, ParseCertificateList;
    var list := CertificateList(chain);
    Pow256Values();
    ReadVectorEncoded(3, list, []);
    assert CertificateBody(chain) == Be(|list|, 3) + list + [];
    if |list| < 0x100_0000 {
      ParseEncodedList(chain);
    } else if ParseCertificates(CertificateBody(chain)) == Some(chain) {
      ParsedListIsEncoded(ReadVector(3, CertificateBody(chain)).value.0);
    }
  }

  /** The leaf is found exactly when it fits its own length and what the list's length leaves of the list. */
  lemma LeafIsFoundExactly(chain: seq<Bytes>)
    requires chain != []
    ensures FirstCertificate(CertificateBody(chain)) == Some(chain[0])
       <==> |chain[0]| < 0x100_0000 && 3 + |chain[0]| <= |CertificateList(chain)| % 0x100_0000
  {
    hide Be, BeNat, Pow;
    var list, leaf := CertificateList(chain), chain[0];
    var body, n := CertificateBody(chain), |list| % 0x100_0000;
    Pow256Values();
    LowDigits(|list|, 3);
    assert body[..3] == Be(|list|, 3) && body[3..] == list;
    assert body[3..3 + n] == list[..n];
    assert ReadVector(3, body) == Some((list[..n], body[3 + n..]));
    var rest := CertificateList(chain[1..]);
    assert list == Be(|leaf|, 3) + leaf + rest;
    if 3 + |leaf| <= n {
      assert list[..n] == Be(|leaf|, 3) + leaf + rest[..n - 3 - |leaf|];
      ReadVectorEncoded(3, leaf, rest[..n - 3 - |leaf|]);
    }
  }

  // ----- the server's hello -----

  datatype ServerHello = ServerHello(version: Version, random: Key, sessionId: Bytes, suite: u16, compression: byte,
                                     extensions: Bytes)

  /** Session id, suite, compression method and optional extensions. */
  function ParseHelloTail(version: Version, random: Key, data: Bytes): Option<ServerHello> {
    match ReadVector(1, data)
    case None => None
    case Some((sid, more)) =>
      if |more| < 3 then None
      else
        var suite := BeNat(more[..2]);
        BeNatBound(more[..2]);
        Pow256Values();
        var ext := more[3..];
        if |ext| < 2 then Some(ServerHello(version, random, sid, suite, more[2], []))
        else
          match ReadVector(2, ext)
          case None => None
          case Some((e, _)) => Some(ServerHello(version, random, sid, suite, more[2], e))
  }

  function ParseServerHello(body: Bytes): Option<ServerHello> {
    if |body| < 34 then None
    else ParseHelloTail(Version(body[0], body[1]), body[2..34], body[34..])
  }

  function Joined(high: nat, low: nat): nat { high * 0x100 + low }

  /** Where the fields of an accepted hello stand, and when a hello is accepted: all fixed fields are there behind the
      session id, and either no extensions length is complete or the extensions it announces are. */
  lemma HelloFields(body: Bytes)
    ensures var n := if |body| > 34 then body[34] else 0;
            if |body| < 38 + n then ParseServerHello(body) == None
            else
              var suite := Joined(body[35 + n], body[36 + n]);
              if |body| < 40 + n then
                ParseServerHello(body) == Some(ServerHello(Version(body[0], body[1]), body[2..34], body[35..35 + n],
                                                           suite, body[37 + n], []))
              else
                var k := Joined(body[38 + n], body[39 + n]);
                ParseServerHello(body) == if |body| < 40 + n + k then None
                                          else Some(ServerHello(Version(body[0], body[1]), body[2..34], body[35..35 + n],
                                                                suite, body[37 + n], body[40 + n..40 + n + k]))
  {
    hide BeNat, Pow;
    if |body| > 34 {
      var tail: Bytes := body[34..];
      var n: nat := body[34];
      OneByte(tail);
      if |body| >= 35 + n {
        assert tail[1..1 + n] == body[35..35 + n] && tail[1 + n..] == body[35 + n..];
        var more := body[35 + n..];
        if |more| >= 3 {
          TwoBytes(more);
          assert more[3..] == body[38 + n..];
          var ext := more[3..];
          if |ext| >= 2 {
            TwoBytes(ext);
            var k := BeNat(ext[..2]);
            assert |ext| >= 2 + k ==> ext[2..2 + k] == body[40 + n..40 + n + k];
          }
        }
      }
    }
  }

  lemma OneByte(s: Bytes)
    requires s != []
    ensures BeNat(s[..1]) == s[0]
  {
    assert s[..1][..0] == [];
  }

  lemma TwoBytes(s: Bytes)
    requires |s| >= 2
    ensures BeNat(s[..2]) == Joined(s[0], s[1])
  {
    OneByte(s);
    assert s[..2][..1] == s[..1];
  }

  method ParseServerHelloMessage(body: Bytes) returns (r: Option<ServerHello>)
    ensures r == ParseServerHello(body)
  {
    hide ReadVector, BeNat, Pow;
    var rd := new Reader(body);
    var version := rd.Take(2);
    if version == None {
      return None;
    }
    var random := rd.Take(32);
    if random == None {
      return None;
    }
    var sid := rd.Vector(1);
    if sid == None {
      return None;
    }
    ghost var more := rd.buf[rd.pos..];
    var suite := rd.Take(2);
    if suite == None {
      return None;
    }
    assert more[..2] == suite.value;
    var compression := rd.Take(1);
    if compression == None {
      return None;
    }
    assert more[2] == compression.value[0] && more[3..] == rd.buf[rd.pos..];
    BeNatBound(suite.value);
    Pow256Values();
    var hello := ServerHello(Version(version.value[0], version.value[1]), random.value, sid.value, BeNat(suite.value),
                             compression.value[0], []);
    if rd.Remaining() < 2 {
      return Some(hello);
    }
    var ext := rd.Vector(2);
    r := if ext == None then None else Some(hello.(extensions := ext.value));
  }

  /** The wire form (RFC 5246 section 7.4.1.3), with lengths cut to their fields. */
  function ServerHelloBody(h: ServerHello): Bytes {
    [h.version.major, h.version.minor] + h.random
    + (Be(|h.sessionId|, 1) + h.sessionId
       + (Be(h.suite, 2) + [h.compression] + if h.extensions == [] then [] else Be(|h.extensions|, 2) + h.extensions))
  }

  /** A hello is read back exactly when session id and extensions fit their lengths. */
  lemma ServerHelloRoundTripExactly(h: ServerHello)
    ensures ParseServerHello(ServerHelloBody(h)) == Some(h) <==> |h.sessionId| < 0x100 && |h.extensions| < 0x1_0000
  {
    hide Be, BeNat, ReadVector, Pow;
    var ext := if h.extensions == [] then [] else Be(|h.extensions|, 2) + h.extensions;
    var more := Be(h.suite, 2) + [h.compression] + ext;
    var tail := Be(|h.sessionId|, 1) + h.sessionId + more;
    var body := ServerHelloBody(h);
    assert body[2..34] == h.random && body[34..] == tail;
    Pow256Values();
    assert Pow(0x100, 1) == 0x100 by { PowOne(); }
    ReadVectorEncoded(1, h.sessionId, more);
    BeNatOfBe(h.suite, 2);
    assert more[..2] == Be(h.suite, 2) && more[2] == h.compression && more[3..] == ext;
    ReadVectorEncoded(2, h.extensions, []);
    assert h.extensions != [] ==> ext == Be(|h.extensions|, 2) + h.extensions + [];
  }

  lemma PowOne()
    ensures Pow(0x100, 1) == 0x100
  {
    assert Pow(0x100, 1) == 0x100 * Pow(0x100, 0);
  }

  // ----- typed messages -----

  datatype HandshakeMessage =
    | HelloMessage(hello: ServerHello)
    | CertificateMessage(chain: seq<Bytes>)
    | KeyExchangeMessage(body: Bytes)
    | RequestMessage(body: Bytes)
    | HelloDoneMessage
    | OtherMessage(kind: byte, body: Bytes)
    | UnknownMessage(kind: byte, body: Bytes)

  predicate IsKnown(kind: byte) {
    kind in {CLIENT_HELLO, SERVER_HELLO, CERTIFICATE, SERVER_KEY_EXCHANGE, CERTIFICATE_REQUEST, SERVER_HELLO_DONE,
             CERTIFICATE_VERIFY, CLIENT_KEY_EXCHANGE, FINISHED}
  }

  /** One message by its type; only hello and certificate bodies are parsed, and can fail to. */
  function DecodeBody(kind: byte, body: Bytes): Option<HandshakeMessage> {
    if !IsKnown(kind) then Some(UnknownMessage(kind, body))
    else if kind == SERVER_HELLO then
      match ParseServerHello(body)
      case None => None
      case Some(h) => Some(HelloMessage(h))
    else if kind == CERTIFICATE then
      match ParseCertificates(body)
      case None => None
      case Some(chain) => Some(CertificateMessage(chain))
    else if kind == SERVER_KEY_EXCHANGE then Some(KeyExchangeMessage(body))
    else if kind == CERTIFICATE_REQUEST then Some(RequestMessage(body))
    else if kind == SERVER_HELLO_DONE then Some(HelloDoneMessage)
    else Some(OtherMessage(kind, body))
  }

  /** A buffer of concatenated messages. */
  function DecodeAll(buf: Bytes): Option<seq<HandshakeMessage>>
    decreases |buf|
  {
    if buf == [] then Some([])
    else
      match ReadVector(3, buf[1..])
      case None => None
      case Some((body, rest)) =>
        match DecodeBody(buf[0], body)
        case None => None
        case Some(m) => Prepended([m], DecodeAll(rest))
  }

  method DecodeOne(kind: byte, body: Bytes) returns (r: Option<HandshakeMessage>)
    ensures r == DecodeBody(kind, body)
  {
    hide ParseServerHello, ParseCertificates;
    if !IsKnown(kind) {
      return Some(UnknownMessage(kind, body));
    }
    match kind {
      case 2 =>
        var h := ParseServerHelloMessage(body);
        r := if h == None then None else Some(HelloMessage(h.value));
      case 11 =>
        var chain := ParseCertificateMessage(body);
        r := if chain == None then None else Some(CertificateMessage(chain.value));
      case 12 => r := Some(KeyExchangeMessage(body));
      case 13 => r := Some(RequestMessage(body));
      case 14 => r := Some(HelloDoneMessage);
      case _ => r := Some(OtherMessage(kind, body));
    }
  }

  method DecodeHandshakeMessages(buf: Bytes) returns (r: Option<seq<HandshakeMessage>>)
    ensures r == DecodeAll(buf)
  {
    hide ReadVector, DecodeBody;
    var rd := new Reader(buf);
    var out: seq<HandshakeMessage> := [];
    PrependedNone(DecodeAll(buf));
    while rd.Remaining() > 0
      invariant rd.Valid() && rd.buf == buf
      invariant DecodeAll(buf) == Prepended(out, DecodeAll(buf[rd.pos..]))
      decreases rd.Remaining()
    {
      ghost var at := rd.pos;
      var kind := rd.Take(1);
      assert buf[at..][0] == kind.value[0] && buf[at..][1..] == buf[at + 1..];
      var body := rd.Vector(3);
      if body == None {
        return None;
      }
      var m := DecodeOne(kind.value[0], body.value);
      if m == None {
        return None;
      }
      PrependedOne(out, m.value, DecodeAll(buf[rd.pos..]));
      out := out + [m.value];
    }
    assert buf[rd.pos..] == [] && out + [] == out;
    r := Some(out);
  }
}
