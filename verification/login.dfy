/** The login driver: the whole client run as one function of the bytes received, and the
    method that performs it on a transport (RFC 5246 section 7.3). */
module Login {
  import opened Bytes
  import opened RecordProtection
  import opened EllipticCurve
  import opened Vko
  import opened Prf
  import opened Der
  import opened KeyTransport
  import opened HandshakeMessages
  import opened Tls
  import opened ClientSide

  datatype LoginError =
    | TransportFailed(recv: RecvError)
    | HandshakeFailed(handshake: HandshakeError)
    | Protocol
    | VkoFailed(transport: TransportError)
    | SignFailed

  datatype Result<+T> = Ok(value: T) | Err(error: LoginError)

  /** Everything a login depends on besides the peer; `entropy` feeds the ephemeral key, `sign` is the token. */
  datatype Params = Params(h: Hash, curves: Curves, serverName: Bytes, clientRandom: Key, premaster: Key, chain: seq<Bytes>,
                           suites: seq<u16>, entropy: Bytes, sign: Key -> Option<Bytes>)

  // ----- the first flight -----

  /** One server_name extension: three nested 16-bit lengths. */
  function SniExtension(host: Bytes): Bytes {
    var entry := [0] + Be(|host|, 2) + host;
    var list := Be(|entry|, 2) + entry;
    Be(0, 2) + Be(|list|, 2) + list
  }

  /** The host name read back out of a server_name extension. */
  function HostOfSni(ext: Bytes): Option<Bytes> {
    if |ext| < 9 || ext[..2] != Be(0, 2) || |ext| != 4 + BeNat(ext[2..4]) || |ext| != 6 + BeNat(ext[4..6])
       || ext[6] != 0 || |ext| != 9 + BeNat(ext[7..9]) then None
    else Some(ext[9..])
  }

  /** All three lengths are right exactly when the host fits them. */
  lemma SniRoundTripExactly(host: Bytes)
    ensures HostOfSni(SniExtension(host)) == Some(host) <==> |host| + 5 < 0x1_0000
  {
    hide Be, BeNat, Pow;
    var e := SniExtension(host);
    Pow256Values();
    LowBytes(|host|, 2);
    LowBytes(|host| + 3, 2);
    LowBytes(|host| + 5, 2);
    assert e[..2] == Be(0, 2) && e[2..4] == Be(|host| + 5, 2) && e[4..6] == Be(|host| + 3, 2);
    assert e[6] == 0 && e[7..9] == Be(|host|, 2) && e[9..] == host;
    BeNatBound(Be(|host| + 5, 2));
  }

  /** The extension of a short host in bytes: type 0, the three lengths, name type 0, the host. */
  lemma SniBytes(host: Bytes)
    requires |host| <= 250
    ensures SniExtension(host) == [0, 0, 0, |host| + 5, 0, |host| + 3, 0, 0, |host|] + host
  {
    hide Be;
    SmallBe(0);
    SmallBe(|host|);
    SmallBe(|host| + 3);
    SmallBe(|host| + 5);
  }

  lemma SmallBe(n: nat)
    requires n < 0x100
    ensures Be(n, 2) == [0, n]
  {
    assert Be(n / 0x100, 1) == Be(0, 0) + [0];
  }

  function HelloBody(p: Params): Bytes {
    BuildClientHello(TLS1_2, p.clientRandom, [], p.suites, SniExtension(p.serverName))
  }

  /** The client's first message in bytes: TLS 1.2, its random, no session to resume, its suites, the null compression
      method, and the server's name as the only extension. */
  lemma HelloBodyIs(p: Params)
    ensures var b, k, sni := HelloBody(p), 2 * |p.suites|, SniExtension(p.serverName);
            && |b| == 41 + k + |sni|
            && b[0] == b[1] == 3 && b[2..34] == p.clientRandom && b[34] == 0
            && BeNat(b[35..37]) == k % 0x1_0000 && b[37..37 + k] == Suites(p.suites)
            && b[37 + k] == 1 && b[38 + k] == 0
            && BeNat(b[39 + k..41 + k]) == |sni| % 0x1_0000 && b[41 + k..] == sni
  {
    hide BuildClientHello, Suites, BeNat, SniExtension;
    assert SniExtension(p.serverName) != [] by { SniLength(p.serverName); }
    ClientHelloLayout(TLS1_2, p.clientRandom, [], p.suites, SniExtension(p.serverName));
  }

  lemma SniLength(host: Bytes)
    ensures |SniExtension(host)| == |host| + 9
  {
  }

  /** A handshake message in a plaintext record of its own. */
  function HandshakeRecord(kind: byte, body: Bytes): Bytes {
    EncodeRecord(Record(Handshake, TLS1_2, Frame(Message(kind, body))))
  }

  /** A message alone in its record, byte by byte: record header, message header, body. What is behind the record header is
      what the transcript takes up; the client's hello is message type 1. */
  lemma HandshakeRecordIs(kind: byte, body: Bytes)
    ensures var r := HandshakeRecord(kind, body);
            && |r| == 9 + |body|
            && r[0] == 22 && r[1] == r[2] == 3 && BeNat(r[3..5]) == (4 + |body|) % 0x1_0000
            && r[5] == kind && BeNat(r[6..9]) == |body| % 0x100_0000 && r[9..] == body
            && r[5..] == Frame(Message(kind, body))
  {
    hide Frame, EncodeRecord, BeNat;
    var m := Message(kind, body);
    var f, r := Frame(m), HandshakeRecord(kind, body);
    FrameLayout(m);
    RecordLayout(Record(Handshake, TLS1_2, f));
    assert r[5] == f[0] && r[6..9] == f[1..4] && r[9..] == f[4..];
  }

  lemma FirstFlightIs(p: Params)
    ensures var r := FirstFlight(p);
            && |r| == 9 + |HelloBody(p)| && r[0] == 22 && r[5] == 1 && r[9..] == HelloBody(p)
            && StartState(TLS1_2, p.clientRandom, HelloBody(p)).transcript == r[5..]
  {
    hide HelloBody, HandshakeRecord, Frame;
    HandshakeRecordIs(CLIENT_HELLO, HelloBody(p));
  }

  // ----- the server flight -----

  /** The state while the server's messages come in; `log` records them. */
  datatype Flight = Flight(st: State, leaf: Option<Bytes>, buf: Bytes, wire: Bytes, log: seq<Message>)

  /** The effect of one message before ServerHelloDone, none if it is not acceptable. */
  function Accept(st: State, leaf: Option<Bytes>, m: Message): Option<(State, Option<Bytes>)> {
    if m.kind == SERVER_HELLO then
      if |m.body| < 34 then None else Some((ServerHelloRecorded(st, m.body[2..34], m.body), leaf))
    else if m.kind == CERTIFICATE then
      match FirstCertificate(m.body)
      case None => None
      case Some(c) => Some((st.Push(CERTIFICATE, m.body), Some(c)))
    else if m.kind == SERVER_KEY_EXCHANGE || m.kind == CERTIFICATE_REQUEST then
      Some((st.Push(m.kind, m.body), leaf))
    else None
  }

  /** Receive messages until ServerHelloDone. */
  function ReadFlight(f: Flight): Result<Flight>
    decreases |f.buf| + |f.wire|
  {
    var r := RecvMessage(f.buf, f.wire);
    match r.result
    case Fault(e) => Err(TransportFailed(e))
    case Got(m) =>
      var log := f.log + [m];
      if m.kind == SERVER_HELLO_DONE then
        Ok(Flight(f.st.Push(SERVER_HELLO_DONE, m.body), f.leaf, r.buf, r.wire, log))
      else
        match Accept(f.st, f.leaf, m)
        case None => Err(Protocol)
        case Some((st, leaf)) => ReadFlight(Flight(st, leaf, r.buf, r.wire, log))
  }

  // ----- the certificate -----

  function SkipMany(data: Bytes, pos: nat, n: nat): Option<nat>
    decreases n
  {
    if n == 0 then Some(pos)
    else
      match DerSkip(data, pos)
      case None => None
      case Some(next) => SkipMany(data, next, n - 1)
  }

  /** The content of the subject public key info: behind an optional version and five more fields. */
  function SpkiOf(cert: Bytes): Option<Bytes> {
    match Contents(cert, 0x30)
    case None => None
    case Some(body) =>
      match DerPeek(body, 0)
      case None => None
      case Some(tbs) =>
        match DerPeek(tbs.content, 0)
        case None => None
        case Some(first) =>
          match SkipMany(tbs.content, 0, if first.tag == 0xA0 then 6 else 5)
          case None => None
          case Some(pos) =>
            match DerPeek(tbs.content, pos)
            case None => None
            case Some(spki) => Some(spki.content)
  }

  function ExtractPoint(cert: Bytes): Option<Bytes> {
    match SpkiOf(cert)
    case None => None
    case Some(spki) => PointOfSpki(spki)
  }

  function ExtractAlgorithm(cert: Bytes): (r: Option<Bytes>) {
    match SpkiOf(cert)
    case None => None
    case Some(spki) =>
      match Element(spki, 0, 0x30)
      case None => None
      case Some(t) => if t.next <= |spki| then Some(spki[..t.next]) else None
  }

  /** What is extracted as the algorithm identifier is one complete element. */
  lemma AlgorithmIsElement(cert: Bytes)
    requires ExtractAlgorithm(cert).Some?
    ensures var a := ExtractAlgorithm(cert).value; DerSkip(a, 0) == Some(|a|)
  {
    hide SpkiOf, DerPeek;
    var spki := SpkiOf(cert).value;
    var t := DerPeek(spki, 0).value;
    PeekIsLocal(spki, [], t);
    assert spki[..t.next] + [] == spki[..t.next];
  }

  // ----- the second flight -----

  datatype Sent = Sent(st: State, bytes: Bytes)

  /** The digitally-signed structure with the legacy algorithm pair. */
  function CertificateVerifyBody(signature: Bytes): Bytes {
    [0xEE, 0xEE] + Be(|signature|, 2) + signature
  }

  /** The key transport derived from the server's leaf certificate. */
  predicate LeafAgreementIsFinite(p: Params, leaf: Bytes, serverRandom: Key) {
    ExtractPoint(leaf).Some? ==>
      AgreementIsFinite(p.curves, ExtractPoint(leaf).value, DeriveSharedUkm(p.h, p.clientRandom, serverRandom), p.entropy)
  }

  function LeafTransport(p: Params, leaf: Bytes, serverRandom: Key): Result<PreparedKey>
    requires LeafAgreementIsFinite(p, leaf, serverRandom)
  {
    match (ExtractPoint(leaf), ExtractAlgorithm(leaf))
    case (Some(point), Some(alg)) =>
      (match SoftwareKeyTransport(p.h, p.curves, point, alg, DeriveSharedUkm(p.h, p.clientRandom, serverRandom), p.entropy)
       case Failed(e) => Err(VkoFailed(e))
       case Ready(t) => Ok(t))
    case _ => Err(Protocol)
  }

  /** Certificate, ClientKeyExchange and CertificateVerify. */
  function ProveIdentity(p: Params, st: State, t: PreparedKey): Result<Sent> {
    var cert := CertificateBody(p.chain);
    var kx := KeyExchanged(p.h, st.Push(CERTIFICATE, cert), t.kek, p.premaster, Some(t.spki));
    match kx.1
    case Refused(e) => Err(HandshakeFailed(e))
    case Done(cke) =>
      match p.sign(p.h(kx.0.transcript))
      case None => Err(SignFailed)
      case Some(signature) =>
        var cv := CertificateVerifyBody(signature);
        Ok(Sent(kx.0.Push(CERTIFICATE_VERIFY, cv),
                HandshakeRecord(CERTIFICATE, cert) + HandshakeRecord(CLIENT_KEY_EXCHANGE, cke)
                + HandshakeRecord(CERTIFICATE_VERIFY, cv)))
  }

  /** What the second flight proves the identity with: the signature covers the transcript up to and including the key
      exchange, and the transcript grows by exactly the three messages that are sent. */
  lemma IdentityIs(p: Params, st: State, t: PreparedKey, serverRandom: Key)
    requires st.serverRandom == Some(serverRandom)
    ensures var cke := BuildClientKeyExchange(p.h, t.kek, st.clientRandom, serverRandom, p.premaster, Some(t.spki));
            var c, k := Frame(Message(11, CertificateBody(p.chain))), Frame(Message(16, cke));
            match p.sign(p.h(st.transcript + c + k))
            case None => ProveIdentity(p, st, t) == Err(SignFailed)
            case Some(signature) =>
              var v := Frame(Message(15, [0xEE, 0xEE] + Be(|signature|, 2) + signature));
              && ProveIdentity(p, st, t).Ok?
              && var s := ProveIdentity(p, st, t).value;
              && s.st.transcript == st.transcript + c + k + v
              && s.bytes == EncodeRecord(Record(Handshake, Version(3, 3), c)) + EncodeRecord(Record(Handshake, Version(3, 3), k))
                            + EncodeRecord(Record(Handshake, Version(3, 3), v))
              && s.st.master == Some(MasterSecret(p.h, p.premaster, st.clientRandom, serverRandom))
              && var key := DeriveKeys(p.h, s.st.master.value, st.clientRandom, serverRandom);
              && s.st.crypto == Some(Endpoint(Direction(key.clientMac, key.clientEnc, key.clientIv, [], 0, 0),
                                              Direction(key.serverMac, key.serverEnc, key.serverIv, [], 0, 0)))
  {
    hide BuildClientKeyExchange, CertificateBody, MasterSecret, DeriveKeys, Frame, EncodeRecord, Be;
  }

  /** ChangeCipherSpec and the protected Finished. */
  function FinishClient(h: Hash, st: State): Result<Sent> {
    var fin := FinishedByClient(h, st);
    match fin.1
    case Refused(e) => Err(HandshakeFailed(e))
    case Done(vd) =>
      match fin.0.crypto
      case None => Err(Protocol)
      case Some(ep) =>
        var r := Seal(ep.write, Handshake, TLS1_2, Frame(Message(FINISHED, vd)));
        Ok(Sent(fin.0.(crypto := Some(ep.(write := r.0))),
                ChangeCipherSpecRecord() + EncodeRecord(Record(Handshake, TLS1_2, r.1))))
  }

  /** The last two records of the client: the single byte 1, and the sealed Finished with the client's verify data over the
      transcript so far, which it then joins. */
  lemma FinishIs(h: Hash, st: State, ms: Master, ep: Endpoint)
    requires st.master == Some(ms) && st.crypto == Some(ep)
    ensures var vd := FinishedData(h, ms, Ascii("client finished"), st.transcript);
            var sealed := Seal(ep.write, Handshake, Version(3, 3), [20, 0, 0, 12] + vd);
            && FinishClient(h, st).Ok?
            && var s := FinishClient(h, st).value;
            && s.bytes == [20, 3, 3, 0, 1, 1] + EncodeRecord(Record(Handshake, Version(3, 3), sealed.1))
            && s.st.transcript == st.transcript + ([20, 0, 0, 12] + vd)
            && s.st.crypto == Some(Endpoint(sealed.0, ep.read))
  {
    hide FinishedData, Seal, Frame, EncodeRecord;
    var vd := FinishedData(h, ms, ClientLabel(), st.transcript);
    FinishedBytes(vd);
    SpecRecord();
  }

  lemma FinishedBytes(vd: VerifyData)
    ensures Frame(Message(FINISHED, vd)) == [20, 0, 0, 12] + vd
  {
    SmallBe(0);
    assert Be(12, 3) == Be(0, 2) + [12];
  }

  lemma SpecRecord()
    ensures ChangeCipherSpecRecord() == [20, 3, 3, 0, 1, 1]
  {
    hide Be;
    SmallBe(1);
  }

  function SecondFlight(p: Params, st: State, t: PreparedKey): Result<Sent> {
    match ProveIdentity(p, st, t)
    case Err(e) => Err(e)
    case Ok(s) =>
      match FinishClient(p.h, s.st)
      case Err(e) => Err(e)
      case Ok(f) => Ok(Sent(f.st, s.bytes + f.bytes))
  }

  function ChangeCipherSpecRecord(): Bytes { EncodeRecord(Record(ChangeCipherSpec, TLS1_2, [1])) }

  // ----- the server's Finished -----

  datatype Opening = Opening(st: State, wire: Bytes, plain: Bytes)

  function ReceiveFinishedSpec(st: State, wire: Bytes): Result<Opening> {
    match ReadRecord(wire)
    case None => Err(TransportFailed(NoRecord))
    case Some((ccs, wire1)) =>
      if ccs.ct != ChangeCipherSpec then Err(Protocol)
      else
        match ReadRecord(wire1)
        case None => Err(TransportFailed(NoRecord))
        case Some((fin, wire2)) =>
          if fin.ct != Handshake || st.crypto == None then Err(Protocol)
          else
            var ep := st.crypto.value;
            var o := Open(ep.read, Handshake, TLS1_2, fin.payload);
            if o.1.Opened? then Ok(Opening(st.(crypto := Some(ep.(read := o.0))), wire2, o.1.fragment))
            else Err(Protocol)
  }

  datatype Established = Established(st: State, wire: Bytes)

  /** The client's verdict on the opened Finished. */
  function Judge(h: Hash, o: Opening): Result<Established> {
    if |o.plain| < 16 || o.plain[0] != FINISHED then Err(Protocol)
    else
      match ServerFinishedVerdict(h, o.st, o.plain[4..16])
      case Refused(e) => Err(HandshakeFailed(e))
      case Done(_) => Ok(Established(o.st, o.wire))
  }

  function FinishLogin(h: Hash, st: State, wire: Bytes): Result<Established> {
    match ReceiveFinishedSpec(st, wire)
    case Err(e) => Err(e)
    case Ok(o) => Judge(h, o)
  }

  // ----- the whole run -----

  datatype Session = Session(st: State, leaf: Bytes, sent: Bytes, wire: Bytes)

  function FirstFlight(p: Params): Bytes { HandshakeRecord(CLIENT_HELLO, HelloBody(p)) }

  function InitialFlight(p: Params, buf: Bytes, wire: Bytes): Flight {
    Flight(StartState(TLS1_2, p.clientRandom, HelloBody(p)), None, buf, wire, [])
  }

  /** The agreement with whatever leaf and random the server flight delivers is finite. */
  predicate NeverAtInfinity(p: Params, buf: Bytes, wire: Bytes) {
    match ReadFlight(InitialFlight(p, buf, wire))
    case Err(_) => true
    case Ok(f) => f.leaf.Some? && f.st.serverRandom.Some? ==>
                    LeafAgreementIsFinite(p, f.leaf.value, f.st.serverRandom.value)
  }

  function RunLoginSpec(p: Params, buf: Bytes, wire: Bytes): Result<Session>
    requires NeverAtInfinity(p, buf, wire)
  {
    match ReadFlight(InitialFlight(p, buf, wire))
    case Err(e) => Err(e)
    case Ok(f) =>
      if f.leaf == None || f.st.serverRandom == None then Err(Protocol)
      else
        match LeafTransport(p, f.leaf.value, f.st.serverRandom.value)
        case Err(e) => Err(e)
        case Ok(t) =>
          match SecondFlight(p, f.st, t)
          case Err(e) => Err(e)
          case Ok(s) =>
            match FinishLogin(p.h, s.st, f.wire)
            case Err(e) => Err(e)
            case Ok(e) => Ok(Session(e.st, f.leaf.value, FirstFlight(p) + s.bytes, e.wire))
  }

  // ----- the driver -----

  method SendHandshake(t: TlsTransport, kind: byte, body: Bytes)
    modifies t`sent
    ensures t.sent == old(t.sent) + HandshakeRecord(kind, body)
  {
    t.SendRecord(Handshake, Frame(Message(kind, body)));
  }

  method ReadServerFlight(t: TlsTransport, hs: ClientHandshake, ghost f: Flight)
    returns (r: Result<Option<Bytes>>)
    requires hs.Valid() && t !in hs.Owned() && hs.View() == f.st
    requires t.handshakeBuf == f.buf && t.wire == f.wire && f.leaf == None
    modifies t`wire, t`handshakeBuf, hs`transcript, hs`serverRandom
    ensures hs.Valid() && hs.Owned() == old(hs.Owned())
    ensures match ReadFlight(f)
            case Err(e) => r == Err(e)
            case Ok(g) => r == Ok(g.leaf) && hs.View() == g.st && t.wire == g.wire && t.handshakeBuf == g.buf
  {
    hide Accept, State.Push, Frame, RecvMessage, ClientHandshake.View, ClientHandshake.Valid, FirstCertificate;
    var leaf: Option<Bytes> := None;
    ghost var g := f;
    while true
      invariant hs.Valid() && hs.Owned() == old(hs.Owned()) && hs.View() == g.st
      invariant t.handshakeBuf == g.buf && t.wire == g.wire && leaf == g.leaf
      invariant ReadFlight(f) == ReadFlight(g)
      decreases |g.buf| + |g.wire|
    {
      var got := t.RecvHandshakeMessage();
      if got.Fault? {
        return Err(TransportFailed(got.error));
      }
      var m := got.value;
      if m.kind == SERVER_HELLO_DONE {
        hs.PushMessage(SERVER_HELLO_DONE, m.body);
        return Ok(leaf);
      }
      AcceptCases(g.st, g.leaf, m);
      if m.kind == SERVER_HELLO {
        if |m.body| < 34 {
          return Err(Protocol);
        }
        hs.RecordServerHello(m.body[2..34], m.body);
      } else if m.kind == CERTIFICATE {
        var c := FirstCertificate(m.body);
        if c == None {
          return Err(Protocol);
        }
        leaf := c;
        hs.PushMessage(CERTIFICATE, m.body);
      } else if m.kind == SERVER_KEY_EXCHANGE || m.kind == CERTIFICATE_REQUEST {
        hs.PushMessage(m.kind, m.body);
      } else {
        return Err(Protocol);
      }
      g := Flight(Accept(g.st, g.leaf, m).value.0, leaf, t.handshakeBuf, t.wire, g.log + [m]);
    }
  }

  lemma AcceptCases(st: State, leaf: Option<Bytes>, m: Message)
    ensures m.kind == SERVER_HELLO ==>
              Accept(st, leaf, m) == if |m.body| < 34 then None
                                     else Some((ServerHelloRecorded(st, m.body[2..34], m.body), leaf))
    ensures m.kind == CERTIFICATE ==>
              Accept(st, leaf, m) == if FirstCertificate(m.body) == None then None
                                     else Some((st.Push(CERTIFICATE, m.body), FirstCertificate(m.body)))
    ensures m.kind == SERVER_KEY_EXCHANGE || m.kind == CERTIFICATE_REQUEST ==>
              Accept(st, leaf, m) == Some((st.Push(m.kind, m.body), leaf))
    ensures m.kind !in {SERVER_HELLO, CERTIFICATE, SERVER_KEY_EXCHANGE, CERTIFICATE_REQUEST} ==>
              Accept(st, leaf, m) == None
  {
    hide FirstCertificate, State.Push, ServerHelloRecorded;
  }

  method SendCertificate(t: TlsTransport, hs: ClientHandshake, chain: seq<Bytes>)
    requires hs.Valid() && t !in hs.Owned()
    modifies t`sent, hs`transcript
    ensures hs.Valid() && hs.Owned() == old(hs.Owned())
    ensures hs.View() == old(hs.View()).Push(CERTIFICATE, CertificateBody(chain))
    ensures t.sent == old(t.sent) + HandshakeRecord(CERTIFICATE, CertificateBody(chain))
  {
    hide HandshakeRecord, CertificateBody, RecordCrypto.Valid, DirectionState.View, State.Push;
    var cert := hs.ClientCertificate(chain);
    SendHandshake(t, CERTIFICATE, cert);
  }

  method SendKeyExchange(t: TlsTransport, hs: ClientHandshake, key: PreparedKey, premaster: Key) returns (r: Outcome<Bytes>)
    requires hs.Valid() && t !in hs.Owned()
    modifies t`sent, hs`transcript, hs`master, hs`recordCrypto
    ensures hs.Valid()
    ensures (hs.View(), r) == KeyExchanged(hs.h, old(hs.View()), key.kek, premaster, Some(key.spki))
    ensures r.Done? ==> fresh(hs.Owned())
                        && t.sent == old(t.sent) + HandshakeRecord(CLIENT_KEY_EXCHANGE, r.value)
  {
    hide HandshakeRecord, RecordCrypto.Valid, DirectionState.View, KeyExchanged;
    r := hs.KeyExchange(key.kek, premaster, Some(key.spki));
    if r.Done? {
      SendHandshake(t, CLIENT_KEY_EXCHANGE, r.value);
    }
  }

  method SendVerify(t: TlsTransport, hs: ClientHandshake, signature: Bytes)
    requires hs.Valid() && t !in hs.Owned()
    modifies t`sent, hs`transcript
    ensures hs.Valid() && hs.Owned() == old(hs.Owned())
    ensures hs.View() == old(hs.View()).Push(CERTIFICATE_VERIFY, CertificateVerifyBody(signature))
    ensures t.sent == old(t.sent) + HandshakeRecord(CERTIFICATE_VERIFY, CertificateVerifyBody(signature))
  {
    hide HandshakeRecord, CertificateVerifyBody, RecordCrypto.Valid, DirectionState.View, State.Push;
    SendHandshake(t, CERTIFICATE_VERIFY, CertificateVerifyBody(signature));
    hs.PushMessage(CERTIFICATE_VERIFY, CertificateVerifyBody(signature));
  }

  method SendIdentity(t: TlsTransport, hs: ClientHandshake, p: Params, key: PreparedKey) returns (r: Result<()>)
    requires hs.Valid() && t !in hs.Owned() && hs.h == p.h
    modifies t`sent, hs`transcript, hs`master, hs`recordCrypto
    ensures hs.Valid()
    ensures match ProveIdentity(p, old(hs.View()), key)
            case Err(e) => r == Err(e)
            case Ok(s) => r == Ok(()) && hs.View() == s.st && t.sent == old(t.sent) + s.bytes
                          && fresh(hs.Owned())
  {
    hide HandshakeRecord, CertificateBody, CertificateVerifyBody, KeyExchanged, State.Push,
         ClientHandshake.Valid, ClientHandshake.View, ClientHandshake.Owned;
    SendCertificate(t, hs, p.chain);
    var kx := SendKeyExchange(t, hs, key, p.premaster);
    if kx.Refused? {
      return Err(HandshakeFailed(kx.error));
    }
    var signature := p.sign(hs.CertificateVerifyDigest());
    if signature == None {
      return Err(SignFailed);
    }
    SendVerify(t, hs, signature.value);
    r := Ok(());
  }

  /** Protect a payload and send it. */
  method SendProtected(t: TlsTransport, hs: ClientHandshake, ct: ContentType, v: Version, plain: Bytes)
    returns (r: Result<()>)
    requires hs.Valid() && t !in hs.Owned()
    modifies t`sent, hs.Owned()
    ensures hs.Valid() && hs.Owned() == old(hs.Owned())
    ensures match old(hs.View()).crypto
            case None => r == Err(Protocol) && hs.View() == old(hs.View()) && t.sent == old(t.sent)
            case Some(ep) =>
              var s := Seal(ep.write, ct, v, plain);
              && r == Ok(()) && t.sent == old(t.sent) + EncodeRecord(Record(ct, TLS1_2, s.1))
              && hs.View() == old(hs.View()).(crypto := Some(ep.(write := s.0)))
  {
    hide EncodeRecord, RecordCrypto.Valid, DirectionState.View, Seal;
    if hs.recordCrypto == null {
      return Err(Protocol);
    }
    var sealed := hs.recordCrypto.Protect(ct, v, plain);
    t.SendRecord(ct, sealed);
    r := Ok(());
  }

  method SendFinished(t: TlsTransport, hs: ClientHandshake) returns (r: Result<()>)
    requires hs.Valid() && t !in hs.Owned()
    modifies t`sent, hs`transcript, hs.Owned()
    ensures hs.Valid() && hs.Owned() == old(hs.Owned())
    ensures match FinishClient(hs.h, old(hs.View()))
            case Err(e) => r == Err(e)
            case Ok(s) => r == Ok(()) && hs.View() == s.st && t.sent == old(t.sent) + s.bytes
  {
    hide Frame, EncodeRecord, FinishedByClient, RecordCrypto.Valid, DirectionState.View, Seal;
    t.SendRecord(ChangeCipherSpec, [1]);
    var fin := hs.ClientFinished();
    if fin.Refused? {
      return Err(HandshakeFailed(fin.error));
    }
    r := SendProtected(t, hs, Handshake, TLS1_2, Frame(Message(FINISHED, fin.value)));
  }

  lemma FinishedKeepsCrypto(h: Hash, st: State)
    ensures FinishedByClient(h, st).0.crypto == st.crypto
  {
    hide FinishedData, Frame;
  }

  /** Read ChangeCipherSpec and the protected Finished, and open the latter. */
  method ReceiveFinished(t: TlsTransport, hs: ClientHandshake) returns (r: Result<Bytes>)
    requires hs.Valid() && t !in hs.Owned()
    modifies t`wire, hs.Owned()
    ensures hs.Valid()
    ensures match ReceiveFinishedSpec(old(hs.View()), old(t.wire))
            case Err(e) => r == Err(e)
            case Ok(o) => r == Ok(o.plain) && hs.View() == o.st && t.wire == o.wire
  {
    hide ReadRecord, Open, RecordCrypto.Valid, DirectionState.View;
    var ccs := t.RecvRecord();
    if ccs == None {
      return Err(TransportFailed(NoRecord));
    }
    if ccs.value.ct != ChangeCipherSpec {
      return Err(Protocol);
    }
    var fin := t.RecvRecord();
    if fin == None {
      return Err(TransportFailed(NoRecord));
    }
    if fin.value.ct != Handshake || hs.recordCrypto == null {
      return Err(Protocol);
    }
    var o := hs.recordCrypto.Unprotect(Handshake, TLS1_2, fin.value.payload);
    if !o.Opened? {
      return Err(Protocol);
    }
    r := Ok(o.fragment);
  }

  method FinishServer(t: TlsTransport, hs: ClientHandshake) returns (r: Result<()>)
    requires hs.Valid() && t !in hs.Owned()
    modifies t`wire, hs.Owned()
    ensures hs.Valid()
    ensures match FinishLogin(hs.h, old(hs.View()), old(t.wire))
            case Err(e) => r == Err(e)
            case Ok(e) => r == Ok(()) && hs.View() == e.st && t.wire == e.wire
  {
    hide ReceiveFinishedSpec, Verdict, ClientHandshake.Valid, ClientHandshake.View;
    var got := ReceiveFinished(t, hs);
    if got.Err? {
      return Err(got.error);
    }
    var plain := got.value;
    if |plain| < 16 || plain[0] != FINISHED {
      return Err(Protocol);
    }
    ViewFields(hs);
    var verdict := hs.VerifyServerFinished(plain[4..16]);
    if verdict.Refused? {
      return Err(HandshakeFailed(verdict.error));
    }
    r := Ok(());
  }

  /** The client's second flight and the server's answer to it. */
  method CompleteLogin(t: TlsTransport, hs: ClientHandshake, p: Params, key: PreparedKey) returns (r: Result<()>)
    requires hs.Valid() && t !in hs.Owned() && hs.h == p.h
    modifies t`sent, t`wire, hs`transcript, hs`master, hs`recordCrypto, hs.Owned()
    ensures hs.Valid()
    ensures match SecondFlight(p, old(hs.View()), key)
            case Err(e) => r == Err(e)
            case Ok(s) =>
              match FinishLogin(p.h, s.st, old(t.wire))
              case Err(e) => r == Err(e)
              case Ok(e) => r == Ok(()) && hs.View() == e.st && t.wire == e.wire && t.sent == old(t.sent) + s.bytes
  {
    hide ProveIdentity, FinishClient, FinishLogin, ClientHandshake.Valid, ClientHandshake.View, ClientHandshake.Owned;
    var identity := SendIdentity(t, hs, p, key);
    if identity.Err? {
      return Err(identity.error);
    }
    var finished := SendFinished(t, hs);
    if finished.Err? {
      return Err(finished.error);
    }
    r := FinishServer(t, hs);
  }

  /** Run the full handshake on a transport; the result is the function of the bytes received. */
  method RunLogin(t: TlsTransport, p: Params) returns (r: Result<(ClientHandshake, Bytes)>)
    requires NeverAtInfinity(p, t.handshakeBuf, t.wire)
    modifies t
    ensures match RunLoginSpec(p, old(t.handshakeBuf), old(t.wire))
            case Err(e) => r == Err(e)
            case Ok(s) => r.Ok? && r.value.0.Valid() && r.value.0.View() == s.st && r.value.1 == s.leaf
                          && t.sent == old(t.sent) + s.sent && t.wire == s.wire
  {
    hide HelloBody, HandshakeRecord, ReadFlight, ProveIdentity, FinishClient, FinishLogin, LeafTransport, LeafAgreementIsFinite,
         RecordCrypto.Valid, DirectionState.View, Frame, SecondFlight;
    var hello := HelloBody(p);
    var hs := new ClientHandshake(p.h, TLS1_2, p.clientRandom, hello);
    SendHandshake(t, CLIENT_HELLO, hello);
    assert hs.recordCrypto == null;
    ghost var f := InitialFlight(p, t.handshakeBuf, t.wire);
    var leaf := ReadServerFlight(t, hs, f);
    if leaf.Err? {
      return Err(leaf.error);
    }
    assert hs.serverRandom == hs.View().serverRandom by { ViewFields(hs); }
    if leaf.value == None || hs.serverRandom == None {
      return Err(Protocol);
    }
    var key := LeafTransport(p, leaf.value.value, hs.serverRandom.value);
    if key.Err? {
      return Err(key.error);
    }
    var rest := CompleteLogin(t, hs, p, key.value);
    if rest.Err? {
      return Err(rest.error);
    }
    r := Ok((hs, leaf.value.value));
  }

  lemma ViewFields(hs: ClientHandshake)
    requires hs.Valid()
    ensures hs.View().serverRandom == hs.serverRandom && hs.View().master == hs.master && hs.View().transcript == hs.transcript
  {
  }
}
