/** Login agreement: the client's run against a server that frames the same bytes. Both ends see one
    transcript at each Finished, accept each other's verify data and nothing else, and end in step. */
module LoginAgreement {
  import opened Bytes
  import opened NumberTheory
  import opened CntMode
  import opened RecordProtection
  import opened EllipticCurve
  import opened ScalarMultiplication
  import opened Vko
  import opened Prf
  import opened Der
  import opened KeyTransport
  import opened HandshakeMessages
  import opened Tls
  import opened ClientSide
  import opened Login
  import opened ApplicationStream

  // ----- which server flights the client accepts -----

  /** The effect of all messages before ServerHelloDone. */
  function FoldFlight(st: State, leaf: Option<Bytes>, ms: seq<Message>): Option<(State, Option<Bytes>)>
    decreases |ms|
  {
    if ms == [] then Some((st, leaf))
    else
      match Accept(st, leaf, ms[0])
      case None => None
      case Some((st', leaf')) => FoldFlight(st', leaf', ms[1..])
  }

  function DoneMessage(body: Bytes): Message { Message(SERVER_HELLO_DONE, body) }

  lemma AcceptPushes(st: State, leaf: Option<Bytes>, m: Message)
    requires Accept(st, leaf, m).Some?
    ensures m.kind != SERVER_HELLO_DONE
    ensures var st' := Accept(st, leaf, m).value.0;
            && st'.transcript == st.transcript + Frame(m)
            && st'.(transcript := st.transcript, serverRandom := st.serverRandom) == st
            && (m.kind == SERVER_HELLO ==> |m.body| >= 34 && st'.serverRandom == Some(m.body[2..34]))
            && (m.kind != SERVER_HELLO ==> st'.serverRandom == st.serverRandom)
  {
    hide Frame, FirstCertificate;
  }

  /** The transcript grows by exactly the framed messages. */
  lemma {:induction false} FoldTranscript(st: State, leaf: Option<Bytes>, ms: seq<Message>)
    requires FoldFlight(st, leaf, ms).Some?
    ensures var st' := FoldFlight(st, leaf, ms).value.0;
            && st'.transcript == st.transcript + Frames(ms)
            && st'.(transcript := st.transcript, serverRandom := st.serverRandom) == st
    decreases |ms|
  {
    hide Accept, Frame;
    if ms == [] {
      assert st.transcript + [] == st.transcript;
    } else {
      AcceptPushes(st, leaf, ms[0]);
      var a := Accept(st, leaf, ms[0]).value;
      FoldTranscript(a.0, a.1, ms[1..]);
      ConcatAssoc(st.transcript, Frame(ms[0]), Frames(ms[1..]));
    }
  }

  /** Every ServerHello among the messages carries this random. */
  ghost predicate HellosCarry(ms: seq<Message>, random: Key) {
    forall i :: 0 <= i < |ms| && ms[i].kind == SERVER_HELLO ==> |ms[i].body| >= 34 && ms[i].body[2..34] == random
  }

  lemma {:induction false} FoldRandom(st: State, leaf: Option<Bytes>, ms: seq<Message>, random: Key)
    requires FoldFlight(st, leaf, ms).Some? && HellosCarry(ms, random)
    ensures var r := FoldFlight(st, leaf, ms).value.0.serverRandom;
            r == Some(random) || r == st.serverRandom
    decreases |ms|
  {
    hide Accept, Frame;
    if ms != [] {
      AcceptPushes(st, leaf, ms[0]);
      var a := Accept(st, leaf, ms[0]).value;
      FoldRandom(a.0, a.1, ms[1..], random);
    }
  }

  /** No empty record after the end of the stream; before it there may be any number. */
  predicate EndsInContent(cuts: seq<Cut>) {
    cuts != [] ==> cuts[|cuts| - 1].payload != []
  }

  lemma {:induction false} NothingLeft(buf: Bytes, cuts: seq<Cut>)
    requires buf + Carried(cuts) == [] && EndsInContent(cuts)
    ensures buf == [] && cuts == []
    decreases |cuts|
  {
    assert |buf| + |Carried(cuts)| == 0;
    if |cuts| > 1 {
      NothingLeft([], cuts[1..]);
    }
  }

  /** An acceptable flight is read to its end under every cutting into records, and nothing beyond it is touched. */
  lemma {:induction false} FlightIsRead(f: Flight, ms: seq<Message>, done: Bytes, cuts: seq<Cut>, tail: Bytes)
    requires FoldFlight(f.st, f.leaf, ms).Some? && FitFrames(ms) && |done| < 0x100_0000
    requires FitRecords(cuts) && EndsInContent(cuts)
    requires f.buf + Carried(cuts) == Frames(ms + [DoneMessage(done)])
    requires f.wire == HandshakeWire(cuts) + tail
    ensures var e := FoldFlight(f.st, f.leaf, ms).value;
            ReadFlight(f) == Ok(Flight(e.0.Push(SERVER_HELLO_DONE, done), e.1, [], tail, f.log + ms + [DoneMessage(done)]))
    decreases |ms|
  {
    hide Accept, State.Push, HandshakeWire, Carried, RecvMessage, Frame;
    if ms == [] {
      assert ms + [DoneMessage(done)] == [DoneMessage(done)];
      assert [DoneMessage(done)][1..] == [];
      assert Frames([DoneMessage(done)]) == Frame(DoneMessage(done)) + [];
      var k := RecvFirst(DoneMessage(done), [], f.buf, cuts, tail);
      var r := RecvMessage(f.buf, f.wire);
      NothingLeft(r.buf, cuts[k..]);
      WireOfNothing(tail);
      assert f.log + ms == f.log;
    } else {
      var m := ms[0];
      assert (ms + [DoneMessage(done)])[1..] == ms[1..] + [DoneMessage(done)];
      assert Frames(ms + [DoneMessage(done)]) == Frame(m) + Frames(ms[1..] + [DoneMessage(done)]);
      var k := RecvFirst(m, Frames(ms[1..] + [DoneMessage(done)]), f.buf, cuts, tail);
      var r := RecvMessage(f.buf, f.wire);
      AcceptPushes(f.st, f.leaf, m);
      var a := Accept(f.st, f.leaf, m).value;
      var f' := Flight(a.0, a.1, r.buf, r.wire, f.log + [m]);
      FlightIsRead(f', ms[1..], done, cuts[k..], tail);
      ConcatAssoc(f.log, [m], ms[1..]);
      assert [m] + ms[1..] == ms;
    }
  }

  lemma WireOfNothing(tail: Bytes)
    ensures HandshakeWire([]) + tail == tail
  {
  }

  lemma {:induction false} WireAppend(a: seq<Cut>, b: seq<Cut>)
    ensures HandshakeWire(a + b) == HandshakeWire(a) + HandshakeWire(b) && Carried(a + b) == Carried(a) + Carried(b)
    decreases |a|
  {
    hide EncodeRecord;
    if a == [] {
      assert a + b == b;
    } else {
      assert (a + b)[1..] == a[1..] + b;
      WireAppend(a[1..], b);
    }
  }

  /** What the records `c` and then `d` carry, when the first part ends in front of `buf`. */
  lemma ConsumedTogether(start: Bytes, wire: Bytes, c: seq<Cut>, m: Message, buf: Bytes, mid: Bytes,
                         d: seq<Cut>, ms: seq<Message>, end: Bytes, rest: Bytes)
    requires wire == HandshakeWire(c) + mid && start + Carried(c) == Frame(m) + buf
    requires mid == HandshakeWire(d) + rest && buf + Carried(d) == Frames(ms) + end
    ensures wire == HandshakeWire(c + d) + rest
    ensures start + Carried(c + d) == Frames([m] + ms) + end
  {
    hide HandshakeWire, Carried, Frame;
    WireAppend(c, d);
    ConcatAssoc(HandshakeWire(c), HandshakeWire(d), rest);
    ConcatAssoc(start, Carried(c), Carried(d));
    ConcatAssoc(Frame(m), buf, Carried(d));
    ConcatAssoc(Frame(m), Frames(ms), end);
    assert ([m] + ms)[1..] == ms;
  }

  /** Conversely, every flight the client accepts is such a list, and the handshake records consumed carry exactly
      its frames, up to what is still buffered; the transcript has grown by the same bytes. */
  lemma {:induction false} AcceptedFlightIsFolded(f: Flight) returns (ms: seq<Message>, done: Bytes, cuts: seq<Cut>)
    requires ReadFlight(f).Ok?
    ensures FitRecords(cuts) && FitFrames(ms + [DoneMessage(done)])
    ensures var g := ReadFlight(f).value;
            && f.wire == HandshakeWire(cuts) + g.wire
            && f.buf + Carried(cuts) == Frames(ms + [DoneMessage(done)]) + g.buf
            && g.log == f.log + ms + [DoneMessage(done)]
            && FoldFlight(f.st, f.leaf, ms).Some?
            && g.st == FoldFlight(f.st, f.leaf, ms).value.0.Push(SERVER_HELLO_DONE, done)
            && g.leaf == FoldFlight(f.st, f.leaf, ms).value.1
            && g.st.transcript == f.st.transcript + Frames(ms + [DoneMessage(done)])
    decreases |f.buf| + |f.wire|
  {
    hide Accept, RecvMessage, Frame, Frames, HandshakeWire, Carried;
    var r := RecvMessage(f.buf, f.wire);
    var m := r.result.value;
    cuts := RecvConsumed(f.buf, f.wire);
    if m.kind == SERVER_HELLO_DONE {
      ms, done := [], m.body;
      assert f.log + [] == f.log && [] + [DoneMessage(done)] == [m];
      OneFrame(m);
    } else {
      var a := Accept(f.st, f.leaf, m).value;
      var f' := Flight(a.0, a.1, r.buf, r.wire, f.log + [m]);
      var rest, more;
      rest, done, more := AcceptedFlightIsFolded(f');
      ms := [m] + rest;
      ConcatAssoc(f.log, [m], rest);
      assert ms[1..] == rest && ms + [DoneMessage(done)] == [m] + (rest + [DoneMessage(done)]);
      ConsumedTogether(f.buf, f.wire, cuts, m, r.buf, r.wire, more, rest + [DoneMessage(done)],
                       ReadFlight(f).value.buf, ReadFlight(f).value.wire);
      cuts := cuts + more;
    }
    FoldTranscript(f.st, f.leaf, ms);
    FramesSnoc(ms, DoneMessage(done));
    ConcatAssoc(f.st.transcript, Frames(ms), Frame(DoneMessage(done)));
  }

  lemma OneFrame(m: Message)
    ensures Frames([m]) == Frame(m)
  {
    assert [m][1..] == [] && Frame(m) + [] == Frame(m);
  }

  // ----- the server -----

  /** The server's end after its Finished: its record state and its transcript at both Finished messages. */
  datatype ServerEnd = ServerEnd(ep: Endpoint, master: Master, atClientFinished: Bytes, atServerFinished: Bytes)

  function NextPayload(wire: Bytes, ct: ContentType): Option<(Bytes, Bytes)> {
    match ReadRecord(wire)
    case None => None
    case Some((r, rest)) => if r.ct == ct then Some((r.payload, rest)) else None
  }

  datatype ClientBytes = ClientBytes(hello: Bytes, cert: Bytes, keyExchange: Bytes, verify: Bytes, finished: Bytes)

  function ReadIdentity(wire: Bytes): Option<(Bytes, Bytes, Bytes, Bytes)> {
    match NextPayload(wire, Handshake)
    case None => None
    case Some((cert, w1)) =>
      match NextPayload(w1, Handshake)
      case None => None
      case Some((cke, w2)) =>
        match NextPayload(w2, Handshake)
        case None => None
        case Some((cv, w3)) => Some((cert, cke, cv, w3))
  }

  function ReadProtected(wire: Bytes): Option<Bytes> {
    match NextPayload(wire, ChangeCipherSpec)
    case None => None
    case Some((_, w)) =>
      match NextPayload(w, Handshake)
      case None => None
      case Some((fin, _)) => Some(fin)
  }

  /** The record payloads the client sent. */
  function ReadClient(wire: Bytes): Option<ClientBytes> {
    match NextPayload(wire, Handshake)
    case None => None
    case Some((hello, w1)) =>
      match ReadIdentity(w1)
      case None => None
      case Some((cert, cke, cv, w2)) =>
        match ReadProtected(w2)
        case None => None
        case Some(fin) => Some(ClientBytes(hello, cert, cke, cv, fin))
  }

  /** The server checks the client's Finished over its own transcript: the bytes it read and the bytes it framed. */
  function ServerRun(h: Hash, premaster: Key, serverRandom: Key, flight: seq<Message>, c: ClientBytes): Option<ServerEnd> {
    if |c.hello| < 38 then None
    else
      var master := MasterSecret(h, premaster, c.hello[6..38], serverRandom);
      var ep := ServerEndpoint(DeriveKeys(h, master, c.hello[6..38], serverRandom));
      var t := c.hello + Frames(flight) + c.cert + c.keyExchange + c.verify;
      var o := Open(ep.read, Handshake, TLS1_2, c.finished);
      match o.1
      case Short => None
      case BadMac => None
      case Opened(plain) =>
        if |plain| < 16 || plain[4..16] != FinishedData(h, master, ClientLabel(), t) then None
        else Some(ServerEnd(ep.(read := o.0), master, t, t + plain))
  }

  /** The server's answer carrying `vd`, and its record state after it. */
  function ServerAnswer(e: ServerEnd, vd: VerifyData): (Endpoint, Bytes) {
    var r := Seal(e.ep.write, Handshake, TLS1_2, Frame(Message(FINISHED, vd)));
    (e.ep.(write := r.0), ChangeCipherSpecRecord() + EncodeRecord(Record(Handshake, TLS1_2, r.1)))
  }

  function ServerVerifyData(h: Hash, e: ServerEnd): VerifyData {
    FinishedData(h, e.master, ServerLabel(), e.atServerFinished)
  }

  // ----- reading what the client wrote -----

  /** The record-layer limit: the framed message fits one record. */
  predicate FitsRecord(body: Bytes) {
    |body| + 4 < 0x1_0000
  }

  lemma NextPayloadOf(r: Record, rest: Bytes)
    requires |r.payload| < 0x1_0000
    ensures NextPayload(EncodeRecord(r) + rest, r.ct) == Some((r.payload, rest))
  {
    hide EncodeRecord, ReadRecord;
    RecordRoundTripExactly(r, rest);
  }

  lemma NextHandshake(kind: byte, body: Bytes, rest: Bytes)
    requires FitsRecord(body)
    ensures NextPayload(HandshakeRecord(kind, body) + rest, Handshake) == Some((Frame(Message(kind, body)), rest))
  {
    hide EncodeRecord, ReadRecord, NextPayload;
    NextPayloadOf(Record(Handshake, TLS1_2, Frame(Message(kind, body))), rest);
  }

  lemma ReadIdentityOf(cert: Bytes, cke: Bytes, cv: Bytes, rest: Bytes)
    requires FitsRecord(cert) && FitsRecord(cke) && FitsRecord(cv)
    ensures ReadIdentity(HandshakeRecord(CERTIFICATE, cert) + HandshakeRecord(CLIENT_KEY_EXCHANGE, cke)
                         + HandshakeRecord(CERTIFICATE_VERIFY, cv) + rest)
         == Some((Frame(Message(CERTIFICATE, cert)), Frame(Message(CLIENT_KEY_EXCHANGE, cke)),
                  Frame(Message(CERTIFICATE_VERIFY, cv)), rest))
  {
    hide HandshakeRecord, NextPayload, Frame;
    var a, b, c := HandshakeRecord(CERTIFICATE, cert), HandshakeRecord(CLIENT_KEY_EXCHANGE, cke),
                   HandshakeRecord(CERTIFICATE_VERIFY, cv);
    assert a + b + c + rest == a + (b + (c + rest));
    NextHandshake(CERTIFICATE, cert, b + (c + rest));
    NextHandshake(CLIENT_KEY_EXCHANGE, cke, c + rest);
    NextHandshake(CERTIFICATE_VERIFY, cv, rest);
  }

  lemma ReadProtectedOf(sealed: Bytes, rest: Bytes)
    requires |sealed| < 0x1_0000
    ensures ReadProtected(ChangeCipherSpecRecord() + EncodeRecord(Record(Handshake, TLS1_2, sealed)) + rest) == Some(sealed)
  {
    hide EncodeRecord, NextPayload;
    var a, b := ChangeCipherSpecRecord(), EncodeRecord(Record(Handshake, TLS1_2, sealed));
    ConcatAssoc(a, b, rest);
    NextPayloadOf(Record(ChangeCipherSpec, TLS1_2, [1]), b + rest);
    NextPayloadOf(Record(Handshake, TLS1_2, sealed), rest);
  }

  /** The random sits at bytes 6-37 of the framed hello. */
  lemma HelloCarriesRandom(p: Params)
    ensures var f := Frame(Message(CLIENT_HELLO, HelloBody(p))); |f| >= 38 && f[6..38] == p.clientRandom
  {
    hide Be, Suites, SniExtension;
    var b := HelloBody(p);
    var f := Frame(Message(CLIENT_HELLO, b));
    assert b[2..34] == p.clientRandom;
    assert f[4..] == b;
    assert f[6..38] == f[4..][2..34];
  }

  // ----- the Finished exchange -----

  lemma SealedLength(d: Direction, ct: ContentType, v: Version, fragment: Bytes)
    ensures |Seal(d, ct, v, fragment).1| == |fragment| + 4
  {
    hide MacedData, Direction.RunningTag;
  }

  lemma FinishedFrame(vd: VerifyData)
    ensures var f := Frame(Message(FINISHED, vd)); |f| == 16 && f[0] == FINISHED && f[4..16] == vd
  {
    hide Be;
  }

  /** The state of a client that is about to send its Finished. */
  ghost predicate ReadyToFinish(h: Hash, st: State, premaster: Key, serverRandom: Key) {
    var master := MasterSecret(h, premaster, st.clientRandom, serverRandom);
    && st.master == Some(master)
    && st.crypto == Some(ClientEndpoint(DeriveKeys(h, master, st.clientRandom, serverRandom)))
  }

  /** A server in possession of the same secrets and bytes accepts the client's Finished; both transcripts are equal. */
  lemma ServerAcceptsClient(h: Hash, st: State, premaster: Key, serverRandom: Key, flight: seq<Message>, c: ClientBytes)
    requires ReadyToFinish(h, st, premaster, serverRandom)
    requires |c.hello| >= 38 && c.hello[6..38] == st.clientRandom
    requires st.transcript == c.hello + Frames(flight) + c.cert + c.keyExchange + c.verify
    requires var vd := FinishedData(h, st.master.value, ClientLabel(), st.transcript);
             c.finished == Seal(st.crypto.value.write, Handshake, TLS1_2, Frame(Message(FINISHED, vd))).1
    ensures FinishClient(h, st).Ok?
    ensures var s := FinishClient(h, st).value.st;
            var e := ServerRun(h, premaster, serverRandom, flight, c);
            && e.Some?
            && e.value.master == st.master.value
            && e.value.atClientFinished == st.transcript
            && e.value.atServerFinished == s.transcript
            && s.master == st.master && s.crypto.Some?
            && e.value.ep.read == s.crypto.value.write
            && e.value.ep.write == s.crypto.value.read
            && s.crypto.value.write.seqNum == 1
  {
    hide MasterSecret, DeriveKeys, FinishedData, Seal, Open, Frame, EncodeRecord;
    var ep := st.crypto.value;
    var vd := FinishedData(h, st.master.value, ClientLabel(), st.transcript);
    var f := Frame(Message(FINISHED, vd));
    OpenAfterSeal(ep.write, Handshake, TLS1_2, f);
    SealAdvances(ep.write, Handshake, TLS1_2, f);
    FinishedFrame(vd);
  }

  lemma SealAdvances(d: Direction, ct: ContentType, v: Version, fragment: Bytes)
    ensures Seal(d, ct, v, fragment).0.seqNum == (d.seqNum + 1) % TWO_64
  {
    hide MacedData, Masked, Direction.RunningTag;
  }

  /** The client accepts the server's answer exactly when it carries the verify data of the common transcript. */
  lemma ClientAcceptsServerExactly(h: Hash, st: State, e: ServerEnd, vd: VerifyData, rest: Bytes)
    requires st.crypto.Some? && st.master == Some(e.master) && st.transcript == e.atServerFinished
    requires st.crypto.value.read == e.ep.write
    ensures FinishLogin(h, st, ServerAnswer(e, vd).1 + rest)
         == (if vd == ServerVerifyData(h, e)
             then Ok(Established(st.(crypto := Some(st.crypto.value.(read := ServerAnswer(e, vd).0.write))), rest))
             else Err(HandshakeFailed(BadServerFinished)))
  {
    hide FinishedData, Seal, Open, Frame, EncodeRecord, ReadRecord;
    var f := Frame(Message(FINISHED, vd));
    var sealed := Seal(e.ep.write, Handshake, TLS1_2, f);
    SealedLength(e.ep.write, Handshake, TLS1_2, f);
    FinishedFrame(vd);
    OpenAfterSeal(e.ep.write, Handshake, TLS1_2, f);
    var r := EncodeRecord(Record(Handshake, TLS1_2, sealed.1));
    ConcatAssoc(ChangeCipherSpecRecord(), r, rest);
    RecordRoundTripExactly(Record(ChangeCipherSpec, TLS1_2, [1]), r + rest);
    RecordRoundTripExactly(Record(Handshake, TLS1_2, sealed.1), rest);
  }

  // ----- every answer that completes a login -----

  /** An answer as far as the client looks at it: any ChangeCipherSpec record and what the Finished record protects. */
  datatype Answer = Answer(ccs: Record, v: Version, plain: Bytes)

  /** The wire starts with such an answer, sealed in state `d` and carrying the verify data of this transcript.
      The length field of the Finished message and anything after its verify data may be arbitrary. */
  ghost predicate Answers(h: Hash, d: Direction, master: Master, transcript: Bytes, a: Answer, wire: Bytes, rest: Bytes) {
    var sealed := Seal(d, Handshake, TLS1_2, a.plain).1;
    && a.ccs.ct == ChangeCipherSpec && |a.ccs.payload| < 0x1_0000 && |sealed| < 0x1_0000
    && wire == EncodeRecord(a.ccs) + (EncodeRecord(Record(Handshake, a.v, sealed)) + rest)
    && |a.plain| >= 16 && a.plain[0] == FINISHED
    && a.plain[4..16] == FinishedData(h, master, ServerLabel(), transcript)
  }

  /** The client's state after such an answer. */
  function Completed(st: State, a: Answer): State
    requires st.crypto.Some?
  {
    st.(crypto := Some(st.crypto.value.(read := Seal(st.crypto.value.read, Handshake, TLS1_2, a.plain).0)))
  }

  lemma AnswerIsAccepted(h: Hash, st: State, a: Answer, wire: Bytes, rest: Bytes)
    requires st.crypto.Some? && st.master.Some?
    requires Answers(h, st.crypto.value.read, st.master.value, st.transcript, a, wire, rest)
    ensures FinishLogin(h, st, wire) == Ok(Established(Completed(st, a), rest))
  {
    hide FinishedData, Seal, Open, EncodeRecord, ReadRecord;
    var d := st.crypto.value.read;
    var sealed := Seal(d, Handshake, TLS1_2, a.plain).1;
    var fin := Record(Handshake, a.v, sealed);
    RecordRoundTripExactly(a.ccs, EncodeRecord(fin) + rest);
    RecordRoundTripExactly(fin, rest);
    OpenAfterSeal(d, Handshake, TLS1_2, a.plain);
  }

  lemma AcceptedIsAnswer(h: Hash, st: State, wire: Bytes) returns (a: Answer)
    requires FinishLogin(h, st, wire).Ok?
    ensures st.crypto.Some? && st.master.Some?
    ensures Answers(h, st.crypto.value.read, st.master.value, st.transcript, a, wire, FinishLogin(h, st, wire).value.wire)
    ensures FinishLogin(h, st, wire).value.st == Completed(st, a)
  {
    hide FinishedData, Seal, Open, EncodeRecord, ReadRecord;
    var d := st.crypto.value.read;
    var ccs := ReadRecord(wire).value;
    var fin := ReadRecord(ccs.1).value;
    ReadIsEncoded(wire);
    ReadIsEncoded(ccs.1);
    var plain := Open(d, Handshake, TLS1_2, fin.0.payload).1.fragment;
    AcceptedExactlyWhenSealed(d, Handshake, TLS1_2, fin.0.payload, plain);
    a := Answer(ccs.0, fin.0.v, plain);
    assert fin.0 == Record(Handshake, a.v, fin.0.payload);
  }

  /** On every wire, the client completes the login exactly when the wire starts with an answer. */
  lemma FinishLoginExactly(h: Hash, st: State, wire: Bytes)
    ensures FinishLogin(h, st, wire).Ok?
       <==> st.crypto.Some? && st.master.Some?
            && exists a, rest :: Answers(h, st.crypto.value.read, st.master.value, st.transcript, a, wire, rest)
  {
    hide FinishLogin, Answers;
    if FinishLogin(h, st, wire).Ok? {
      var a := AcceptedIsAnswer(h, st, wire);
    } else if st.crypto.Some? && st.master.Some? {
      forall a, rest | Answers(h, st.crypto.value.read, st.master.value, st.transcript, a, wire, rest) ensures false {
        AnswerIsAccepted(h, st, a, wire, rest);
      }
    }
  }

  // ----- the whole login -----

  /** The bodies the client sends between the hello and its Finished. */
  datatype Bodies = Bodies(cert: Bytes, keyExchange: Bytes, verify: Bytes)

  function IdentityBodies(p: Params, st: State, key: PreparedKey, signature: Bytes): Bodies
    requires st.serverRandom.Some?
  {
    Bodies(CertificateBody(p.chain),
           BuildClientKeyExchange(p.h, key.kek, st.clientRandom, st.serverRandom.value, p.premaster, Some(key.spki)),
           CertificateVerifyBody(signature))
  }

  /** The transcript hash the token is asked to sign. */
  function DigestToSign(p: Params, st: State, key: PreparedKey): Key {
    p.h(KeyExchanged(p.h, st.Push(CERTIFICATE, CertificateBody(p.chain)), key.kek, p.premaster, Some(key.spki)).0.transcript)
  }

  predicate BodiesFit(b: Bodies) {
    FitsRecord(b.cert) && FitsRecord(b.keyExchange) && FitsRecord(b.verify)
  }

  lemma IdentityIsProved(p: Params, st: State, key: PreparedKey)
    requires st.serverRandom.Some? && p.sign(DigestToSign(p, st, key)).Some?
    ensures ProveIdentity(p, st, key).Ok?
    ensures var b := IdentityBodies(p, st, key, p.sign(DigestToSign(p, st, key)).value);
            var s := ProveIdentity(p, st, key).value;
            && s.st.transcript == st.transcript + Frame(Message(CERTIFICATE, b.cert))
                                  + Frame(Message(CLIENT_KEY_EXCHANGE, b.keyExchange))
                                  + Frame(Message(CERTIFICATE_VERIFY, b.verify))
            && s.bytes == HandshakeRecord(CERTIFICATE, b.cert) + HandshakeRecord(CLIENT_KEY_EXCHANGE, b.keyExchange)
                          + HandshakeRecord(CERTIFICATE_VERIFY, b.verify)
            && s.st.clientRandom == st.clientRandom
            && ReadyToFinish(p.h, s.st, p.premaster, st.serverRandom.value)
  {
    hide CertificateBody, BuildClientKeyExchange, CertificateVerifyBody, MasterSecret, DeriveKeys, Frame, HandshakeRecord;
  }

  /** The client's side of a login: what the flight leads to, up to the Finished. */
  datatype Scene = Scene(ms: seq<Message>, done: Bytes, serverRandom: Key, key: PreparedKey)

  function ServerFlight(x: Scene): seq<Message> { x.ms + [DoneMessage(x.done)] }

  function Folded(p: Params, x: Scene): Option<(State, Option<Bytes>)> {
    FoldFlight(StartState(TLS1_2, p.clientRandom, HelloBody(p)), None, x.ms)
  }

  /** The client's state after the flight. */
  function Informed(p: Params, x: Scene): State
    requires Folded(p, x).Some?
  {
    Folded(p, x).value.0.Push(SERVER_HELLO_DONE, x.done)
  }

  /** A flight the client accepts: every message acceptable, a certificate with a usable key, one random in
      all ServerHellos, everything within the wire format's limits, and a token that signs. */
  ghost predicate Acceptable(p: Params, x: Scene) {
    && Folded(p, x).Some? && FitFrames(x.ms) && |x.done| < 0x100_0000
    && HellosCarry(x.ms, x.serverRandom)
    && Informed(p, x).serverRandom.Some?
    && Folded(p, x).value.1.Some?
    && LeafAgreementIsFinite(p, Folded(p, x).value.1.value, x.serverRandom)
    && LeafTransport(p, Folded(p, x).value.1.value, x.serverRandom) == Ok(x.key)
    && FitsRecord(HelloBody(p))
    && p.sign(DigestToSign(p, Informed(p, x), x.key)).Some?
    && BodiesFit(IdentityBodies(p, Informed(p, x), x.key, p.sign(DigestToSign(p, Informed(p, x), x.key)).value))
  }

  lemma InformedState(p: Params, x: Scene)
    requires Acceptable(p, x)
    ensures var st := Informed(p, x);
            && st.transcript == Frame(Message(CLIENT_HELLO, HelloBody(p))) + Frames(ServerFlight(x))
            && st.clientRandom == p.clientRandom && st.serverRandom == Some(x.serverRandom)
  {
    hide Frame, HelloBody, FoldFlight, LeafTransport, LeafAgreementIsFinite, IdentityBodies, DigestToSign;
    var st0 := StartState(TLS1_2, p.clientRandom, HelloBody(p));
    var hello := Frame(Message(CLIENT_HELLO, HelloBody(p)));
    assert st0.transcript == hello;
    FoldTranscript(st0, None, x.ms);
    FoldRandom(st0, None, x.ms, x.serverRandom);
    FramesSnoc(x.ms, DoneMessage(x.done));
    ConcatAssoc(hello, Frames(x.ms), Frame(DoneMessage(x.done)));
  }

  /** Everything the client sends until it waits for the server's Finished. */
  function ClientSends(p: Params, x: Scene): Bytes
    requires Acceptable(p, x)
  {
    FirstFlight(p) + if SecondFlight(p, Informed(p, x), x.key).Ok? then SecondFlight(p, Informed(p, x), x.key).value.bytes else []
  }

  /** A server with the premaster, reading the client's bytes, accepts them: equal transcripts at the client's
      Finished and at the server's, equal secrets, and record states that belong together. */
  lemma ServerFollows(p: Params, x: Scene)
    requires Acceptable(p, x)
    ensures SecondFlight(p, Informed(p, x), x.key).Ok?
    ensures var c := ReadClient(ClientSends(p, x));
            var s := SecondFlight(p, Informed(p, x), x.key).value.st;
            && c.Some?
            && var e := ServerRun(p.h, p.premaster, x.serverRandom, ServerFlight(x), c.value);
            && e.Some?
            && e.value.atServerFinished == s.transcript
            && s.master == Some(e.value.master) && s.crypto.Some?
            && e.value.ep.read == s.crypto.value.write && e.value.ep.write == s.crypto.value.read
            && s.crypto.value.write.seqNum == 1
            && c.value.keyExchange == Frame(Message(CLIENT_KEY_EXCHANGE, SentKeyExchange(p, x)))
  {
    hide Frame, HelloBody, HandshakeRecord, EncodeRecord, LeafTransport, LeafAgreementIsFinite, Folded, ProveIdentity,
         FinishClient, ServerRun, ReadIdentity, ReadProtected, Seal, FinishedData, NextPayload, BuildClientKeyExchange,
         CertificateBody, CertificateVerifyBody, HellosCarry, Frames, ReadyToFinish, KeyExchanged;
    var st := Informed(p, x);
    InformedState(p, x);
    IdentityIsProved(p, st, x.key);
    var b := IdentityBodies(p, st, x.key, p.sign(DigestToSign(p, st, x.key)).value);
    var s1 := ProveIdentity(p, st, x.key).value;
    var hello := Frame(Message(CLIENT_HELLO, HelloBody(p)));
    FinishBytes(p.h, s1.st, p.premaster, x.serverRandom);
    var sealed := FinishedSealed(p.h, s1.st);
    var tail := ChangeCipherSpecRecord() + EncodeRecord(Record(Handshake, TLS1_2, sealed));
    var c := ClientBytes(hello, Frame(Message(CERTIFICATE, b.cert)), Frame(Message(CLIENT_KEY_EXCHANGE, b.keyExchange)),
                         Frame(Message(CERTIFICATE_VERIFY, b.verify)), sealed);
    NextHandshake(CLIENT_HELLO, HelloBody(p), s1.bytes + tail);
    ReadIdentityOf(b.cert, b.keyExchange, b.verify, tail);
    ReadProtectedOf(sealed, []);
    assert tail + [] == tail;
    assert ClientSends(p, x) == HandshakeRecord(CLIENT_HELLO, HelloBody(p)) + (s1.bytes + tail);
    assert ReadClient(ClientSends(p, x)) == Some(c);
    HelloCarriesRandom(p);
    ServerAcceptsClient(p.h, s1.st, p.premaster, x.serverRandom, ServerFlight(x), c);
  }

  function SentKeyExchange(p: Params, x: Scene): Bytes {
    BuildClientKeyExchange(p.h, x.key.kek, p.clientRandom, x.serverRandom, p.premaster, Some(x.key.spki))
  }

  /** The client's protected Finished. */
  function FinishedSealed(h: Hash, st: State): Bytes
    requires st.master.Some? && st.crypto.Some?
  {
    var vd := FinishedData(h, st.master.value, ClientLabel(), st.transcript);
    Seal(st.crypto.value.write, Handshake, TLS1_2, Frame(Message(FINISHED, vd))).1
  }

  lemma FinishBytes(h: Hash, st: State, premaster: Key, serverRandom: Key)
    requires ReadyToFinish(h, st, premaster, serverRandom)
    ensures st.master.Some? && st.crypto.Some? && FinishClient(h, st).Ok?
    ensures FinishClient(h, st).value.bytes
         == ChangeCipherSpecRecord() + EncodeRecord(Record(Handshake, TLS1_2, FinishedSealed(h, st)))
    ensures |FinishedSealed(h, st)| == 20
  {
    hide MasterSecret, DeriveKeys, FinishedData, Seal, Frame, EncodeRecord;
    var vd := FinishedData(h, st.master.value, ClientLabel(), st.transcript);
    FinishedFrame(vd);
    SealedLength(st.crypto.value.write, Handshake, TLS1_2, Frame(Message(FINISHED, vd)));
  }

  /** The server's end after reading all the client sent. */
  ghost function ServerOf(p: Params, x: Scene): Option<ServerEnd>
    requires Acceptable(p, x)
  {
    match ReadClient(ClientSends(p, x))
    case None => None
    case Some(c) => ServerRun(p.h, p.premaster, x.serverRandom, ServerFlight(x), c)
  }

  lemma ServerAtTheEnd(p: Params, x: Scene)
    requires Acceptable(p, x)
    ensures SecondFlight(p, Informed(p, x), x.key).Ok?
    ensures var s := SecondFlight(p, Informed(p, x), x.key).value.st;
            var e := ServerOf(p, x);
            && e.Some?
            && e.value.atServerFinished == s.transcript
            && s.master == Some(e.value.master) && s.crypto.Some?
            && e.value.ep.read == s.crypto.value.write && e.value.ep.write == s.crypto.value.read
            && s.crypto.value.write.seqNum == 1
  {
    hide ClientSends, Acceptable, ServerRun, ReadClient, SecondFlight, Informed, Frame, SentKeyExchange, ServerFlight;
    ServerFollows(p, x);
  }

  /** What the run comes to once the flight is read: the verdict on whatever follows it on the wire. */
  function Outcome(p: Params, x: Scene, tail: Bytes): Login.Result<Session>
    requires Acceptable(p, x)
  {
    match SecondFlight(p, Informed(p, x), x.key)
    case Err(e) => Err(e)
    case Ok(s) =>
      match FinishLogin(p.h, s.st, tail)
      case Err(e) => Err(e)
      case Ok(e) => Ok(Session(e.st, Folded(p, x).value.1.value, ClientSends(p, x), e.wire))
  }

  lemma RunComesTo(p: Params, x: Scene, cuts: seq<Cut>, tail: Bytes)
    requires Acceptable(p, x)
    requires FitRecords(cuts) && EndsInContent(cuts) && Carried(cuts) == Frames(ServerFlight(x))
    ensures NeverAtInfinity(p, [], HandshakeWire(cuts) + tail)
    ensures RunLoginSpec(p, [], HandshakeWire(cuts) + tail) == Outcome(p, x, tail)
  {
    hide HelloBody, HandshakeRecord, LeafTransport, LeafAgreementIsFinite, FoldFlight, HandshakeWire, HellosCarry,
         FinishLogin, Frames, ReadFlight, SecondFlight, IdentityBodies, DigestToSign, FitFrames, BodiesFit, Carried;
    InformedState(p, x);
    assert [] + Carried(cuts) == Frames(ServerFlight(x));
    FlightIsRead(InitialFlight(p, [], HandshakeWire(cuts) + tail), x.ms, x.done, cuts, tail);
  }

  /** The login succeeds exactly on the server's true verify data, and then both ends are in step:
      each reads in the state the other writes in, one record in each direction. */
  lemma LoginAgrees(p: Params, x: Scene, cuts: seq<Cut>, vd: VerifyData, rest: Bytes)
    requires Acceptable(p, x)
    requires FitRecords(cuts) && EndsInContent(cuts) && Carried(cuts) == Frames(ServerFlight(x))
    ensures ServerOf(p, x).Some?
    ensures var e := ServerOf(p, x).value;
            var answer := ServerAnswer(e, vd);
            var wire := HandshakeWire(cuts) + (answer.1 + rest);
            && NeverAtInfinity(p, [], wire)
            && (vd != ServerVerifyData(p.h, e) ==>
                  RunLoginSpec(p, [], wire) == Err(HandshakeFailed(BadServerFinished)))
            && (vd == ServerVerifyData(p.h, e) ==>
                  var r := RunLoginSpec(p, [], wire);
                  && r.Ok?
                  && r.value.sent == ClientSends(p, x) && r.value.wire == rest
                  && Some(r.value.leaf) == Folded(p, x).value.1
                  && r.value.st.transcript == e.atServerFinished
                  && r.value.st.crypto == Some(Endpoint(answer.0.read, answer.0.write))
                  && answer.0.read.seqNum == 1 && answer.0.write.seqNum == 1)
  {
    hide Acceptable, ClientSends, SecondFlight, Informed, FinishLogin, Folded, ServerOf, ServerAnswer, RunLoginSpec, Frames,
         NeverAtInfinity, HandshakeWire, ServerVerifyData, ServerFlight, FitRecords, EndsInContent, Carried;
    LeafDelivered(p, x);
    ServerAtTheEnd(p, x);
    var e := ServerOf(p, x).value;
    var s := SecondFlight(p, Informed(p, x), x.key).value;
    RunComesTo(p, x, cuts, ServerAnswer(e, vd).1 + rest);
    ClientAcceptsServerExactly(p.h, s.st, e, vd, rest);
    AnswerAdvances(p, x, e, vd);
  }

  /** Whatever follows the flight on the wire, the login succeeds exactly when it is an answer sealed in the server's
      state over the server's transcript; the client then reads in the state the server is left in. */
  lemma LoginSucceedsExactly(p: Params, x: Scene, cuts: seq<Cut>, tail: Bytes)
    requires Acceptable(p, x)
    requires FitRecords(cuts) && EndsInContent(cuts) && Carried(cuts) == Frames(ServerFlight(x))
    ensures ServerOf(p, x).Some? && NeverAtInfinity(p, [], HandshakeWire(cuts) + tail)
    ensures var e := ServerOf(p, x).value;
            var r := RunLoginSpec(p, [], HandshakeWire(cuts) + tail);
            && (r.Ok? <==> exists a, rest :: Answers(p.h, e.ep.write, e.master, e.atServerFinished, a, tail, rest))
            && (r.Ok? ==> exists a :: Answers(p.h, e.ep.write, e.master, e.atServerFinished, a, tail, r.value.wire)
                                      && r.value.st.transcript == e.atServerFinished && r.value.st.crypto.Some?
                                      && r.value.st.crypto.value
                                         == Endpoint(e.ep.read, Seal(e.ep.write, Handshake, TLS1_2, a.plain).0))
  {
    hide Acceptable, ClientSends, SecondFlight, Informed, FinishLogin, Folded, ServerOf, RunLoginSpec, Frames, Answers,
         NeverAtInfinity, HandshakeWire, ServerFlight, FitRecords, EndsInContent, Carried, Seal;
    LeafDelivered(p, x);
    ServerAtTheEnd(p, x);
    RunComesTo(p, x, cuts, tail);
    var s := SecondFlight(p, Informed(p, x), x.key).value.st;
    FinishLoginExactly(p.h, s, tail);
    if FinishLogin(p.h, s, tail).Ok? {
      var a := AcceptedIsAnswer(p.h, s, tail);
    }
  }

  lemma LeafDelivered(p: Params, x: Scene)
    requires Acceptable(p, x)
    ensures Folded(p, x).Some? && Folded(p, x).value.1.Some?
  {
    hide Folded, LeafTransport, LeafAgreementIsFinite, HelloBody, IdentityBodies, DigestToSign, BodiesFit, FitFrames, HellosCarry;
  }

  /** The server need not be told the premaster: with the private key of the certificate it recovers it from
      the key exchange it reads. */
  lemma ServerKeyRecoversPremaster(p: Params, x: Scene, c: Curve, d: nat)
    requires Acceptable(p, x)
    requires Domain(c) && Associative(c) && Prime(c.q) && PublicPoint(c, d) != Infinity && FieldBytes(c) < 0x800_0000
    requires var raw := EncodePointLe(c, PublicPoint(c, d)).value;
             && Folded(p, x).Some? && Folded(p, x).value.1.Some?
             && ExtractPoint(Folded(p, x).value.1.value) == Some(raw)
             && DetectCurve(p.curves, raw) == Some((c, PublicPoint(c, d)))
    requires LeNat(DeriveSharedUkm(p.h, p.clientRandom, x.serverRandom)) % c.q != 0
    ensures ReadClient(ClientSends(p, x)).Some?
    ensures var m := ReadClient(ClientSends(p, x)).value.keyExchange;
            |m| >= 4 && ServerRecovers(p.h, c, d, m[4..]) == Some(p.premaster)
  {
    hide *;
    ServerFollows(p, x);
    LeafDelivered(p, x);
    var leaf := Folded(p, x).value.1.value;
    KeyOfScene(p, x);
    AlgorithmIsElement(leaf);
    ServerRecoversPremaster(p.h, p.curves, c, d, ExtractAlgorithm(leaf).value, p.entropy, p.clientRandom, x.serverRandom, p.premaster);
    FrameBody(CLIENT_KEY_EXCHANGE, SentKeyExchange(p, x));
    SentKeyExchangeIs(p, x);
  }

  lemma SentKeyExchangeIs(p: Params, x: Scene)
    ensures SentKeyExchange(p, x)
         == BuildClientKeyExchange(p.h, x.key.kek, p.clientRandom, x.serverRandom, p.premaster, Some(x.key.spki))
  {
  }

  lemma FrameBody(kind: byte, body: Bytes)
    ensures |Frame(Message(kind, body))| == |body| + 4 && Frame(Message(kind, body))[4..] == body
  {
    hide Be;
  }

  /** The scene's key is what the key transport prepares for the certificate, and its message fits. */
  lemma KeyOfScene(p: Params, x: Scene)
    requires Acceptable(p, x) && Folded(p, x).Some? && Folded(p, x).value.1.Some?
    requires ExtractPoint(Folded(p, x).value.1.value).Some?
    ensures var leaf := Folded(p, x).value.1.value;
            var ukm := DeriveSharedUkm(p.h, p.clientRandom, x.serverRandom);
            && ExtractAlgorithm(leaf).Some?
            && AgreementIsFinite(p.curves, ExtractPoint(leaf).value, ukm, p.entropy)
            && SoftwareKeyTransport(p.h, p.curves, ExtractPoint(leaf).value, ExtractAlgorithm(leaf).value, ukm, p.entropy) == Ready(x.key)
            && |SentKeyExchange(p, x)| < TWO_32
  {
    hide Folded, HelloBody, HellosCarry, FitFrames, CertificateBody, CertificateVerifyBody, BuildClientKeyExchange,
         ExtractPoint, ExtractAlgorithm, AgreementIsFinite, SoftwareKeyTransport, DeriveSharedUkm, DigestToSign;
    InformedState(p, x);
  }

  /** A completed login carries data both ways: whatever either end sends is what the other end's drain loop returns. */
  lemma SessionDelivers(p: Params, x: Scene, cuts: seq<Cut>, rest: Bytes,
                        up: seq<Bytes>, down: seq<Bytes>, end: Bytes)
    requires Acceptable(p, x) && EndsStream(end)
    requires FitRecords(cuts) && EndsInContent(cuts) && Carried(cuts) == Frames(ServerFlight(x))
    ensures ServerOf(p, x).Some?
    ensures var e := ServerOf(p, x).value;
            var answer := ServerAnswer(e, ServerVerifyData(p.h, e));
            var wire := HandshakeWire(cuts) + (answer.1 + rest);
            && NeverAtInfinity(p, [], wire)
            && var r := RunLoginSpec(p, [], wire);
            && r.Ok? && r.value.st.crypto.Some?
            && var client, server := r.value.st.crypto.value, answer.0;
            && Collect([], server.read, TLS1_2, SendAll(client.write, TLS1_2, up).1 + end).data == Ok(Concat(up))
            && Collect([], client.read, TLS1_2, SendAll(server.write, TLS1_2, down).1 + end).data == Ok(Concat(down))
  {
    hide *;
    ServerAtTheEnd(p, x);
    var e := ServerOf(p, x).value;
    var vd := ServerVerifyData(p.h, e);
    LoginAgrees(p, x, cuts, vd, rest);
    StreamDelivered(ServerAnswer(e, vd).0.read, TLS1_2, up, end);
    StreamDelivered(ServerAnswer(e, vd).0.write, TLS1_2, down, end);
  }

  lemma AnswerAdvances(p: Params, x: Scene, e: ServerEnd, vd: VerifyData)
    requires Acceptable(p, x) && SecondFlight(p, Informed(p, x), x.key).Ok?
    requires var s := SecondFlight(p, Informed(p, x), x.key).value.st;
             s.crypto.Some? && e.ep.write == s.crypto.value.read
    ensures ServerAnswer(e, vd).0.write.seqNum == 1 && ServerAnswer(e, vd).0.read == e.ep.read
  {
    hide Frame, HandshakeRecord, EncodeRecord, LeafTransport, LeafAgreementIsFinite, Folded, Seal, FinishedData,
         BuildClientKeyExchange, CertificateBody, CertificateVerifyBody, MasterSecret, DeriveKeys, IdentityBodies, HelloBody;
    InformedState(p, x);
    IdentityIsProved(p, Informed(p, x), x.key);
    FinishedKeepsCrypto(p.h, ProveIdentity(p, Informed(p, x), x.key).value.st);
    SealAdvances(e.ep.write, Handshake, TLS1_2, Frame(Message(FINISHED, vd)));
  }
}
