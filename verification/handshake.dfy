/** The client handshake: the running transcript, the messages the client builds, and the state
    machine that derives the connection secrets (RFC 5246 section 7.4). */
module ClientSide {
  import opened Bytes
  import opened RecordProtection
  import opened Prf
  import opened KeyTransport
  import opened HandshakeMessages
  import opened Tls

  datatype HandshakeError = ServerRandomMissing | MasterSecretMissing | BadServerFinished

  datatype Outcome<+T> = Done(value: T) | Refused(error: HandshakeError)

  // ----- message bodies -----

  function Suites(cs: seq<u16>): Bytes {
    if cs == [] then [] else Be(cs[0], 2) + Suites(cs[1..])
  }

  function BuildClientHello(v: Version, random: Key, sessionId: Bytes, suites: seq<u16>, extensions: Bytes): Bytes
    requires |sessionId| <= 32
  {
    hide Be, Suites;
    [v.major, v.minor] + random + [|sessionId|] + sessionId
    + Be(|suites| * 2, 2) + Suites(suites) + [1, 0]
    + if extensions == [] then [] else Be(|extensions|, 2) + extensions
  }

  lemma {:induction false} SuitesSnoc(cs: seq<u16>, c: u16)
    ensures Suites(cs + [c]) == Suites(cs) + Be(c, 2)
  {
    hide Be;
    if cs == [] {
      assert [c][1..] == [];
    } else {
      assert (cs + [c])[1..] == cs[1..] + [c];
      SuitesSnoc(cs[1..], c);
      ConcatAssoc(Be(cs[0], 2), Suites(cs[1..]), Be(c, 2));
    }
  }

  /** Each suite in its two bytes, in order. */
  lemma {:induction false} SuiteBytes(cs: seq<u16>, i: nat)
    requires i < |cs|
    ensures |Suites(cs)| == 2 * |cs| && BeNat(Suites(cs)[2 * i..2 * i + 2]) == cs[i]
  {
    hide Be, BeNat, Pow;
    SuitesLength(cs);
    SuitesLength(cs[1..]);
    var rest := Suites(cs[1..]);
    if i == 0 {
      Pow256Values();
      BeNatOfBe(cs[0], 2);
      assert Suites(cs)[0..2] == Be(cs[0], 2);
    } else {
      SuiteBytes(cs[1..], i - 1);
      assert Suites(cs)[2 * i..2 * i + 2] == rest[2 * (i - 1)..2 * i];
    }
  }

  lemma {:induction false} SuitesLength(cs: seq<u16>)
    ensures |Suites(cs)| == 2 * |cs|
  {
    hide Be;
    if cs != [] {
      SuitesLength(cs[1..]);
    }
  }

  /** A client hello field by field: version, random, the session id behind its byte, the suites behind their length, one
      compression method, the null one, and the extensions, if there are any, behind theirs. */
  lemma ClientHelloLayout(v: Version, random: Key, sessionId: Bytes, suites: seq<u16>, extensions: Bytes)
    requires |sessionId| <= 32
    ensures var b, n, k := BuildClientHello(v, random, sessionId, suites, extensions), |sessionId|, 2 * |suites|;
            && |b| == 39 + n + k + (if extensions == [] then 0 else 2 + |extensions|)
            && b[0] == v.major && b[1] == v.minor && b[2..34] == random
            && b[34] == n && b[35..35 + n] == sessionId
            && BeNat(b[35 + n..37 + n]) == k % 0x1_0000 && b[37 + n..37 + n + k] == Suites(suites)
            && b[37 + n + k] == 1 && b[38 + n + k] == 0
            && (extensions != [] ==>
                  && BeNat(b[39 + n + k..41 + n + k]) == |extensions| % 0x1_0000
                  && b[41 + n + k..] == extensions)
  {
    hide Be, BeNat, Pow, Suites;
    SuitesLength(suites);
    Pow256Values();
    LowDigits(2 * |suites|, 2);
    LowDigits(|extensions|, 2);
    var b, n, k := BuildClientHello(v, random, sessionId, suites, extensions), |sessionId|, 2 * |suites|;
    assert b[35 + n..37 + n] == Be(k, 2);
    if extensions != [] {
      assert b[39 + n + k..41 + n + k] == Be(|extensions|, 2);
    }
  }

  method WriteClientHello(v: Version, random: Key, sessionId: Bytes, suites: seq<u16>, extensions: Bytes)
    returns (out: Bytes)
    requires |sessionId| <= 32
    ensures out == BuildClientHello(v, random, sessionId, suites, extensions)
  {
    hide Be, Suites;
    out := [v.major, v.minor];
    out := out + random;
    out := out + [|sessionId|];
    out := out + sessionId;
    out := out + Be(|suites| * 2, 2);
    ghost var head := out;
    NoSuites();
    assert head + [] == head;
    for i := 0 to |suites|
      invariant out == head + Suites(suites[..i])
    {
      assert suites[..i + 1] == suites[..i] + [suites[i]];
      SuitesSnoc(suites[..i], suites[i]);
      ConcatAssoc(head, Suites(suites[..i]), Be(suites[i], 2));
      out := out + Be(suites[i], 2);
    }
    assert suites[..|suites|] == suites;
    out := out + [1, 0];
    if extensions != [] {
      ConcatAssoc(out, Be(|extensions|, 2), extensions);
      out := out + Be(|extensions|, 2);
      out := out + extensions;
    } else {
      assert out + [] == out;
    }
  }

  lemma NoSuites()
    ensures Suites([]) == []
  {
  }

  lemma {:induction false} CertificateListSnoc(chain: seq<Bytes>, cert: Bytes)
    ensures CertificateList(chain + [cert]) == CertificateList(chain) + (Be(|cert|, 3) + cert)
  {
    hide Be;
    if chain == [] {
      assert [cert][1..] == [];
      assert CertificateList([cert]) == Be(|cert|, 3) + cert + CertificateList([]);
    } else {
      assert (chain + [cert])[1..] == chain[1..] + [cert];
      CertificateListSnoc(chain[1..], cert);
    }
  }

  method EncodeCertificates(chain: seq<Bytes>) returns (body: Bytes)
    ensures body == CertificateBody(chain)
  {
    hide Be;
    var list: Bytes := [];
    for i := 0 to |chain|
      invariant list == CertificateList(chain[..i])
    {
      assert chain[..i + 1] == chain[..i] + [chain[i]];
      CertificateListSnoc(chain[..i], chain[i]);
      list := list + (Be(|chain[i]|, 3) + chain[i]);
    }
    assert chain[..|chain|] == chain;
    body := Be(|list|, 3) + list;
  }

  // ----- the state -----

  datatype State = State(
    version: Version, transcript: Bytes, clientRandom: Key,
    serverRandom: Option<Key>, master: Option<Master>, crypto: Option<Endpoint>)
  {
    /** The transcript with one more framed message. */
    function Push(kind: byte, body: Bytes): State {
      this.(transcript := transcript + Frame(Message(kind, body)))
    }
  }

  function StartState(v: Version, random: Key, hello: Bytes): State {
    State(v, [], random, None, None, None).Push(CLIENT_HELLO, hello)
  }

  /** The client's record keys; the server's are the same two directions exchanged. */
  function ClientEndpoint(k: KeyBlock): Endpoint {
    Endpoint(Start(k.clientMac, k.clientEnc, k.clientIv), Start(k.serverMac, k.serverEnc, k.serverIv))
  }

  function ServerEndpoint(k: KeyBlock): Endpoint {
    Endpoint(Start(k.serverMac, k.serverEnc, k.serverIv), Start(k.clientMac, k.clientEnc, k.clientIv))
  }

  function ServerHelloRecorded(s: State, random: Key, body: Bytes): State {
    s.(serverRandom := Some(random)).Push(SERVER_HELLO, body)
  }

  /** Key exchange: the blob, the transcript with it, and all secrets. */
  function KeyExchanged(h: Hash, s: State, kek: Key, premaster: Key, spki: Option<Bytes>): (State, Outcome<Bytes>) {
    match s.serverRandom
    case None => (s, Refused(ServerRandomMissing))
    case Some(sr) =>
      var body := BuildClientKeyExchange(h, kek, s.clientRandom, sr, premaster, spki);
      var ms := MasterSecret(h, premaster, s.clientRandom, sr);
      var keys := DeriveKeys(h, ms, s.clientRandom, sr);
      (s.Push(CLIENT_KEY_EXCHANGE, body).(master := Some(ms), crypto := Some(ClientEndpoint(keys))), Done(body))
  }

  function FinishedByClient(h: Hash, s: State): (State, Outcome<VerifyData>) {
    match s.master
    case None => (s, Refused(MasterSecretMissing))
    case Some(ms) =>
      var vd := FinishedData(h, ms, ClientLabel(), s.transcript);
      (s.Push(FINISHED, vd), Done(vd))
  }

  /** The verdict on the server's verify data over a transcript. */
  function Verdict(h: Hash, master: Option<Master>, transcript: Bytes, vd: VerifyData): Outcome<()> {
    match master
    case None => Refused(MasterSecretMissing)
    case Some(ms) => if FinishedData(h, ms, ServerLabel(), transcript) == vd then Done(()) else Refused(BadServerFinished)
  }

  /** The same verify data is accepted over one transcript and refused over another. */
  lemma VerdictTellsTranscripts(master: Master)
    ensures exists vd ::
              && Verdict(LastByteHash, Some(master), [1], vd) == Done(())
              && Verdict(LastByteHash, Some(master), [2], vd) == Refused(BadServerFinished)
  {
    hide FinishedData;
    FinishedOfLastByte(master, ServerLabel(), [1]);
    FinishedOfLastByte(master, ServerLabel(), [2]);
    var vd := FinishedData(LastByteHash, master, ServerLabel(), [1]);
    assert vd[0] != FinishedData(LastByteHash, master, ServerLabel(), [2])[0];
    assert Verdict(LastByteHash, Some(master), [1], vd) == Done(());
  }

  function ServerFinishedVerdict(h: Hash, s: State, vd: VerifyData): Outcome<()> {
    Verdict(h, s.master, s.transcript, vd)
  }

  // ----- the object -----

  class ClientHandshake {
    const h: Hash
    const version: Version
    const clientRandom: Key
    var transcript: Bytes
    var serverRandom: Option<Key>
    var master: Option<Master>
    var recordCrypto: RecordCrypto?

    /** The objects of the record protection. */
    ghost function Owned(): set<object>
      reads this
    {
      if recordCrypto == null then {} else recordCrypto.write.Footprint() + recordCrypto.read.Footprint()
    }

    ghost predicate Valid()
      reads this, Owned()
    {
      recordCrypto != null ==> recordCrypto.Valid() && this !in Owned()
    }

    ghost function View(): State
      requires Valid()
      reads this, Owned()
    {
      State(version, transcript, clientRandom, serverRandom, master,
            if recordCrypto == null then None
            else Some(Endpoint(recordCrypto.write.View(), recordCrypto.read.View())))
    }

    constructor (h: Hash, v: Version, random: Key, hello: Bytes)
      ensures this.h == h && Valid() && fresh(Owned()) && View() == StartState(v, random, hello)
    {
      this.h := h;
      version := v;
      clientRandom := random;
      transcript := Frame(Message(CLIENT_HELLO, hello));
      serverRandom := None;
      master := None;
      recordCrypto := null;
      new;
      assert [] + Frame(Message(CLIENT_HELLO, hello)) == Frame(Message(CLIENT_HELLO, hello));
    }

    method PushMessage(kind: byte, body: Bytes)
      requires Valid()
      modifies this`transcript
      ensures Valid() && View() == old(View()).Push(kind, body)
    {
      hide Frame, RecordCrypto.Valid, DirectionState.View;
      transcript := transcript + Frame(Message(kind, body));
    }

    method RecordServerHello(random: Key, body: Bytes)
      requires Valid()
      modifies this`transcript, this`serverRandom
      ensures Valid() && View() == ServerHelloRecorded(old(View()), random, body)
    {
      hide Frame, RecordCrypto.Valid, DirectionState.View;
      serverRandom := Some(random);
      transcript := transcript + Frame(Message(SERVER_HELLO, body));
    }

    method ClientCertificate(chain: seq<Bytes>) returns (body: Bytes)
      requires Valid()
      modifies this`transcript
      ensures Valid() && body == CertificateBody(chain) && View() == old(View()).Push(CERTIFICATE, body)
    {
      hide Frame, RecordCrypto.Valid, DirectionState.View, CertificateBody;
      body := EncodeCertificates(chain);
      PushMessage(CERTIFICATE, body);
    }

    method KeyExchange(kek: Key, premaster: Key, spki: Option<Bytes>) returns (r: Outcome<Bytes>)
      requires Valid()
      modifies this`transcript, this`master, this`recordCrypto
      ensures Valid() && (View(), r) == KeyExchanged(h, old(View()), kek, premaster, spki)
      ensures r.Done? ==> fresh(Owned())
      ensures r.Refused? ==> recordCrypto == old(recordCrypto)
    {
      hide Frame, RecordCrypto.Valid, DirectionState.View, BuildClientKeyExchange, MasterSecret, DeriveKeys;
      if serverRandom == None {
        return Refused(ServerRandomMissing);
      }
      var sr := serverRandom.value;
      var body := WriteClientKeyExchange(h, kek, clientRandom, sr, premaster, spki);
      transcript := transcript + Frame(Message(CLIENT_KEY_EXCHANGE, body));
      var ms := MasterSecret(h, premaster, clientRandom, sr);
      var k := SplitKeyBlock(h, ms, clientRandom, sr);
      master := Some(ms);
      recordCrypto := new RecordCrypto(k.clientMac, k.clientEnc, k.clientIv, k.serverMac, k.serverEnc, k.serverIv);
      r := Done(body);
    }

    /** The transcript hash the token signs. */
    function CertificateVerifyDigest(): (digest: Key)
      requires Valid()
      reads this, Owned()
      ensures digest == h(View().transcript)
    {
      h(transcript)
    }

    method ClientFinished() returns (r: Outcome<VerifyData>)
      requires Valid()
      modifies this`transcript
      ensures Valid() && (View(), r) == FinishedByClient(h, old(View()))
    {
      hide Frame, RecordCrypto.Valid, DirectionState.View, FinishedData;
      if master == None {
        return Refused(MasterSecretMissing);
      }
      var vd := FinishedData(h, master.value, ClientLabel(), transcript);
      PushMessage(FINISHED, vd);
      r := Done(vd);
    }

    method VerifyServerFinished(vd: VerifyData) returns (r: Outcome<()>)
      ensures r == Verdict(h, master, transcript, vd)
    {
      hide FinishedData;
      if master == None {
        return Refused(MasterSecretMissing);
      }
      var expected := FinishedData(h, master.value, ServerLabel(), transcript);
      var same := ConstantTimeEq(expected, vd);
      r := if same then Done(()) else Refused(BadServerFinished);
    }
  }
}
