/** Record protection of the GOST CNT_IMIT suites: one running code and one running keystream
    per direction, never reset between records (RFC 5246 section 6.2.3.1, RFC 9189 section 4.3.2). */
module RecordProtection {
  import opened Bytes
  import opened Gost28147
  import opened CntMode
  import opened ImitMode

  datatype ContentType = ChangeCipherSpec | Alert | Handshake | ApplicationData {
    function Code(): byte {
      match this
      case ChangeCipherSpec => 20
      case Alert => 21
      case Handshake => 22
      case ApplicationData => 23
    }
  }

  datatype Version = Version(major: byte, minor: byte)

  const TLS1_2 := Version(3, 3)

  datatype OpenResult = Opened(fragment: Bytes) | Short | BadMac

  // ----- one direction as a value -----

  /** The keys of a direction, all authenticated data so far, the keystream position, the sequence number. */
  datatype Direction = Direction(macKey: Key, encKey: Key, iv: Block, maced: Bytes, used: nat, seqNum: u64) {
    function MacSetup(): Setup { Setup(macKey, Zeros(8), true) }

    function EncSetup(): Setup { Setup(encKey, iv, true) }

    function RunningTag(): Tag { ImitTag(MacSetup(), maced) }

    function Advance(): Direction { this.(seqNum := (seqNum + 1) % TWO_64) }
  }

  /** One end of a connection: the direction it writes and the direction it reads. */
  datatype Endpoint = Endpoint(write: Direction, read: Direction)

  function Start(macKey: Key, encKey: Key, iv: Block): Direction {
    Direction(macKey, encKey, iv, [], 0, 0)
  }

  /** `seq_num(8) | type(1) | version(2) | length(2) | fragment`, the length cut to 16 bits. */
  function MacedData(seqNum: u64, ct: ContentType, v: Version, fragment: Bytes): Bytes {
    Be(seqNum, 8) + [ct.Code(), v.major, v.minor] + Be(|fragment|, 2) + fragment
  }

  /** What the code of a record covers, field by field: the full sequence number, type, version, the low 16 bits of the
      length, and the fragment, all numbers most significant byte first. */
  ghost predicate IsMacInput(m: Bytes, seqNum: nat, ct: ContentType, v: Version, fragment: Bytes) {
    && |m| == 13 + |fragment|
    && BeNat(m[..8]) == seqNum
    && m[8] == (match ct case ChangeCipherSpec => 20 case Alert => 21 case Handshake => 22 case ApplicationData => 23)
    && m[9] == v.major && m[10] == v.minor
    && BeNat(m[11..13]) == |fragment| % 0x1_0000
    && m[13..] == fragment
  }

  lemma MacedLayout(seqNum: u64, ct: ContentType, v: Version, fragment: Bytes)
    ensures IsMacInput(MacedData(seqNum, ct, v, fragment), seqNum, ct, v, fragment)
  {
    hide Be, BeNat, Pow;
    var m := MacedData(seqNum, ct, v, fragment);
    Pow256Values();
    BeNatOfBe(seqNum, 8);
    LowDigits(|fragment|, 2);
    assert m[..8] == Be(seqNum, 8) && m[11..13] == Be(|fragment|, 2);
  }

  /** The direction after authenticating `fragment` and using keystream for it and its tag. */
  function Absorb(d: Direction, ct: ContentType, v: Version, fragment: Bytes): Direction {
    d.(maced := d.maced + MacedData(d.seqNum, ct, v, fragment), used := d.used + |fragment| + 4)
  }

  /** Authenticate, append the tag, encrypt. */
  function Seal(d: Direction, ct: ContentType, v: Version, fragment: Bytes): (Direction, Bytes) {
    var d' := Absorb(d, ct, v, fragment);
    (d'.Advance(), Masked(d.EncSetup(), d.used, fragment + d'.RunningTag()))
  }

  /** Decrypt, split off the tag, compare; a failure leaves the stream positions advanced. */
  function Open(d: Direction, ct: ContentType, v: Version, payload: Bytes): (Direction, OpenResult) {
    if |payload| < 4 then (d, Short)
    else
      var buf := Masked(d.EncSetup(), d.used, payload);
      var fragment, tag := buf[..|buf| - 4], buf[|buf| - 4..];
      var d' := Absorb(d, ct, v, fragment);
      if d'.RunningTag() == tag then (d'.Advance(), Opened(fragment)) else (d', BadMac)
  }

  /** What a sealed record hides: under the keystream from the writer's position, the fragment and after it the code of
      everything authenticated so far, this record included. The writer goes on behind it with the next number. */
  lemma SealedContent(d: Direction, ct: ContentType, v: Version, fragment: Bytes)
    ensures var r := Seal(d, ct, v, fragment);
            var maced := d.maced + MacedData(d.seqNum, ct, v, fragment);
            && Masked(Setup(d.encKey, d.iv, true), d.used, r.1) == fragment + ImitTag(Setup(d.macKey, Zeros(8), true), maced)
            && r.0.maced == maced && r.0.used == d.used + |r.1| && |r.1| == |fragment| + 4
            && r.0.seqNum == (d.seqNum + 1) % 0x1_0000_0000_0000_0000
            && r.0.macKey == d.macKey && r.0.encKey == d.encKey && r.0.iv == d.iv
  {
    hide ImitTag, MacedData, Masked;
    MaskedTwice(d.EncSetup(), d.used, fragment + Absorb(d, ct, v, fragment).RunningTag());
  }

  /** A reader in the writer's state recovers the fragment and ends in the writer's new state. */
  lemma OpenAfterSeal(d: Direction, ct: ContentType, v: Version, fragment: Bytes)
    ensures Open(d, ct, v, Seal(d, ct, v, fragment).1) == (Seal(d, ct, v, fragment).0, Opened(fragment))
  {
    hide ImitTag, MacedData, Masked;
    var tag := Absorb(d, ct, v, fragment).RunningTag();
    MaskedTwice(d.EncSetup(), d.used, fragment + tag);
    assert (fragment + tag)[..|fragment|] == fragment && (fragment + tag)[|fragment|..] == tag;
  }

  /** A reader accepts a payload as `fragment` exactly when a writer in the same state would have sent it. */
  lemma AcceptedExactlyWhenSealed(d: Direction, ct: ContentType, v: Version, payload: Bytes, fragment: Bytes)
    ensures Open(d, ct, v, payload).1 == Opened(fragment) <==> Seal(d, ct, v, fragment).1 == payload
    ensures Open(d, ct, v, payload).1.Opened? ==>
              Open(d, ct, v, payload).0 == Seal(d, ct, v, Open(d, ct, v, payload).1.fragment).0
  {
    hide ImitTag, MacedData, Masked;
    OpenAfterSeal(d, ct, v, fragment);
    if Open(d, ct, v, payload).1.Opened? {
      var buf := Masked(d.EncSetup(), d.used, payload);
      assert buf == buf[..|buf| - 4] + buf[|buf| - 4..];
      MaskedTwice(d.EncSetup(), d.used, payload);
    }
  }

  /** After a bad code the keystream has moved on by the whole payload and the running code by one record, the sequence
      number has not; a payload shorter than a code changes nothing. */
  lemma RefusedRecord(d: Direction, ct: ContentType, v: Version, payload: Bytes)
    ensures |payload| < 4 <==> Open(d, ct, v, payload).1 == Short
    ensures |payload| < 4 ==> Open(d, ct, v, payload).0 == d
    ensures Open(d, ct, v, payload).1 == BadMac ==>
              var r, data := Open(d, ct, v, payload).0, Masked(d.EncSetup(), d.used, payload);
              && r.used == d.used + |payload| && r.seqNum == d.seqNum
              && r.maced == d.maced + MacedData(d.seqNum, ct, v, data[..|payload| - 4])
              && ImitTag(d.MacSetup(), r.maced) != data[|payload| - 4..]
  {
    hide ImitTag, MacedData, Masked;
  }

  // ----- the objects -----

  class DirectionState {
    const cnt: CntKeystream
    const imit: ImitContext
    var seqNum: u64

    ghost function Footprint(): set<object> { {this, cnt, imit, imit.tail} }

    ghost predicate Valid()
      reads Footprint()
    {
      && cnt.Valid() && imit.Valid() && cnt.Position() >= 0
      && cnt.setup.meshing && imit.setup.meshing && imit.setup.iv == Zeros(8)
    }

    ghost function View(): Direction
      requires Valid()
      reads Footprint()
    {
      Direction(imit.setup.key, cnt.setup.key, cnt.setup.iv, imit.Absorbed(), cnt.Position(), seqNum)
    }

    constructor (macKey: Key, encKey: Key, iv: Block)
      ensures Valid() && fresh(Footprint()) && View() == Start(macKey, encKey, iv)
    {
      hide CntKeystream.ValidCipher, ImitContext.ValidCore, Gamma, Fold, Masked, MacedData, ImitTag;
      cnt := new CntKeystream(encKey, iv, true);
      imit := new ImitContext(macKey, Zeros(8), true);
      seqNum := 0;
    }

    /** Add a record to the running code and take the tag. */
    method Authenticate(ct: ContentType, v: Version, fragment: Bytes) returns (tag: Tag)
      requires Valid()
      modifies imit, imit.tail
      ensures Valid() && View() == Absorb(old(View()), ct, v, fragment).(used := old(View()).used)
      ensures tag == Absorb(old(View()), ct, v, fragment).RunningTag()
    {
      hide CntKeystream.ValidCipher, ImitContext.ValidCore, Gamma, Fold, Masked, MacedData, ImitTag;
      imit.Update(MacedData(seqNum, ct, v, fragment));
      tag := imit.Finalize();
    }

    /** Combine a payload with the keystream. */
    method Crypt(data: Bytes) returns (out: Bytes)
      requires Valid()
      modifies cnt
      ensures Valid() && View() == old(View()).(used := old(View()).used + |data|)
      ensures out == Masked(old(View()).EncSetup(), old(View()).used, data)
    {
      hide CntKeystream.ValidCipher, ImitContext.ValidCore, Gamma, Fold, Masked, MacedData, ImitTag;
      var buf := new byte[|data|](i requires 0 <= i < |data| => data[i]);
      assert buf[..] == data;
      cnt.Apply(buf);
      out := buf[..];
    }

    method NextRecord()
      requires Valid()
      modifies this
      ensures Valid() && View() == old(View()).Advance()
    {
      hide CntKeystream.Valid, CntKeystream.Position, ImitContext.Valid, ImitContext.Absorbed;
      seqNum := (seqNum + 1) % TWO_64;
    }
  }

  class RecordCrypto {
    const write: DirectionState
    const read: DirectionState

    ghost predicate Valid()
      reads write.Footprint(), read.Footprint()
    {
      write.Valid() && read.Valid() && write.Footprint() !! read.Footprint()
    }

    constructor (clientMac: Key, clientEnc: Key, clientIv: Block, serverMac: Key, serverEnc: Key, serverIv: Block)
      ensures Valid() && fresh(write.Footprint()) && fresh(read.Footprint())
      ensures write.View() == Start(clientMac, clientEnc, clientIv)
      ensures read.View() == Start(serverMac, serverEnc, serverIv)
    {
      hide CntKeystream.ValidCipher, ImitContext.ValidCore, Gamma, Fold, Masked, MacedData, ImitTag;
      write := new DirectionState(clientMac, clientEnc, clientIv);
      read := new DirectionState(serverMac, serverEnc, serverIv);
    }

    method Protect(ct: ContentType, v: Version, plaintext: Bytes) returns (out: Bytes)
      requires Valid()
      modifies write.Footprint()
      ensures Valid() && read.View() == old(read.View())
      ensures (write.View(), out) == Seal(old(write.View()), ct, v, plaintext)
    {
      hide DirectionState.Valid, DirectionState.View, Masked, MacedData, ImitTag;
      var tag := write.Authenticate(ct, v, plaintext);
      out := write.Crypt(plaintext + tag);
      write.NextRecord();
    }

    method Unprotect(ct: ContentType, v: Version, ciphertext: Bytes) returns (r: OpenResult)
      requires Valid()
      modifies read.Footprint()
      ensures Valid() && write.View() == old(write.View())
      ensures (read.View(), r) == Open(old(read.View()), ct, v, ciphertext)
    {
      hide DirectionState.Valid, DirectionState.View, Masked, MacedData, ImitTag;
      if |ciphertext| < 4 {
        return Short;
      }
      var buf := read.Crypt(ciphertext);
      var split := |buf| - 4;
      var expected := read.Authenticate(ct, v, buf[..split]);
      var same := ConstantTimeEq(expected, buf[split..]);
      if !same {
        return BadMac;
      }
      read.NextRecord();
      return Opened(buf[..split]);
    }
  }
}
