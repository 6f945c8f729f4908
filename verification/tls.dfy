/** The TLS wire layer: records on a byte stream and handshake messages reassembled across
    records (RFC 5246 sections 6.2.1 and 7.4). */
module Tls {
  import opened Bytes
  import opened RecordProtection
  import opened HandshakeMessages

  // ----- records -----

  datatype Record = Record(ct: ContentType, v: Version, payload: Bytes)

  function ContentTypeOf(b: byte): Option<ContentType> {
    if b == 20 then Some(ChangeCipherSpec)
    else if b == 21 then Some(Alert)
    else if b == 22 then Some(Handshake)
    else if b == 23 then Some(ApplicationData)
    else None
  }

  /** Header and fragment; the length field is the length cut to 16 bits. */
  function EncodeRecord(r: Record): Bytes {
    [r.ct.Code(), r.v.major, r.v.minor] + Be(|r.payload|, 2) + r.payload
  }

  /** A record field by field: the type code, the version, the low 16 bits of the length, the payload. */
  lemma RecordLayout(r: Record)
    ensures var e := EncodeRecord(r);
            && |e| == 5 + |r.payload|
            && e[0] == (match r.ct case ChangeCipherSpec => 20 case Alert => 21 case Handshake => 22 case ApplicationData => 23)
            && e[1] == r.v.major && e[2] == r.v.minor
            && BeNat(e[3..5]) == |r.payload| % 0x1_0000 && e[5..] == r.payload
  {
    hide Be, BeNat, Pow;
    Pow256Values();
    LowDigits(|r.payload|, 2);
    assert EncodeRecord(r)[3..5] == Be(|r.payload|, 2);
  }

  /** The first record of a byte stream and the bytes after it; none at end of stream or for an unknown type. */
  function ReadRecord(wire: Bytes): (r: Option<(Record, Bytes)>)
    ensures r.Some? ==> |r.value.0.payload| + |r.value.1| < |wire|
  {
    if |wire| < 5 then None
    else
      var len := BeNat(wire[3..5]);
      match ContentTypeOf(wire[0])
      case None => None
      case Some(ct) =>
        if |wire| < 5 + len then None
        else Some((Record(ct, Version(wire[1], wire[2]), wire[5..5 + len]), wire[5 + len..]))
  }

  /** A record is read back as it was written exactly when its payload fits the 16-bit length. */
  lemma RecordRoundTripExactly(r: Record, rest: Bytes)
    ensures ReadRecord(EncodeRecord(r) + rest) == Some((r, rest)) <==> |r.payload| < 0x1_0000
  {
    var e := EncodeRecord(r) + rest;
    assert e[3..5] == Be(|r.payload|, 2);
    LowBytes(|r.payload|, 2);
    Pow256Values();
    if |r.payload| < 0x1_0000 {
      assert e[5..5 + |r.payload|] == r.payload && e[5 + |r.payload|..] == rest;
    } else {
      BeNatBound(Be(|r.payload|, 2));
    }
  }

  /** Whatever is read as a record stands on the wire as its encoding, followed by the rest. */
  lemma ReadIsEncoded(wire: Bytes)
    requires ReadRecord(wire).Some?
    ensures var r := ReadRecord(wire).value; EncodeRecord(r.0) + r.1 == wire && |r.0.payload| < 0x1_0000
  {
    hide Be, BeNat;
    var len := BeNat(wire[3..5]);
    BeRoundTrip(wire[3..5]);
    BeNatBound(wire[3..5]);
    Pow256Values();
    assert wire == [wire[0], wire[1], wire[2]] + wire[3..5] + wire[5..5 + len] + wire[5 + len..];
  }

  /** What is left of the wire when no record can be read: a short read takes everything there is,
      an unknown type is noticed after the header. */
  function AfterFailure(wire: Bytes): Bytes {
    if |wire| >= 5 && ContentTypeOf(wire[0]) == None then wire[5..] else []
  }

  lemma LowBytes(n: nat, k: nat)
    ensures n < Pow(0x100, k) ==> BeNat(Be(n, k)) == n
  {
    if n < Pow(0x100, k) {
      BeNatOfBe(n, k);
    }
  }

  // ----- handshake messages -----

  datatype Message = Message(kind: byte, body: Bytes)

  /** `type(1) | length(3) | body`, the length cut to 24 bits. */
  function Frame(m: Message): Bytes {
    [m.kind] + Be(|m.body|, 3) + m.body
  }

  /** A framed message field by field: the type, the low 24 bits of the length, the body. */
  lemma FrameLayout(m: Message)
    ensures var f := Frame(m);
            && |f| == 4 + |m.body| && f[0] == m.kind
            && BeNat(f[1..4]) == |m.body| % 0x100_0000 && f[4..] == m.body
  {
    hide Be, BeNat, Pow;
    Pow256Values();
    LowDigits(|m.body|, 3);
    assert Frame(m)[1..4] == Be(|m.body|, 3);
  }

  function Frames(ms: seq<Message>): Bytes {
    if ms == [] then [] else Frame(ms[0]) + Frames(ms[1..])
  }

  /** The length a buffered message needs, header included. */
  function Needed(buf: Bytes): (n: nat)
    requires |buf| >= 4
    ensures n >= 4
  {
    4 + BeNat(buf[1..4])
  }

  predicate Complete(buf: Bytes)
    ensures Complete(buf) ==> |buf| >= 4 && |buf| >= Needed(buf)
  {
    |buf| >= 4 && |buf| >= Needed(buf)
  }

  function FirstMessage(buf: Bytes): Message
    requires Complete(buf)
  {
    Message(buf[0], buf[4..Needed(buf)])
  }

  lemma FrameIsComplete(m: Message, rest: Bytes)
    requires |m.body| < 0x100_0000
    ensures var b := Frame(m) + rest;
            Complete(b) && Needed(b) == |Frame(m)| && FirstMessage(b) == m && b[Needed(b)..] == rest
  {
    var b := Frame(m) + rest;
    assert b[1..4] == Be(|m.body|, 3);
    Pow256Values();
    BeNatOfBe(|m.body|, 3);
  }

  /** A framed message is found whole in front of what follows it exactly when its body fits the 24-bit length. */
  lemma FrameRoundTripExactly(m: Message, rest: Bytes)
    ensures var b := Frame(m) + rest;
            Complete(b) && FirstMessage(b) == m && b[Needed(b)..] == rest <==> |m.body| < 0x100_0000
  {
    hide Be, BeNat, Pow;
    if |m.body| < 0x100_0000 {
      FrameIsComplete(m, rest);
    } else {
      var b := Frame(m) + rest;
      assert b[1..4] == Be(|m.body|, 3);
      BeNatBound(Be(|m.body|, 3));
      Pow256Values();
    }
  }

  lemma CompleteIsFrame(buf: Bytes)
    requires Complete(buf)
    ensures Frame(FirstMessage(buf)) == buf[..Needed(buf)]
    ensures |FirstMessage(buf).body| < 0x100_0000
  {
    BeRoundTrip(buf[1..4]);
    BeNatBound(buf[1..4]);
    Pow256Values();
    assert buf[..Needed(buf)] == [buf[0]] + buf[1..4] + buf[4..Needed(buf)];
  }

  /** A proper prefix of a frame is not a complete message. */
  lemma PrefixIsIncomplete(m: Message, rest: Bytes, buf: Bytes, more: Bytes)
    requires |m.body| < 0x100_0000 && buf + more == Frame(m) + rest
    ensures Complete(buf) <==> |buf| >= |Frame(m)|
    ensures Complete(buf) ==> FirstMessage(buf) == m && Needed(buf) == |Frame(m)|
                              && buf[Needed(buf)..] + more == rest
  {
    FrameIsComplete(m, rest);
    var b := Frame(m) + rest;
    if |buf| >= 4 {
      assert buf[1..4] == b[1..4];
      assert buf[0] == b[0];
      if |buf| >= |Frame(m)| {
        assert buf[4..|Frame(m)|] == b[4..|Frame(m)|];
        assert buf[|Frame(m)|..] + more == b[|Frame(m)|..];
      }
    }
  }

  // ----- receiving one message -----

  datatype RecvError = NoRecord | ShortAlert | AlertReceived(level: byte, description: byte) | Unexpected(ct: ContentType)

  datatype Received<+T> = Got(value: T) | Fault(error: RecvError)

  /** The outcome of a receive, the bytes still buffered, the bytes still on the wire. */
  datatype RecvState<+T> = RecvState(result: Received<T>, buf: Bytes, wire: Bytes)

  /** Read records until the buffer holds a complete message; anything but a handshake record is an error. */
  function RecvMessage(buf: Bytes, wire: Bytes): (s: RecvState<Message>)
    ensures s.result.Got? ==> |s.buf| + |s.wire| < |buf| + |wire|
    decreases |wire|
  {
    if Complete(buf) then RecvState(Got(FirstMessage(buf)), buf[Needed(buf)..], wire)
    else
      match ReadRecord(wire)
      case None => RecvState(Fault(NoRecord), buf, AfterFailure(wire))
      case Some((r, rest)) =>
        match r.ct
        case Handshake => RecvMessage(buf + r.payload, rest)
        case Alert => RecvState(Fault(AlertFault(r.payload)), buf, rest)
        case _ => RecvState(Fault(Unexpected(r.ct)), buf, rest)
  }

  function AlertFault(payload: Bytes): RecvError {
    if |payload| < 2 then ShortAlert else AlertReceived(payload[0], payload[1])
  }

  /** What one record does to a receive that waits for more: handshake content goes on behind what is buffered, an alert
      is reported with its level and description, any other type is an error; the rest of the wire is left. */
  lemma RecordIsReceived(buf: Bytes, r: Record, rest: Bytes)
    requires |buf| < 4 || |buf| < 4 + BeNat(buf[1..4])
    requires |r.payload| < 0x1_0000
    ensures var s := RecvMessage(buf, EncodeRecord(r) + rest);
            match r.ct
            case Handshake => s == RecvMessage(buf + r.payload, rest)
            case Alert =>
              && s.buf == buf && s.wire == rest
              && s.result == Fault(if |r.payload| < 2 then ShortAlert else AlertReceived(r.payload[0], r.payload[1]))
            case _ => s == RecvState(Fault(Unexpected(r.ct)), buf, rest)
  {
    hide EncodeRecord, ReadRecord, FirstMessage;
    RecordRoundTripExactly(r, rest);
  }

  function RecvMany(n: nat, buf: Bytes, wire: Bytes): RecvState<seq<Message>> {
    if n == 0 then RecvState(Got([]), buf, wire)
    else
      var s := RecvMany(n - 1, buf, wire);
      if s.result.Fault? then s
      else
        var t := RecvMessage(s.buf, s.wire);
        match t.result
        case Fault(e) => RecvState(Fault(e), t.buf, t.wire)
        case Got(m) => RecvState(Got(s.result.value + [m]), t.buf, t.wire)
  }

  /** A handshake record: its version and its share of the stream. */
  datatype Cut = Cut(v: Version, payload: Bytes)

  function HandshakeWire(cuts: seq<Cut>): Bytes {
    if cuts == [] then [] else EncodeRecord(Record(Handshake, cuts[0].v, cuts[0].payload)) + HandshakeWire(cuts[1..])
  }

  /** The stream the records carry. */
  function Carried(cuts: seq<Cut>): Bytes {
    if cuts == [] then [] else cuts[0].payload + Carried(cuts[1..])
  }

  predicate FitRecords(cuts: seq<Cut>) {
    forall i :: 0 <= i < |cuts| ==> |cuts[i].payload| < 0x1_0000
  }

  lemma HandshakeWireHead(cuts: seq<Cut>, tail: Bytes)
    requires cuts != [] && FitRecords(cuts)
    ensures ReadRecord(HandshakeWire(cuts) + tail)
         == Some((Record(Handshake, cuts[0].v, cuts[0].payload), HandshakeWire(cuts[1..]) + tail))
  {
    hide EncodeRecord, ReadRecord;
    var r := Record(Handshake, cuts[0].v, cuts[0].payload);
    ConcatAssoc(EncodeRecord(r), HandshakeWire(cuts[1..]), tail);
    RecordRoundTripExactly(r, HandshakeWire(cuts[1..]) + tail);
  }

  /** One receive returns the first message of the stream, however the stream is cut into records,
      and leaves buffered exactly what it read too much. */
  lemma {:induction false} RecvFirst(m: Message, rest: Bytes, buf: Bytes, cuts: seq<Cut>, tail: Bytes)
      returns (k: nat)
    requires |m.body| < 0x100_0000 && FitRecords(cuts)
    requires buf + Carried(cuts) == Frame(m) + rest
    ensures k <= |cuts|
    ensures var s := RecvMessage(buf, HandshakeWire(cuts) + tail);
            && s.result == Got(m)
            && s.wire == HandshakeWire(cuts[k..]) + tail
            && s.buf + Carried(cuts[k..]) == rest
    decreases |cuts|
  {
    hide Frame, Complete, Needed, FirstMessage, ReadRecord;
    PrefixIsIncomplete(m, rest, buf, Carried(cuts));
    if Complete(buf) {
      k := 0;
      assert cuts[0..] == cuts;
    } else {
      assert |Carried(cuts)| > 0;
      HandshakeWireHead(cuts, tail);
      ConcatAssoc(buf, cuts[0].payload, Carried(cuts[1..]));
      var j := RecvFirst(m, rest, buf + cuts[0].payload, cuts[1..], tail);
      k := j + 1;
      assert cuts[1..][j..] == cuts[k..];
    }
  }

  /** Conversely, every message received was the front of the stream that the records consumed carry,
      and the buffer keeps what they carry beyond it. */
  lemma {:induction false} RecvConsumed(buf: Bytes, wire: Bytes) returns (cuts: seq<Cut>)
    requires RecvMessage(buf, wire).result.Got?
    ensures FitRecords(cuts)
    ensures var s := RecvMessage(buf, wire);
            && wire == HandshakeWire(cuts) + s.wire
            && buf + Carried(cuts) == Frame(s.result.value) + s.buf
            && |s.result.value.body| < 0x100_0000
    decreases |wire|
  {
    hide Frame, Complete, Needed, FirstMessage, ReadRecord, EncodeRecord;
    if Complete(buf) {
      cuts := [];
      CompleteIsFrame(buf);
      CompleteSplits(buf);
      assert [] + wire == wire && buf + [] == buf;
    } else {
      ReadIsEncoded(wire);
      var r := ReadRecord(wire).value;
      var more := RecvConsumed(buf + r.0.payload, r.1);
      cuts := [Cut(r.0.v, r.0.payload)] + more;
      assert cuts[1..] == more;
      var s := RecvMessage(buf, wire);
      ConcatAssoc(EncodeRecord(r.0), HandshakeWire(more), s.wire);
      ConcatAssoc(buf, r.0.payload, Carried(more));
    }
  }

  lemma CompleteSplits(buf: Bytes)
    requires Complete(buf)
    ensures buf == buf[..Needed(buf)] + buf[Needed(buf)..]
  {
  }

  predicate FitFrames(ms: seq<Message>) {
    forall i :: 0 <= i < |ms| ==> |ms[i].body| < 0x100_0000
  }

  lemma {:induction false} FramesSnoc(ms: seq<Message>, m: Message)
    ensures Frames(ms + [m]) == Frames(ms) + Frame(m)
  {
    hide Frame;
    if ms != [] {
      assert (ms + [m])[1..] == ms[1..] + [m];
      FramesSnoc(ms[1..], m);
    }
  }

  /** Any list of messages, framed, concatenated, and cut into handshake records in any way, is
      received as exactly that list; the unread rest of the stream is kept, part of it in the buffer. */
  lemma {:induction false} Reassembly(ms: seq<Message>, rest: Bytes, buf: Bytes, cuts: seq<Cut>, tail: Bytes)
      returns (k: nat)
    requires FitFrames(ms) && FitRecords(cuts)
    requires buf + Carried(cuts) == Frames(ms) + rest
    ensures k <= |cuts|
    ensures var s := RecvMany(|ms|, buf, HandshakeWire(cuts) + tail);
            && s.result == Got(ms)
            && s.wire == HandshakeWire(cuts[k..]) + tail
            && s.buf + Carried(cuts[k..]) == rest
    decreases |ms|
  {
    hide Frame, Frames, RecvMessage, RecvMany, HandshakeWire, Carried, FitFrames, FitRecords;
    if ms == [] {
      k := 0;
      NothingReceived(buf, HandshakeWire(cuts) + tail, rest);
      assert cuts[0..] == cuts;
    } else {
      var n := |ms| - 1;
      var init, last := ms[..n], ms[n];
      assert ms == init + [last];
      FramesSnoc(init, last);
      ConcatAssoc(Frames(init), Frame(last), rest);
      LastFits(ms);
      var j := Reassembly(init, Frame(last) + rest, buf, cuts, tail);
      RestFits(cuts, j);
      var s := RecvMany(n, buf, HandshakeWire(cuts) + tail);
      var i := RecvFirst(last, rest, s.buf, cuts[j..], tail);
      k := j + i;
      RecvManySnoc(n, buf, HandshakeWire(cuts) + tail, init, last);
      DropOfDrop(cuts, j, i);
    }
  }

  lemma NothingReceived(buf: Bytes, wire: Bytes, rest: Bytes)
    ensures RecvMany(0, buf, wire) == RecvState(Got([]), buf, wire) && Frames([]) + rest == rest
  {
  }

  lemma LastFits(ms: seq<Message>)
    requires FitFrames(ms) && ms != []
    ensures FitFrames(ms[..|ms| - 1]) && |ms[|ms| - 1].body| < 0x100_0000
  {
  }

  lemma RestFits(cuts: seq<Cut>, j: nat)
    requires FitRecords(cuts) && j <= |cuts|
    ensures FitRecords(cuts[j..])
  {
  }

  lemma RecvManySnoc(n: nat, buf: Bytes, wire: Bytes, ms: seq<Message>, m: Message)
    requires var s := RecvMany(n, buf, wire); s.result == Got(ms) && RecvMessage(s.buf, s.wire).result == Got(m)
    ensures var s := RecvMany(n, buf, wire);
            var t := RecvMessage(s.buf, s.wire);
            RecvMany(n + 1, buf, wire) == RecvState(Got(ms + [m]), t.buf, t.wire)
  {
    hide RecvMessage;
  }

  // ----- draining the buffer -----

  /** All complete messages at the front of the buffer, and the incomplete rest. */
  function Drain(buf: Bytes): (seq<Message>, Bytes)
    decreases |buf|
  {
    if Complete(buf) then
      var d := Drain(buf[Needed(buf)..]);
      ([FirstMessage(buf)] + d.0, d.1)
    else ([], buf)
  }

  lemma DrainUnfold(buf: Bytes)
    ensures Complete(buf) ==>
              var d := Drain(buf[Needed(buf)..]);
              Drain(buf).0 == [FirstMessage(buf)] + d.0 && Drain(buf).0[1..] == d.0 && Drain(buf).1 == d.1
    ensures !Complete(buf) ==> Drain(buf) == ([], buf)
  {
    hide FirstMessage;
  }

  /** Draining loses nothing and stops only before an incomplete message. */
  lemma {:induction false} DrainReframes(buf: Bytes)
    ensures Frames(Drain(buf).0) + Drain(buf).1 == buf
    ensures FitFrames(Drain(buf).0) && !Complete(Drain(buf).1)
    decreases |buf|
  {
    hide Frame, FirstMessage, Needed, Complete, Drain;
    DrainUnfold(buf);
    if Complete(buf) {
      var n := Needed(buf);
      DrainReframes(buf[n..]);
      CompleteIsFrame(buf);
      ConcatAssoc(buf[..n], Frames(Drain(buf[n..]).0), Drain(buf[n..]).1);
      assert buf == buf[..n] + buf[n..];
    }
  }

  lemma DrainStep(buf: Bytes, wire: Bytes)
    requires Drain(buf).0 != []
    ensures var s := RecvMessage(buf, wire);
            && s.result == Got(Drain(buf).0[0]) && s.wire == wire
            && Drain(s.buf) == (Drain(buf).0[1..], Drain(buf).1)
  {
    hide FirstMessage, Complete, Needed, Drain, ReadRecord;
    DrainUnfold(buf);
  }

  /** Receiving splits a buffer where draining does: the first n receipts return the first n messages drained,
      touch nothing on the wire, and leave a buffer that drains to the others. */
  lemma {:induction false} DrainSplitsLikeRecv(n: nat, buf: Bytes, wire: Bytes)
    requires n <= |Drain(buf).0|
    ensures var s := RecvMany(n, buf, wire);
            && s.result == Got(Drain(buf).0[..n]) && s.wire == wire
            && Drain(s.buf) == (Drain(buf).0[n..], Drain(buf).1)
  {
    hide Drain, RecvMessage;
    if n > 0 {
      DrainSplitsLikeRecv(n - 1, buf, wire);
      var all, s := Drain(buf).0, RecvMany(n - 1, buf, wire);
      DrainStep(s.buf, wire);
      RecvManySnoc(n - 1, buf, wire, all[..n - 1], all[n - 1]);
      assert all[..n] == all[..n - 1] + [all[n - 1]];
      assert all[n - 1..][1..] == all[n..] && all[n - 1..][0] == all[n - 1];
    }
  }

  /** Draining a framed list followed by an incomplete message returns the list. */
  lemma {:induction false} DrainFrames(ms: seq<Message>, rest: Bytes)
    requires FitFrames(ms) && !Complete(rest)
    ensures Drain(Frames(ms) + rest) == (ms, rest)
    decreases |ms|
  {
    hide Frame, FirstMessage, Complete, Needed, Drain;
    DrainUnfold(Frames(ms) + rest);
    if ms == [] {
      assert Frames(ms) + rest == rest;
    } else {
      assert ms == [ms[0]] + ms[1..];
      ConcatAssoc(Frame(ms[0]), Frames(ms[1..]), rest);
      FrameIsComplete(ms[0], Frames(ms[1..]) + rest);
      DrainFrames(ms[1..], rest);
    }
  }

  // ----- typed messages -----

  function DecodeEach(ms: seq<Message>): Option<seq<HandshakeMessage>> {
    if ms == [] then Some([])
    else
      match DecodeBody(ms[0].kind, ms[0].body)
      case None => None
      case Some(m) => Prepended([m], DecodeEach(ms[1..]))
  }

  /** Drain with decoding: the messages up to the first one that does not decode, which is taken off as well. */
  function DrainTyped(buf: Bytes): (Option<seq<HandshakeMessage>>, Bytes)
    decreases |buf|
  {
    if !Complete(buf) then (Some([]), buf)
    else
      var m, rest := FirstMessage(buf), buf[Needed(buf)..];
      match DecodeBody(m.kind, m.body)
      case None => (None, rest)
      case Some(hm) => (Prepended([hm], DrainTyped(rest).0), DrainTyped(rest).1)
  }

  lemma DrainTypedUnfold(buf: Bytes)
    ensures !Complete(buf) ==> DrainTyped(buf) == (Some([]), buf)
    ensures Complete(buf) ==>
              var m, rest := FirstMessage(buf), buf[Needed(buf)..];
              DrainTyped(buf) == match DecodeBody(m.kind, m.body)
                                 case None => (None, rest)
                                 case Some(hm) => (Prepended([hm], DrainTyped(rest).0), DrainTyped(rest).1)
  {
    hide FirstMessage, DecodeBody;
  }

  /** The vector read behind the type byte is the body of the first complete message. */
  lemma VectorAfterType(buf: Bytes)
    requires buf != []
    ensures ReadVector(3, buf[1..]) == if Complete(buf) then Some((FirstMessage(buf).body, buf[Needed(buf)..])) else None
  {
    hide BeNat;
    if |buf| >= 4 {
      var t, n := buf[1..], Needed(buf);
      assert t[..3] == buf[1..4];
      if |buf| >= n {
        assert t[3..n - 1] == buf[4..n] && t[n - 1..] == buf[n..];
      }
    }
  }

  /** Decoding the bytes of one framed message yields that message. */
  lemma DecodeFrame(buf: Bytes)
    requires Complete(buf)
    ensures var m := FirstMessage(buf);
            DecodeAll(buf[..Needed(buf)]) == match DecodeBody(m.kind, m.body) case None => None case Some(hm) => Some([hm])
  {
    hide DecodeBody, BeNat;
    var n := Needed(buf);
    var b := buf[..n];
    assert b[1..4] == buf[1..4] && b[4..n] == buf[4..n] && b[n..] == [];
    assert FirstMessage(b) == FirstMessage(buf);
    VectorAfterType(b);
    match DecodeBody(buf[0], b[4..n])
    case None =>
    case Some(hm) => assert [hm] + [] == [hm];
  }

  /** Draining succeeds exactly when every complete message decodes, and then returns them all. */
  lemma {:induction false} DrainTypedExactly(buf: Bytes)
    ensures DrainTyped(buf).0 == DecodeEach(Drain(buf).0)
    ensures DrainTyped(buf).0.Some? ==> DrainTyped(buf).1 == Drain(buf).1
    decreases |buf|
  {
    hide FirstMessage, DecodeBody, Needed, Complete, Drain, DrainTyped;
    DrainUnfold(buf);
    DrainTypedUnfold(buf);
    if Complete(buf) {
      DrainTypedExactly(buf[Needed(buf)..]);
    }
  }

  lemma FirstKind(buf: Bytes)
    requires Complete(buf)
    ensures FirstMessage(buf).kind == buf[0]
  {
  }

  /** Decoding a whole buffer succeeds exactly when it drains without a remainder and every message decodes. */
  lemma {:induction false} DecodeAllExactly(buf: Bytes)
    ensures DecodeAll(buf) == if Drain(buf).1 == [] then DecodeEach(Drain(buf).0) else None
    decreases |buf|
  {
    hide DecodeBody, Drain, BeNat, FirstMessage, Needed, ReadVector;
    DrainUnfold(buf);
    if buf != [] {
      VectorAfterType(buf);
      if Complete(buf) {
        FirstKind(buf);
        DecodeAllExactly(buf[Needed(buf)..]);
      }
    }
  }

  // ----- the transport object -----

  class TlsTransport {
    /** Bytes the peer has sent that are not read yet, and bytes written to the peer. */
    var wire: Bytes
    var sent: Bytes
    var handshakeBuf: Bytes

    constructor (wire: Bytes)
      ensures this.wire == wire && sent == [] && handshakeBuf == []
    {
      this.wire := wire;
      sent := [];
      handshakeBuf := [];
    }

    method SendRecord(ct: ContentType, payload: Bytes)
      modifies this`sent
      ensures sent == old(sent) + EncodeRecord(Record(ct, TLS1_2, payload))
    {
      sent := sent + EncodeRecord(Record(ct, TLS1_2, payload));
    }

    /** Fill `n` bytes from the wire; a stream that ends before that is used up. */
    method ReadExact(n: nat) returns (r: Option<Bytes>)
      modifies this`wire
      ensures if |old(wire)| < n then r == None && wire == []
              else r.Some? && |r.value| == n && r.value + wire == old(wire)
    {
      if |wire| < n {
        wire := [];
        return None;
      }
      r := Some(wire[..n]);
      wire := wire[n..];
    }

    /** Read exactly one record: the header, then as many bytes as it announces. */
    method RecvRecord() returns (r: Option<Record>)
      modifies this`wire
      ensures r.Some? ==> EncodeRecord(r.value) + wire == old(wire) && |r.value.payload| < 0x1_0000
      ensures r == None <==> |old(wire)| < 5 || ContentTypeOf(old(wire)[0]) == None
                             || |old(wire)| < 5 + BeNat(old(wire)[3..5])
      ensures r == None ==> wire == AfterFailure(old(wire))
      ensures ReadRecord(old(wire)) == if r == None then None else Some((r.value, wire))
    {
      hide BeNat;
      ghost var was := wire;
      var header := ReadExact(5);
      if header == None {
        return None;
      }
      var h := header.value;
      assert forall i :: 0 <= i < 5 ==> was[i] == h[i];
      assert was[3..5] == h[3..5] && was[5..] == wire;
      var ct := ContentTypeOf(h[0]);
      if ct == None {
        return None;
      }
      var len := BeNat(h[3..5]);
      var payload := ReadExact(len);
      if payload == None {
        return None;
      }
      assert was == h + payload.value + wire;
      assert was[5..5 + len] == payload.value && was[5 + len..] == wire;
      r := Some(Record(ct.value, Version(h[1], h[2]), payload.value));
      ReadIsEncoded(was);
    }

    method RecvHandshakeMessage() returns (r: Received<Message>)
      modifies this`wire, this`handshakeBuf
      ensures RecvState(r, handshakeBuf, wire) == RecvMessage(old(handshakeBuf), old(wire))
    {
      while true
        invariant RecvMessage(handshakeBuf, wire) == RecvMessage(old(handshakeBuf), old(wire))
        decreases |wire|
      {
        if |handshakeBuf| >= 4 {
          var total := Needed(handshakeBuf);
          if |handshakeBuf| >= total {
            var m := Message(handshakeBuf[0], handshakeBuf[4..total]);
            handshakeBuf := handshakeBuf[total..];
            return Got(m);
          }
        }
        ghost var was := wire;
        var record := RecvRecord();
        if record == None {
          return Fault(NoRecord);
        }
        match record.value.ct {
          case Handshake => handshakeBuf := handshakeBuf + record.value.payload;
          case Alert => return Fault(AlertFault(record.value.payload));
          case _ => return Fault(Unexpected(record.value.ct));
        }
      }
    }

    /** Decode all complete messages of the buffer; one that does not decode ends the drain. */
    method DrainHandshakeMessages() returns (r: Option<seq<HandshakeMessage>>)
      modifies this`handshakeBuf
      ensures (r, handshakeBuf) == DrainTyped(old(handshakeBuf))
    {
      hide DecodeAll, DecodeBody, DrainTyped, Drain, FirstMessage;
      var out: seq<HandshakeMessage> := [];
      PrependedNone(DrainTyped(handshakeBuf).0);
      while true
        invariant DrainTyped(old(handshakeBuf)) == (Prepended(out, DrainTyped(handshakeBuf).0), DrainTyped(handshakeBuf).1)
        decreases |handshakeBuf|
      {
        DrainTypedUnfold(handshakeBuf);
        if |handshakeBuf| < 4 {
          break;
        }
        var total := Needed(handshakeBuf);
        if |handshakeBuf| < total {
          break;
        }
        var message := handshakeBuf[..total];
        DecodeFrame(handshakeBuf);
        handshakeBuf := handshakeBuf[total..];
        var decoded := DecodeHandshakeMessages(message);
        if decoded == None {
          return None;
        }
        PrependedOne(out, decoded.value[0], DrainTyped(handshakeBuf).0);
        out := out + decoded.value;
      }
      assert out + [] == out;
      r := Some(out);
    }
  }
}
