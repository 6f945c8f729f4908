/** The application byte stream of an established session: payloads cut into records on the way out,
    and the drain loop that collects a whole response. */
module ApplicationStream {
  import opened Bytes
  import opened CntMode
  import opened RecordProtection
  import opened Tls
  import opened ClientSide
  import opened Login

  const MAX_PLAINTEXT := 16384

  // ----- sending -----

  /** The plaintexts of the records a payload is sent in; an empty payload is one empty record. */
  function Chunks(data: Bytes): seq<Bytes>
    decreases |data|
  {
    var n := Min(MAX_PLAINTEXT, |data|);
    [data[..n]] + if n == |data| then [] else Chunks(data[n..])
  }

  predicate WithinLimit(chunks: seq<Bytes>) {
    forall i :: 0 <= i < |chunks| ==> |chunks[i]| <= MAX_PLAINTEXT
  }

  /** Nothing lost, nothing over the limit, no empty record but for an empty payload, and as few records as possible. */
  lemma {:induction false} ChunksPartition(data: Bytes)
    ensures Concat(Chunks(data)) == data
    ensures WithinLimit(Chunks(data))
    ensures data != [] ==> forall i :: 0 <= i < |Chunks(data)| ==> Chunks(data)[i] != []
    ensures data == [] ==> Chunks(data) == [[]]
    ensures forall i :: 0 <= i < |Chunks(data)| ==> |Chunks(data)[i]| <= 16384
    ensures |Chunks(data)| == if data == [] then 1 else (|data| + 16383) / 16384
    decreases |data|
  {
    var n := Min(MAX_PLAINTEXT, |data|);
    if n < |data| {
      ChunksPartition(data[n..]);
      var c := Chunks(data);
      assert c[1..] == Chunks(data[n..]);
      assert data[..n] + data[n..] == data;
    } else {
      assert data[..n] == data;
      assert Chunks(data) == [data];
      assert Concat([data]) == data + Concat([]);
    }
  }

  function AppRecord(payload: Bytes): Bytes { EncodeRecord(Record(ApplicationData, TLS1_2, payload)) }

  /** The writer after sending the chunks as protected records, and their bytes on the wire. */
  function SendChunks(d: Direction, v: Version, chunks: seq<Bytes>): (Direction, Bytes)
    decreases |chunks|
  {
    if chunks == [] then (d, [])
    else
      var r := Seal(d, ApplicationData, v, chunks[0]);
      var more := SendChunks(r.0, v, chunks[1..]);
      (more.0, AppRecord(r.1) + more.1)
  }

  /** Payloads sent one after the other. */
  function SendAll(d: Direction, v: Version, payloads: seq<Bytes>): (Direction, Bytes)
    decreases |payloads|
  {
    if payloads == [] then (d, [])
    else
      var r := SendChunks(d, v, Chunks(payloads[0]));
      var more := SendAll(r.0, v, payloads[1..]);
      (more.0, r.1 + more.1)
  }

  // ----- receiving -----

  datatype Collected = Collected(data: Result<Bytes>, reader: Direction, wire: Bytes)

  /** Open records and append until the stream ends or a record of another type arrives. */
  function Collect(got: Bytes, d: Direction, v: Version, wire: Bytes): Collected
    decreases |wire|
  {
    match ReadRecord(wire)
    case None => Collected(Ok(got), d, AfterFailure(wire))
    case Some((rec, rest)) =>
      if rec.ct != ApplicationData then Collected(Ok(got), d, rest)
      else
        var o := Open(d, ApplicationData, v, rec.payload);
        match o.1
        case Opened(f) => Collect(got + f, o.0, v, rest)
        case _ => Collected(Err(Protocol), o.0, rest)
  }

  lemma AppRecordIsRead(d: Direction, v: Version, chunk: Bytes, rest: Bytes)
    requires |chunk| <= MAX_PLAINTEXT
    ensures var r := Seal(d, ApplicationData, v, chunk);
            && |r.1| < 0x1_0000
            && ReadRecord(AppRecord(r.1) + rest) == Some((Record(ApplicationData, TLS1_2, r.1), rest))
            && Open(d, ApplicationData, v, r.1) == (r.0, Opened(chunk))
  {
    hide Masked, MacedData, EncodeRecord, ReadRecord, Open, Direction.RunningTag;
    var r := Seal(d, ApplicationData, v, chunk);
    RecordRoundTripExactly(Record(ApplicationData, TLS1_2, r.1), rest);
    OpenAfterSeal(d, ApplicationData, v, chunk);
  }

  /** The drain loop takes in exactly the chunks and stands in the writer's state; then it goes on. */
  lemma {:induction false} CollectChunks(got: Bytes, d: Direction, v: Version, chunks: seq<Bytes>, rest: Bytes)
    requires WithinLimit(chunks)
    ensures var s := SendChunks(d, v, chunks);
            Collect(got, d, v, s.1 + rest) == Collect(got + Concat(chunks), s.0, v, rest)
    decreases |chunks|
  {
    hide Seal, Open, AppRecord, ReadRecord;
    if chunks == [] {
      assert [] + rest == rest && got + [] == got;
    } else {
      var r := Seal(d, ApplicationData, v, chunks[0]);
      var more := SendChunks(r.0, v, chunks[1..]);
      ConcatAssoc(AppRecord(r.1), more.1, rest);
      AppRecordIsRead(d, v, chunks[0], more.1 + rest);
      CollectChunks(got + chunks[0], r.0, v, chunks[1..], rest);
      ConcatAssoc(got, chunks[0], Concat(chunks[1..]));
    }
  }

  lemma {:induction false} CollectAll(got: Bytes, d: Direction, v: Version, payloads: seq<Bytes>, rest: Bytes)
    ensures var s := SendAll(d, v, payloads);
            Collect(got, d, v, s.1 + rest) == Collect(got + Concat(payloads), s.0, v, rest)
    decreases |payloads|
  {
    hide Collect, SendChunks, Chunks;
    if payloads == [] {
      assert [] + rest == rest && got + [] == got;
    } else {
      var r := SendChunks(d, v, Chunks(payloads[0]));
      var more := SendAll(r.0, v, payloads[1..]);
      ConcatAssoc(r.1, more.1, rest);
      ChunksPartition(payloads[0]);
      CollectChunks(got, d, v, Chunks(payloads[0]), more.1 + rest);
      CollectAll(got + payloads[0], r.0, v, payloads[1..], rest);
      ConcatAssoc(got, payloads[0], Concat(payloads[1..]));
    }
  }

  /** What ends a stream: the connection, or a record that is not application data. */
  predicate EndsStream(rest: Bytes) {
    match ReadRecord(rest)
    case None => true
    case Some((rec, _)) => rec.ct != ApplicationData
  }

  /** Whatever payloads were sent, the peer's drain loop returns their concatenation and is in step with the writer. */
  lemma StreamDelivered(d: Direction, v: Version, payloads: seq<Bytes>, rest: Bytes)
    requires EndsStream(rest)
    ensures var c := Collect([], d, v, SendAll(d, v, payloads).1 + rest);
            && c.data == Ok(Concat(payloads))
            && c.reader == SendAll(d, v, payloads).0
  {
    hide SendAll, ReadRecord;
    CollectAll([], d, v, payloads, rest);
    assert [] + Concat(payloads) == Concat(payloads);
  }

  // ----- a connection lost on the way -----

  /** How many of the records lie within the first `n` bytes of the wire. */
  function Whole(d: Direction, v: Version, chunks: seq<Bytes>, n: nat): (k: nat)
    ensures k <= |chunks|
    decreases |chunks|
  {
    if chunks == [] then 0
    else
      var r := Seal(d, ApplicationData, v, chunks[0]);
      if n < |AppRecord(r.1)| then 0 else 1 + Whole(r.0, v, chunks[1..], n - |AppRecord(r.1)|)
  }

  /** A proper prefix of a record reads as the end of the stream. */
  lemma PartialRecord(payload: Bytes, n: nat)
    requires |payload| < 0x1_0000 && n < |AppRecord(payload)|
    ensures ReadRecord(AppRecord(payload)[..n]) == None
  {
    var e := AppRecord(payload);
    if n >= 5 {
      assert e[..n][3..5] == Be(|payload|, 2);
      LowBytes(|payload|, 2);
      Pow256Values();
    }
  }

  /** A stream cut after `n` bytes still drains without an error, to the whole records before the cut. */
  lemma {:induction false} CollectCut(got: Bytes, d: Direction, v: Version, chunks: seq<Bytes>, n: nat)
    requires WithinLimit(chunks) && n <= |SendChunks(d, v, chunks).1|
    ensures var k := Whole(d, v, chunks, n);
            Collect(got, d, v, SendChunks(d, v, chunks).1[..n]).data == Ok(got + Concat(chunks[..k]))
    decreases |chunks|
  {
    hide Seal, Open, AppRecord, ReadRecord;
    if chunks == [] {
      EmptyWire();
      assert got + [] == got;
    } else {
      var r := Seal(d, ApplicationData, v, chunks[0]);
      var one, more := AppRecord(r.1), SendChunks(r.0, v, chunks[1..]);
      if n < |one| {
        assert (one + more.1)[..n] == one[..n];
        AppRecordIsRead(d, v, chunks[0], []);
        PartialRecord(r.1, n);
        assert got + [] == got;
      } else {
        var m := n - |one|;
        assert (one + more.1)[..n] == one + more.1[..m];
        AppRecordIsRead(d, v, chunks[0], more.1[..m]);
        CollectCut(got + chunks[0], r.0, v, chunks[1..], m);
        var k := Whole(r.0, v, chunks[1..], m);
        assert chunks[..k + 1][1..] == chunks[1..][..k];
        ConcatAssoc(got, chunks[0], Concat(chunks[1..][..k]));
      }
    }
  }

  lemma EmptyWire()
    ensures ReadRecord([]) == None
  {
  }

  /** All records are whole only in the whole stream. */
  lemma {:induction false} WholeIsAll(d: Direction, v: Version, chunks: seq<Bytes>, n: nat)
    requires n <= |SendChunks(d, v, chunks).1|
    ensures Whole(d, v, chunks, n) == |chunks| <==> n == |SendChunks(d, v, chunks).1|
    decreases |chunks|
  {
    hide Seal, AppRecord;
    if chunks != [] {
      var r := Seal(d, ApplicationData, v, chunks[0]);
      if n >= |AppRecord(r.1)| {
        WholeIsAll(r.0, v, chunks[1..], n - |AppRecord(r.1)|);
      }
    }
  }

  lemma {:induction false} ShorterConcat(chunks: seq<Bytes>, k: nat)
    requires k <= |chunks|
    requires forall i :: 0 <= i < |chunks| ==> chunks[i] != []
    ensures |Concat(chunks[..k])| <= |Concat(chunks)|
    ensures |Concat(chunks[..k])| == |Concat(chunks)| <==> k == |chunks|
    decreases |chunks|
  {
    if k == 0 {
    } else {
      assert chunks[..k][1..] == chunks[1..][..k - 1];
      ShorterConcat(chunks[1..], k - 1);
    }
  }

  /** End of stream counts as end of response, so a lost connection goes unnoticed: the drain succeeds after any cut,
      and its result is the payload exactly when the stream was not cut (or there was nothing to lose). */
  lemma CompleteExactlyWhenUncut(d: Direction, v: Version, data: Bytes, n: nat)
    requires n <= |SendChunks(d, v, Chunks(data)).1|
    ensures var wire := SendChunks(d, v, Chunks(data)).1;
            var c := Collect([], d, v, wire[..n]);
            && c.data.Ok?
            && (c.data == Ok(data) <==> n == |wire| || data == [])
  {
    hide SendChunks, Collect, Chunks, Whole;
    var chunks := Chunks(data);
    ChunksPartition(data);
    var k := Whole(d, v, chunks, n);
    CollectCut([], d, v, chunks, n);
    assert [] + Concat(chunks[..k]) == Concat(chunks[..k]);
    WholeIsAll(d, v, chunks, n);
    if data != [] {
      ShorterConcat(chunks, k);
      if k == |chunks| {
        assert chunks[..k] == chunks;
      }
    } else if k == 0 {
    } else {
      assert chunks[..k] == chunks;
    }
  }

  // ----- the session object -----

  class LoginSession {
    const handshake: ClientHandshake
    const serverLeafCert: Bytes

    constructor (handshake: ClientHandshake, leaf: Bytes)
      ensures this.handshake == handshake && serverLeafCert == leaf
    {
      this.handshake := handshake;
      serverLeafCert := leaf;
    }

    /** Protect and send one chunk. */
    method SendChunk(t: TlsTransport, chunk: Bytes) returns (r: Result<()>)
      requires handshake.Valid() && t !in handshake.Owned()
      modifies t`sent, handshake.Owned()
      ensures handshake.Valid() && handshake.Owned() == old(handshake.Owned())
      ensures match old(handshake.View()).crypto
              case None => r == Err(Protocol) && handshake.View() == old(handshake.View()) && t.sent == old(t.sent)
              case Some(ep) =>
                var s := Seal(ep.write, ApplicationData, handshake.version, chunk);
                && r == Ok(()) && t.sent == old(t.sent) + AppRecord(s.1)
                && handshake.View() == old(handshake.View()).(crypto := Some(ep.(write := s.0)))
    {
      hide EncodeRecord, Seal, ClientHandshake.Valid, ClientHandshake.View, ClientHandshake.Owned;
      r := SendProtected(t, handshake, ApplicationData, handshake.version, chunk);
    }

    method SendApplicationData(t: TlsTransport, plaintext: Bytes) returns (r: Result<()>)
      requires handshake.Valid() && t !in handshake.Owned()
      modifies t`sent, handshake.Owned()
      ensures handshake.Valid() && handshake.Owned() == old(handshake.Owned())
      ensures match old(handshake.View()).crypto
              case None => r == Err(Protocol) && handshake.View() == old(handshake.View()) && t.sent == old(t.sent)
              case Some(ep) =>
                var s := SendChunks(ep.write, handshake.version, Chunks(plaintext));
                && r == Ok(()) && t.sent == old(t.sent) + s.1
                && handshake.View() == old(handshake.View()).(crypto := Some(ep.(write := s.0)))
    {
      hide ClientHandshake.Valid, ClientHandshake.View, ClientHandshake.Owned, AppRecord, Seal, EncodeRecord;
      ghost var v := handshake.version;
      ghost var st := handshake.View();
      ghost var todo := Chunks(plaintext);
      var pos, first := 0, true;
      ghost var sent: Bytes := [];
      while first || pos < |plaintext|
        invariant pos <= |plaintext|
        invariant todo == if first || pos < |plaintext| then Chunks(plaintext[pos..]) else []
        invariant handshake.Valid() && handshake.Owned() == old(handshake.Owned()) && handshake.View() == st
        invariant old(handshake.View()).crypto == None ==> first && st == old(handshake.View()) && t.sent == old(t.sent)
        invariant t.sent == old(t.sent) + sent
        invariant match old(handshake.View()).crypto
                  case None => true
                  case Some(ep) =>
                    && st.crypto.Some?
                    && st == old(handshake.View()).(crypto := Some(ep.(write := st.crypto.value.write)))
                    && var whole := SendChunks(ep.write, v, Chunks(plaintext));
                       var more := SendChunks(st.crypto.value.write, v, todo);
                       whole.0 == more.0 && whole.1 == sent + more.1
        decreases |plaintext| - pos, first
      {
        var end := Min(pos + MAX_PLAINTEXT, |plaintext|);
        var chunk := plaintext[pos..end];
        NextChunk(plaintext, pos);
        var one := SendChunk(t, chunk);
        if one.Err? {
          return one;
        }
        ghost var d := st.crypto.value.write;
        ghost var s := Seal(d, ApplicationData, v, chunk);
        ConcatAssoc(sent, AppRecord(s.1), SendChunks(s.0, v, todo[1..]).1);
        ConcatAssoc(old(t.sent), sent, AppRecord(s.1));
        sent := sent + AppRecord(s.1);
        st := handshake.View();
        todo := todo[1..];
        pos, first := end, false;
      }
      r := Ok(());
    }

    lemma NextChunk(data: Bytes, pos: nat)
      requires pos <= |data|
      ensures var end := Min(pos + MAX_PLAINTEXT, |data|);
              var c := Chunks(data[pos..]);
              && c[0] == data[pos..end]
              && c[1..] == if end < |data| then Chunks(data[end..]) else []
    {
      var end := Min(pos + MAX_PLAINTEXT, |data|);
      assert data[pos..][..end - pos] == data[pos..end];
      assert data[pos..][end - pos..] == data[end..];
    }

    /** Open one record payload in the reading direction. */
    method OpenRecord(payload: Bytes) returns (r: Result<Bytes>)
      requires handshake.Valid()
      modifies handshake.Owned()
      ensures handshake.Valid() && handshake.Owned() == old(handshake.Owned())
      ensures match old(handshake.View()).crypto
              case None => r == Err(Protocol) && handshake.View() == old(handshake.View())
              case Some(ep) =>
                var o := Open(ep.read, ApplicationData, handshake.version, payload);
                && r == (if o.1.Opened? then Ok(o.1.fragment) else Err(Protocol))
                && handshake.View() == old(handshake.View()).(crypto := Some(ep.(read := o.0)))
    {
      hide RecordCrypto.Valid, DirectionState.View, Open;
      if handshake.recordCrypto == null {
        return Err(Protocol);
      }
      var o := handshake.recordCrypto.Unprotect(ApplicationData, handshake.version, payload);
      r := if o.Opened? then Ok(o.fragment) else Err(Protocol);
    }

    /** Take one record off the wire; the session state does not change. */
    method TakeRecord(t: TlsTransport) returns (r: Option<Record>)
      requires handshake.Valid() && t !in handshake.Owned()
      modifies t`wire
      ensures handshake.Valid() && handshake.Owned() == old(handshake.Owned()) && handshake.View() == old(handshake.View())
      ensures match ReadRecord(old(t.wire))
              case None => r == None && t.wire == AfterFailure(old(t.wire))
              case Some((rec, rest)) => r == Some(rec) && t.wire == rest
    {
      hide ReadRecord, RecordCrypto.Valid, DirectionState.View;
      r := t.RecvRecord();
    }

    /** Receive exactly one application record. */
    method RecvApplicationData(t: TlsTransport) returns (r: Result<Bytes>)
      requires handshake.Valid() && t !in handshake.Owned()
      modifies t`wire, handshake.Owned()
      ensures handshake.Valid() && handshake.Owned() == old(handshake.Owned())
      ensures match (ReadRecord(old(t.wire)), old(handshake.View()).crypto)
              case (None, _) => r == Err(TransportFailed(NoRecord)) && handshake.View() == old(handshake.View())
              case (Some((rec, rest)), None) => r == Err(Protocol) && handshake.View() == old(handshake.View()) && t.wire == rest
              case (Some((rec, rest)), Some(ep)) =>
                t.wire == rest
                && if rec.ct != ApplicationData then r == Err(Protocol) && handshake.View() == old(handshake.View())
                   else var o := Open(ep.read, ApplicationData, handshake.version, rec.payload);
                        && r == (if o.1.Opened? then Ok(o.1.fragment) else Err(Protocol))
                        && handshake.View() == old(handshake.View()).(crypto := Some(ep.(read := o.0)))
    {
      hide ClientHandshake.Valid, ClientHandshake.View, ClientHandshake.Owned, Open, ReadRecord;
      var record := TakeRecord(t);
      if record == None {
        return Err(TransportFailed(NoRecord));
      }
      if record.value.ct != ApplicationData {
        return Err(Protocol);
      }
      r := OpenRecord(record.value.payload);
    }

    method RecvAllApplicationData(t: TlsTransport) returns (r: Result<Bytes>)
      requires handshake.Valid() && t !in handshake.Owned()
      modifies t`wire, handshake.Owned()
      ensures handshake.Valid() && handshake.Owned() == old(handshake.Owned())
      ensures match old(handshake.View()).crypto
              case None => handshake.View() == old(handshake.View())
                           && r == if EndsStream(old(t.wire)) then Ok([]) else Err(Protocol)
              case Some(ep) =>
                var c := Collect([], ep.read, handshake.version, old(t.wire));
                && r == c.data && t.wire == c.wire
                && handshake.View() == old(handshake.View()).(crypto := Some(ep.(read := c.reader)))
    {
      hide ClientHandshake.Valid, ClientHandshake.View, ClientHandshake.Owned, Open, ReadRecord;
      ghost var v := handshake.version;
      ghost var st := handshake.View();
      var out: Bytes := [];
      while true
        invariant handshake.Valid() && handshake.Owned() == old(handshake.Owned()) && handshake.View() == st
        invariant match old(handshake.View()).crypto
                  case None => st == old(handshake.View()) && t.wire == old(t.wire) && out == []
                  case Some(ep) =>
                    && st.crypto.Some?
                    && st == old(handshake.View()).(crypto := Some(ep.(read := st.crypto.value.read)))
                    && Collect([], ep.read, v, old(t.wire)) == Collect(out, st.crypto.value.read, v, t.wire)
        decreases |t.wire|
      {
        var record := TakeRecord(t);
        if record == None || record.value.ct != ApplicationData {
          return Ok(out);
        }
        var pt := OpenRecord(record.value.payload);
        if pt.Err? {
          return pt;
        }
        out := out + pt.value;
        st := handshake.View();
      }
    }
  }
}
