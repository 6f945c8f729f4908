/** Two connected record-protection endpoints as a state machine: each end seals and opens records
    in any order, one first-in first-out channel per direction. In every run both ends stay in step. */
module LockStep {
  import opened Bytes
  import opened NumberTheory
  import opened CntMode
  import opened RecordProtection

  /** What an end asks to be sent. */
  datatype Plain = Plain(ct: ContentType, v: Version, fragment: Bytes)

  /** A record on the wire: the header is in the clear. */
  datatype Packet = Packet(ct: ContentType, v: Version, payload: Bytes)

  datatype Action = SendA(m: Plain) | SendB(m: Plain) | RecvA | RecvB

  /** The endpoints, the records in flight, and the history of what was sent and what came out. */
  datatype Connection = Connection(
    a: Endpoint, b: Endpoint,
    toB: seq<Packet>, toA: seq<Packet>,
    sentA: seq<Plain>, sentB: seq<Plain>,
    gotA: seq<OpenResult>, gotB: seq<OpenResult>)

  function SealPlain(d: Direction, m: Plain): (Direction, Packet) {
    var r := Seal(d, m.ct, m.v, m.fragment);
    (r.0, Packet(m.ct, m.v, r.1))
  }

  function OpenPacket(d: Direction, p: Packet): (Direction, OpenResult) {
    Open(d, p.ct, p.v, p.payload)
  }

  /** One step; receiving from an empty channel waits. */
  function Step(c: Connection, x: Action): Connection {
    match x
    case SendA(m) =>
      var r := SealPlain(c.a.write, m);
      c.(a := c.a.(write := r.0), toB := c.toB + [r.1], sentA := c.sentA + [m])
    case SendB(m) =>
      var r := SealPlain(c.b.write, m);
      c.(b := c.b.(write := r.0), toA := c.toA + [r.1], sentB := c.sentB + [m])
    case RecvB =>
      if c.toB == [] then c
      else
        var r := OpenPacket(c.b.read, c.toB[0]);
        c.(b := c.b.(read := r.0), toB := c.toB[1..], gotB := c.gotB + [r.1])
    case RecvA =>
      if c.toA == [] then c
      else
        var r := OpenPacket(c.a.read, c.toA[0]);
        c.(a := c.a.(read := r.0), toA := c.toA[1..], gotA := c.gotA + [r.1])
  }

  function Run(c: Connection, xs: seq<Action>): Connection
    decreases xs
  {
    if xs == [] then c else Run(Step(c, xs[0]), xs[1..])
  }

  /** A fresh connection: each end reads with the keys the other end writes with. */
  function Connect(fromA: Direction, fromB: Direction): Connection {
    Connection(Endpoint(fromA, fromB), Endpoint(fromB, fromA), [], [], [], [], [], [])
  }

  /** The state of a direction after sealing the messages in order. */
  function SealAll(d: Direction, ms: seq<Plain>): Direction {
    if ms == [] then d else SealPlain(SealAll(d, ms[..|ms| - 1]), ms[|ms| - 1]).0
  }

  /** The record that carries message `i` of the messages sent. */
  function PacketOf(d: Direction, sent: seq<Plain>, i: nat): Packet
    requires i < |sent|
  {
    SealPlain(SealAll(d, sent[..i]), sent[i]).1
  }

  /** One direction is in step: everything received was sent, in order and intact, the rest is in flight,
      and each end's state is the one that belongs to its own position in the stream. */
  ghost predicate InStep(start: Direction, writer: Direction, reader: Direction,
                         channel: seq<Packet>, sent: seq<Plain>, got: seq<OpenResult>) {
    && |sent| == |got| + |channel|
    && writer == SealAll(start, sent)
    && reader == SealAll(start, sent[..|got|])
    && (forall i :: 0 <= i < |got| ==> got[i] == Opened(sent[i].fragment))
    && (forall i :: 0 <= i < |channel| ==> channel[i] == PacketOf(start, sent, |got| + i))
  }

  ghost predicate BothInStep(fromA: Direction, fromB: Direction, c: Connection) {
    && InStep(fromA, c.a.write, c.b.read, c.toB, c.sentA, c.gotB)
    && InStep(fromB, c.b.write, c.a.read, c.toA, c.sentB, c.gotA)
  }

  lemma SealAllSnoc(d: Direction, ms: seq<Plain>, m: Plain)
    ensures SealAll(d, ms + [m]) == SealPlain(SealAll(d, ms), m).0
    ensures PacketOf(d, ms + [m], |ms|) == SealPlain(SealAll(d, ms), m).1
  {
    hide SealPlain;
    assert (ms + [m])[..|ms|] == ms;
  }

  lemma SendKeepsStep(start: Direction, writer: Direction, reader: Direction, channel: seq<Packet>,
                      sent: seq<Plain>, got: seq<OpenResult>, m: Plain)
    requires InStep(start, writer, reader, channel, sent, got)
    ensures var r := SealPlain(writer, m); InStep(start, r.0, reader, channel + [r.1], sent + [m], got)
  {
    hide SealPlain, SealAll;
    SealAllSnoc(start, sent, m);
    assert (sent + [m])[..|got|] == sent[..|got|];
    var channel' := channel + [SealPlain(writer, m).1];
    forall i | 0 <= i < |channel'| ensures channel'[i] == PacketOf(start, sent + [m], |got| + i) {
      if i < |channel| {
        assert (sent + [m])[..|got| + i] == sent[..|got| + i];
      }
    }
  }

  lemma RecvKeepsStep(start: Direction, writer: Direction, reader: Direction, channel: seq<Packet>,
                      sent: seq<Plain>, got: seq<OpenResult>)
    requires InStep(start, writer, reader, channel, sent, got) && channel != []
    ensures var r := OpenPacket(reader, channel[0]);
            InStep(start, writer, r.0, channel[1..], sent, got + [r.1])
    ensures OpenPacket(reader, channel[0]).1 == Opened(sent[|got|].fragment)
  {
    hide SealAll, Seal, Open;
    var n := |got|;
    var m := sent[n];
    assert channel[0] == SealPlain(reader, m).1;
    OpenAfterSeal(reader, m.ct, m.v, m.fragment);
    assert sent[..n + 1] == sent[..n] + [m];
    SealAllSnoc(start, sent[..n], m);
    forall i | 0 <= i < |channel[1..]| ensures channel[1..][i] == PacketOf(start, sent, n + 1 + i) {
      assert channel[1..][i] == channel[i + 1];
    }
  }

  lemma StepKeepsBoth(fromA: Direction, fromB: Direction, c: Connection, x: Action)
    requires BothInStep(fromA, fromB, c)
    ensures BothInStep(fromA, fromB, Step(c, x))
  {
    hide SealPlain, OpenPacket, InStep;
    match x
    case SendA(m) => SendKeepsStep(fromA, c.a.write, c.b.read, c.toB, c.sentA, c.gotB, m);
    case SendB(m) => SendKeepsStep(fromB, c.b.write, c.a.read, c.toA, c.sentB, c.gotA, m);
    case RecvB => if c.toB != [] { RecvKeepsStep(fromA, c.a.write, c.b.read, c.toB, c.sentA, c.gotB); }
    case RecvA => if c.toA != [] { RecvKeepsStep(fromB, c.b.write, c.a.read, c.toA, c.sentB, c.gotA); }
  }

  lemma {:induction false} RunKeepsBoth(fromA: Direction, fromB: Direction, c: Connection, xs: seq<Action>)
    requires BothInStep(fromA, fromB, c)
    ensures BothInStep(fromA, fromB, Run(c, xs))
    decreases |xs|
  {
    hide Step, BothInStep;
    if xs != [] {
      StepKeepsBoth(fromA, fromB, c, xs[0]);
      RunKeepsBoth(fromA, fromB, Step(c, xs[0]), xs[1..]);
    }
  }

  /** Every interleaving of sends and receives at both ends of a fresh connection stays in step. */
  lemma FullDuplexLockStep(fromA: Direction, fromB: Direction, xs: seq<Action>)
    ensures BothInStep(fromA, fromB, Run(Connect(fromA, fromB), xs))
  {
    hide Run;
    RunKeepsBoth(fromA, fromB, Connect(fromA, fromB), xs);
  }

  /** Whenever a channel is empty, its reader is in exactly its writer's state and has everything sent. */
  lemma DrainedEndsAgree(fromA: Direction, fromB: Direction, xs: seq<Action>)
    ensures var c := Run(Connect(fromA, fromB), xs);
            && (c.toB == [] ==> c.b.read == c.a.write && |c.gotB| == |c.sentA|)
            && (c.toA == [] ==> c.a.read == c.b.write && |c.gotA| == |c.sentB|)
  {
    hide Run, SealAll, PacketOf;
    FullDuplexLockStep(fromA, fromB, xs);
    var c := Run(Connect(fromA, fromB), xs);
    assert c.sentA[..|c.sentA|] == c.sentA && c.sentB[..|c.sentB|] == c.sentB;
  }

  function TotalLength(ms: seq<Plain>): nat {
    if ms == [] then 0 else TotalLength(ms[..|ms| - 1]) + |ms[|ms| - 1].fragment| + 4
  }

  lemma SealPlainCounts(d: Direction, m: Plain)
    ensures var r := SealPlain(d, m).0;
            && r.seqNum == (d.seqNum + 1) % TWO_64
            && r.used == d.used + |m.fragment| + 4
            && r.macKey == d.macKey && r.encKey == d.encKey && r.iv == d.iv
  {
    hide MacedData, Masked, Direction.RunningTag;
  }

  /** The sequence number counts records modulo 2^64; keystream is used for fragments and tags, nothing else. */
  lemma {:induction false} SealAllCounts(d: Direction, ms: seq<Plain>)
    ensures SealAll(d, ms).seqNum == (d.seqNum + |ms|) % TWO_64
    ensures SealAll(d, ms).used == d.used + TotalLength(ms)
    ensures SealAll(d, ms).macKey == d.macKey && SealAll(d, ms).encKey == d.encKey && SealAll(d, ms).iv == d.iv
  {
    hide SealPlain;
    if ms != [] {
      ModStep(d.seqNum + |ms| - 1, 1, TWO_64);
      SealAllCounts(d, ms[..|ms| - 1]);
      SealPlainCounts(SealAll(d, ms[..|ms| - 1]), ms[|ms| - 1]);
    }
  }

  lemma SealPlainMaced(d: Direction, m: Plain)
    ensures SealPlain(d, m).0.maced == d.maced + MacedData(d.seqNum, m.ct, m.v, m.fragment)
  {
    hide MacedData, Masked, Direction.RunningTag;
  }

  lemma SealAllLast(d: Direction, ms: seq<Plain>)
    requires ms != []
    ensures SealAll(d, ms) == SealPlain(SealAll(d, ms[..|ms| - 1]), ms[|ms| - 1]).0
  {
    hide SealPlain;
  }

  /** The last record enters under the number of records before it, counted from the number at the start. */
  lemma SealAllMaced(d: Direction, ms: seq<Plain>, n: nat)
    requires n + 1 == |ms|
    ensures SealAll(d, ms).maced == SealAll(d, ms[..n]).maced
              + MacedData((d.seqNum + n) % TWO_64, ms[n].ct, ms[n].v, ms[n].fragment)
  {
    hide SealPlain, MacedData, SealAll, TotalLength;
    SealAllLast(d, ms);
    var init := ms[..n];
    SealAllCounts(d, init);
    SealPlainMaced(SealAll(d, init), ms[n]);
  }

  /** Record i enters the running code behind all records before it, under its own number, and stays there: the code of
      a later record covers it at the same place. */
  lemma {:induction false} RecordEntersCode(d: Direction, ms: seq<Plain>, i: nat)
    requires i < |ms|
    ensures exists m, rest ::
              && SealAll(d, ms).maced == SealAll(d, ms[..i]).maced + (m + rest)
              && IsMacInput(m, (d.seqNum + i) % 0x1_0000_0000_0000_0000, ms[i].ct, ms[i].v, ms[i].fragment)
  {
    hide SealAll, IsMacInput, MacedData;
    var n := |ms| - 1;
    var init := ms[..n];
    SealAllMaced(d, ms, n);
    var added := MacedData((d.seqNum + n) % TWO_64, ms[n].ct, ms[n].v, ms[n].fragment);
    if i == n {
      MacedLayout((d.seqNum + n) % TWO_64, ms[n].ct, ms[n].v, ms[n].fragment);
      assert added + [] == added;
    } else {
      RecordEntersCode(d, init, i);
      assert init[..i] == ms[..i] && init[i] == ms[i];
      var before := SealAll(d, ms[..i]).maced;
      var m, rest :| SealAll(d, init).maced == before + (m + rest)
        && IsMacInput(m, (d.seqNum + i) % TWO_64, ms[i].ct, ms[i].v, ms[i].fragment);
      ConcatAssoc(before, m + rest, added);
      ConcatAssoc(m, rest, added);
    }
  }
}
