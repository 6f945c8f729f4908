/** The IMIT message authentication code of GOST 28147-89: the code of a whole message,
    the one-shot computation, and the streaming context with key meshing every 1024 bytes
    (RFC 5830 section 8, RFC 4357 section 2.3.2). */
module ImitMode {
  import opened Bytes
  import opened Gost28147

  // ----- the code of a whole message -----

  /** Combine one block into the state (n1 = low word, n2 = high word) with 16 rounds. */
  function Mix(key: Key, st: Halves, b: Block): Halves {
    var r := Rounds(Expand(key)[..16], (Xor32(st.1, High(b)), Xor32(st.0, Low(b))));
    Swap(r)
  }

  /** The key under which block `k` is combined. */
  function BlockKey(s: Setup, k: nat): Key {
    if s.meshing then MeshedKey(s.key, k / 128) else s.key
  }

  function ZeroPad(b: Bytes): Block
    requires |b| <= 8
  {
    b + Zeros(8 - |b|)
  }

  /** Block `k` of the message, the last one padded with zeros. */
  function BlockAt(data: Bytes, k: nat): Block
    requires 8 * k <= |data|
  {
    if 8 * k + 8 <= |data| then data[8 * k..8 * k + 8] else ZeroPad(data[8 * k..])
  }

  /** The state after the first `k` blocks. */
  function Fold(s: Setup, data: Bytes, k: nat): Halves
    requires 8 * k < |data| + 8
  {
    if k == 0 then (Low(s.iv), High(s.iv))
    else Mix(BlockKey(s, k - 1), Fold(s, data, k - 1), BlockAt(data, k - 1))
  }

  /** The authentication code: the low word after all blocks. */
  function ImitTag(s: Setup, data: Bytes): Tag {
    WordBytes(Fold(s, data, (|data| + 7) / 8).0)
  }

  /** Data appended later does not change the state reached on whole blocks. */
  lemma {:induction false} FoldPrefix(s: Setup, data: Bytes, more: Bytes, k: nat)
    requires 8 * k <= |data|
    ensures Fold(s, data + more, k) == Fold(s, data, k)
  {
    hide Mix, BlockKey;
    if k > 0 {
      FoldPrefix(s, data, more, k - 1);
      assert BlockAt(data + more, k - 1) == BlockAt(data, k - 1);
    }
  }

  lemma FoldStart(s: Setup, data: Bytes)
    ensures Fold(s, data, 0) == (Low(s.iv), High(s.iv))
  {
  }

  lemma FoldStep(s: Setup, data: Bytes, k: nat)
    requires 8 * k < |data|
    ensures Fold(s, data, k + 1) == Mix(BlockKey(s, k), Fold(s, data, k), BlockAt(data, k))
  {
  }

  lemma FoldSnoc(s: Setup, done: Bytes, b: Bytes)
    requires |done| % 8 == 0 && 0 < |b| <= 8
    ensures var k := |done| / 8; Fold(s, done + b, k + 1) == Mix(BlockKey(s, k), Fold(s, done, k), ZeroPad(b))
  {
    hide Mix, BlockKey;
    var k := |done| / 8;
    FoldPrefix(s, done, b, k);
    assert BlockAt(done + b, k) == ZeroPad(b);
  }

  // ----- the code by states -----

  /** One block takes the state (n1, n2) to (n1', n2'): both words are combined with the words of the block, then the
      recurrence of the cipher runs over the first 16 subkeys. */
  predicate IsStep(key: Key, st: Halves, b: Block, st': Halves, xs: seq<u32>) {
    && IsTrace(Expand(key)[..16], xs)
    && xs[0] == Xor32(st.1, High(b)) && xs[1] == Xor32(st.0, Low(b))
    && st' == (xs[17], xs[16])
  }

  lemma StepMixes(key: Key, st: Halves, b: Block, st': Halves, xs: seq<u32>)
    requires IsStep(key, st, b, st', xs)
    ensures Mix(key, st, b) == st'
  {
    hide Expand, Rounds, Xor32, G;
    RoundsFollowTrace(Expand(key)[..16], xs);
  }

  /** The states of a whole message: from the words of the initial vector, one step per block, the key meshed before
      block k exactly when k is a positive multiple of 128 and meshing is on. */
  predicate AreStates(s: Setup, data: Bytes, sts: seq<Halves>, traces: seq<seq<u32>>) {
    && |traces| == (|data| + 7) / 8 && |sts| == |traces| + 1
    && sts[0] == (Low(s.iv), High(s.iv))
    && forall k :: 0 <= k < |traces| ==>
         IsStep(MeshedKey(s.key, if s.meshing then k / 128 else 0), sts[k], BlockAt(data, k), sts[k + 1], traces[k])
  }

  lemma {:induction false} StatesAreFolded(s: Setup, data: Bytes, sts: seq<Halves>, traces: seq<seq<u32>>, k: nat)
    requires AreStates(s, data, sts, traces) && k < |sts|
    ensures Fold(s, data, k) == sts[k]
  {
    hide IsStep, Mix;
    if k > 0 {
      StatesAreFolded(s, data, sts, traces, k - 1);
      assert IsStep(MeshedKey(s.key, if s.meshing then (k - 1) / 128 else 0), sts[k - 1], BlockAt(data, k - 1),
                    sts[k - 1 + 1], traces[k - 1]);
      StepMixes(BlockKey(s, k - 1), sts[k - 1], BlockAt(data, k - 1), sts[k], traces[k - 1]);
    }
  }

  /** The code is the low word of the last state, least significant byte first. */
  lemma TagByStates(s: Setup, data: Bytes, sts: seq<Halves>, traces: seq<seq<u32>>, i: nat)
    requires AreStates(s, data, sts, traces) && i < 4
    ensures ImitTag(s, data)[i] == Digit(sts[|sts| - 1].0, 0x100, i)
  {
    hide AreStates, Fold, Digit;
    LastState(s, data, sts, traces);
    var w := Fold(s, data, (|data| + 7) / 8).0;
    WordOfBytes(w);
    LeDigit(WordBytes(w), i);
  }

  lemma LastState(s: Setup, data: Bytes, sts: seq<Halves>, traces: seq<seq<u32>>)
    requires AreStates(s, data, sts, traces)
    ensures |sts| == (|data| + 7) / 8 + 1 && Fold(s, data, (|data| + 7) / 8) == sts[|sts| - 1]
  {
    StatesAreFolded(s, data, sts, traces, |sts| - 1);
  }

  /** Byte j of block k is byte 8 * k + j of the message, zero behind its end. */
  lemma BlockByte(data: Bytes, k: nat, j: nat)
    requires 8 * k <= |data| && j < 8
    ensures BlockAt(data, k)[j] == if 8 * k + j < |data| then data[8 * k + j] else 0
  {
  }

  // ----- the one-shot computation -----

  method ImitMix(ks: Subkeys, n1: u32, n2: u32, block: Block, ghost key: Key) returns (r1: u32, r2: u32)
    requires ks == Expand(key)
    ensures (r1, r2) == Mix(key, (n1, n2), block)
  {
    hide Expand, Rounds, High, Low, Xor32;
    var hi, lo := FirstRounds(ks, Xor32(n2, High(block)), Xor32(n1, Low(block)));
    return lo, hi;
  }

  method Imit(key: Key, iv: Block, data: Bytes) returns (tag: Tag)
    ensures tag == ImitTag(Setup(key, iv, false), data)
  {
    hide Expand, Mix, Fold, MeshedKey, WordBytes;
    ghost var s := Setup(key, iv, false);
    var ks := Expand(key);
    var n1, n2 := Low(iv), High(iv);
    ghost var k := 0;
    FoldStart(s, data);
    var rest := data;
    while |rest| >= 8
      invariant 8 * k <= |data| && rest == data[8 * k..]
      invariant (n1, n2) == Fold(s, data, k)
    {
      assert BlockAt(data, k) == rest[..8];
      FoldStep(s, data, k);
      n1, n2 := ImitMix(ks, n1, n2, rest[..8], key);
      rest := rest[8..];
      k := k + 1;
    }
    if rest != [] {
      FoldStep(s, data, k);
      var r2;
      n1, r2 := ImitMix(ks, n1, n2, ZeroPad(rest), key);
    }
    tag := WordBytes(n1);
  }

  // ----- the streaming context -----

  class ImitContext {
    var key: Subkeys
    var rawKey: Key
    var n1: u32
    var n2: u32
    const tail: array<byte>
    var tailLen: nat
    var sinceMesh: nat
    const meshing: bool
    ghost const setup: Setup
    ghost var done: Bytes

    /** The number of the block last combined; meshing is delayed until the next one. */
    ghost function LastBlock(): nat
      reads this`done
    {
      if |done| < 8 then 0 else |done| / 8 - 1
    }

    ghost predicate ValidCore()
      reads this`key, this`rawKey, this`n1, this`n2, this`sinceMesh, this`done
    {
      && meshing == setup.meshing
      && |done| % 8 == 0
      && rawKey == BlockKey(setup, LastBlock()) && key == Expand(rawKey)
      && (n1, n2) == Fold(setup, done, |done| / 8)
      && sinceMesh == |done| - if meshing then LastBlock() / 128 * 1024 else 0
    }

    ghost predicate Valid()
      reads this, tail
    {
      ValidCore() && tail.Length == 8 && tailLen < 8
    }

    /** Everything given to `Update` so far. */
    ghost function Absorbed(): Bytes
      requires Valid()
      reads this, tail
    {
      done + tail[..tailLen]
    }

    constructor (key: Key, iv: Block, meshing: bool)
      ensures Valid() && fresh(tail) && setup == Setup(key, iv, meshing) && Absorbed() == []
    {
      hide Expand, Low, High, WordBytes;
      this.key := Expand(key);
      rawKey := key;
      n1 := Low(iv);
      n2 := High(iv);
      tail := new byte[8](_ => 0);
      tailLen := 0;
      this.meshing := meshing;
      sinceMesh := 0;
      setup := Setup(key, iv, meshing);
      done := [];
    }

    method Mesh()
      modifies this`key, this`rawKey
      ensures rawKey == MeshKey(old(rawKey)) && key == Expand(rawKey)
    {
      rawKey := NextMeshKey(rawKey);
      key := Expand(rawKey);
    }

    /** Mesh the key if 1024 bytes have gone under it: then it is the key of the next block. */
    method MeshIfDue()
      requires ValidCore()
      modifies this`key, this`rawKey, this`sinceMesh
      ensures rawKey == BlockKey(setup, |done| / 8) && key == Expand(rawKey)
      ensures sinceMesh == |done| - if meshing then |done| / 8 / 128 * 1024 else 0
    {
      hide Expand, Mix, MeshKey, Fold;
      if meshing && sinceMesh == 1024 {
        Mesh();
        sinceMesh := 0;
      }
    }

    method AbsorbBlock(block: Block)
      requires ValidCore()
      modifies this`key, this`rawKey, this`n1, this`n2, this`sinceMesh, this`done
      ensures ValidCore() && done == old(done) + block
    {
      hide Expand, Mix, MeshKey, Fold, BlockKey;
      MeshIfDue();
      n1, n2 := ImitMix(key, n1, n2, block, rawKey);
      FoldSnoc(setup, done, block);
      assert ZeroPad(block) == block;
      sinceMesh := sinceMesh + 8;
      done := done + block;
    }

    /** Complete a partial tail as far as the data goes; a full one is absorbed. */
    method FillTail(data: Bytes) returns (rest: Bytes)
      requires Valid() && tailLen > 0
      modifies this, tail
      ensures ValidCore() && tail.Length == 8 && tailLen < 8 && (tailLen > 0 ==> rest == [])
      ensures done + tail[..tailLen] + rest == old(Absorbed()) + data
    {
      hide ValidCore, Fold, Expand;
      var take := Min(8 - tailLen, |data|);
      ghost var was := tail[..tailLen];
      forall i | 0 <= i < take {
        tail[tailLen + i] := data[i];
      }
      tailLen := tailLen + take;
      rest := data[take..];
      assert tail[..tailLen] == was + data[..take];
      assert data == data[..take] + rest;
      ConcatAssoc(done + was, data[..take], rest);
      ConcatAssoc(done, was, data[..take]);
      if tailLen == 8 {
        assert tail[..8] == tail[..];
        AbsorbBlock(tail[..]);
        tailLen := 0;
        assert done + [] == done;
      }
    }

    /** Absorb any amount of data. */
    method Update(data: Bytes)
      requires Valid()
      modifies this, tail
      ensures Valid()
      ensures Absorbed() == old(Absorbed()) + data
    {
      hide ValidCore, Fold, Expand;
      var rest := data;
      if tailLen > 0 {
        rest := FillTail(data);
      }
      ghost var all := old(Absorbed()) + data;
      assert done + tail[..tailLen] + rest == all;
      while |rest| >= 8
        invariant ValidCore() && tail.Length == 8 && tailLen < 8
        invariant tailLen > 0 ==> rest == []
        invariant done + tail[..tailLen] + rest == all
      {
        AbsorbBlock(rest[..8]);
        rest := rest[8..];
      }
      if rest != [] {
        forall i | 0 <= i < |rest| {
          tail[i] := rest[i];
        }
        tailLen := |rest|;
      }
    }

    /** The code of everything absorbed so far; the context is left as it is. */
    method Finalize() returns (tag: Tag)
      requires Valid()
      ensures tag == ImitTag(setup, Absorbed())
    {
      hide Expand, Mix, MeshKey, Fold;
      var r1 := n1;
      if tailLen > 0 {
        var block := ZeroPad(tail[..tailLen]);
        var k, raw := key, rawKey;
        if meshing && sinceMesh == 1024 {
          raw := NextMeshKey(rawKey);
          k := Expand(raw);
        }
        assert raw == BlockKey(setup, |done| / 8);
        var r2;
        r1, r2 := ImitMix(k, n1, n2, block, raw);
        FoldSnoc(setup, done, tail[..tailLen]);
      } else {
        assert Absorbed() == done;
      }
      tag := WordBytes(r1);
    }
  }
}
