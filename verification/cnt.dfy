/** The counter (CNT) keystream of GOST 28147-89 with key meshing every 1024 bytes:
    the keystream as one fixed sequence, and the buffered generator that produces it
    (RFC 5830 section 6, RFC 4357 section 2.3.2). */
module CntMode {
  import opened Bytes
  import opened Gost28147
  import opened NumberTheory

  const C1: u32 := 0x0101_0104
  const C2: u32 := 0x0101_0101
  const ONES: u32 := 0xFFFF_FFFF

  /** The key and the two counter seeds in force between two meshings. */
  datatype Epoch = Epoch(key: Key, s1: u32, s2: u32)

  // ----- the counters in closed form -----

  function Counter1(s: u32, k: nat): u32 {
    (s + k * C2) % TWO_32
  }

  /** For k >= 1 the representative of `s + k * C1` modulo 2^32 - 1 in 1 .. 2^32 - 1. */
  function Counter2(s: u32, k: nat): u32 {
    if k == 0 then s else (s + k * C1 - 1) % ONES + 1
  }

  /** Addition with end-around carry, as the generator computes it. */
  function AddCarry(a: u32, b: u32): u32 {
    if a + b >= TWO_32 then (a + b - TWO_32 + 1) % TWO_32 else a + b
  }

  /** The counter laws with the constants of the standard: after k steps the first counter is congruent to
      s + k * 01010101 modulo 2^32, the second to s + k * 01010104 modulo 2^32 - 1 and not zero. */
  lemma CounterLaws(s: u32, k: nat)
    ensures Counter1(s, k) == (s + k * 0x0101_0101) % 0x1_0000_0000
    ensures k >= 1 ==> Counter2(s, k) >= 1 && (Counter2(s, k) - (s + k * 0x0101_0104)) % 0xFFFF_FFFF == 0
    ensures Counter2(s, 0) == s
  {
    if k >= 1 {
      Counter2Characterised(s, k, Counter2(s, k));
    }
  }

  lemma CounterStart(s1: u32, s2: u32)
    ensures Counter1(s1, 0) == s1 && Counter2(s2, 0) == s2
  {
  }

  lemma Counter1Step(s: u32, k: nat)
    ensures Counter1(s, k + 1) == Add32(Counter1(s, k), C2)
  {
    ModStep(s + k * C2, C2, TWO_32);
  }

  /** The end-around carry never wraps to zero and never needs its own overflow. */
  lemma Counter2Step(s: u32, k: nat)
    ensures Counter2(s, k + 1) == AddCarry(Counter2(s, k), C1)
    ensures 1 <= Counter2(s, k + 1)
  {
    assert (k + 1) * C1 == k * C1 + C1;
    if k == 0 {
      SmallMod(s + C1 - 1);
    } else {
      CarryStep(s + k * C1 - 1);
    }
  }

  lemma CarryStep(t: nat)
    ensures (t + C1) % ONES + 1 == AddCarry(t % ONES + 1, C1)
  {
    ModStep(t, C1, ONES);
    SmallMod(t % ONES + C1);
  }

  lemma SmallMod(x: int)
    requires 0 <= x < 2 * ONES
    ensures x % ONES == if x < ONES then x else x - ONES
  {
  }

  /** Counter 2 is the only value of 1 .. 2^32 - 1 congruent to `s + k * C1`. */
  lemma Counter2Characterised(s: u32, k: nat, x: u32)
    requires k >= 1
    ensures x == Counter2(s, k) <==> 1 <= x && (x - (s + k * C1)) % ONES == 0
  {
    var t := s + k * C1;
    var c := Counter2(s, k);
    assert c - t == -((t - 1) / ONES) * ONES;
    ModShift(0, -((t - 1) / ONES), ONES);
    if 1 <= x && (x - t) % ONES == 0 {
      assert x - c == ((x - t) / ONES + (t - 1) / ONES) * ONES;
      SmallMultiple((x - t) / ONES + (t - 1) / ONES, ONES);
    }
  }

  // ----- the keystream -----

  function Seeded(key: Key, sync: Block): Epoch {
    var seed := EncryptBlock(Expand(key), sync);
    Epoch(key, Low(seed), High(seed))
  }

  function CounterBlock(e: Epoch, k: nat): Block {
    Pack(Counter1(e.s1, k), Counter2(e.s2, k))
  }

  /** Epoch `e` starts under the e-times meshed key, from the re-encrypted last counters of epoch `e - 1`. */
  function EpochAt(s: Setup, e: nat): Epoch {
    if e == 0 then Seeded(s.key, s.iv)
    else var p := EpochAt(s, e - 1); Seeded(MeshKey(p.key), CounterBlock(p, 128))
  }

  /** The epoch of the k-th block: 128 blocks (1024 bytes) per epoch, or a single epoch. */
  function EpochOf(s: Setup, k: nat): (e: nat)
    ensures 128 * e <= k
  {
    if s.meshing then k / 128 else 0
  }

  /** The k-th 8-byte block of keystream. */
  function Gamma(s: Setup, k: nat): Block {
    var e := EpochAt(s, EpochOf(s, k));
    EncryptBlock(Expand(e.key), CounterBlock(e, k - 128 * EpochOf(s, k) + 1))
  }

  // ----- what the cipher is applied to -----

  /** The first counters decrypt to the initial vector. */
  lemma FirstSeedDecrypts(s: Setup)
    ensures DecryptBlock(Expand(s.key), Pack(EpochAt(s, 0).s1, EpochAt(s, 0).s2)) == s.iv && EpochAt(s, 0).key == s.key
  {
    hide Expand, Pack, Low, High, EncryptBlock, DecryptBlock;
    SeedDecrypts(s.key, s.iv);
  }

  lemma SeedDecrypts(key: Key, sync: Block)
    ensures var e := Seeded(key, sync); DecryptBlock(Expand(key), Pack(e.s1, e.s2)) == sync && e.key == key
  {
    hide Expand, EncryptBlock, DecryptBlock;
    PackUnpack(EncryptBlock(Expand(key), sync));
    BlockCipherInverse(Expand(key), sync);
  }

  /** At each meshing the new counters decrypt, under the new key, to the last counters of the old epoch; the key of
      epoch e is the e-times meshed key. */
  lemma {:induction false} MeshedSeedDecrypts(s: Setup, e: nat)
    ensures EpochAt(s, e).key == MeshedKey(s.key, e)
    ensures e > 0 ==>
              var p, c := EpochAt(s, e - 1), EpochAt(s, e);
              var b := DecryptBlock(Expand(c.key), Pack(c.s1, c.s2));
              Low(b) == Counter1(p.s1, 128) && High(b) == Counter2(p.s2, 128)
  {
    hide Expand, EncryptBlock, DecryptBlock, Counter1, Counter2, MeshKey, Seeded, Low, High, Pack;
    if e == 0 {
      SeedDecrypts(s.key, s.iv);
    } else {
      MeshedSeedDecrypts(s, e - 1);
      var p := EpochAt(s, e - 1);
      SeedDecrypts(MeshKey(p.key), CounterBlock(p, 128));
      UnpackPack(Counter1(p.s1, 128), Counter2(p.s2, 128));
    }
  }

  /** Block k of the keystream decrypts, under the key of its epoch, to the counters of its step in that epoch. */
  lemma GammaDecrypts(s: Setup, k: nat)
    ensures var e := EpochAt(s, if s.meshing then k / 128 else 0);
            var step := if s.meshing then k % 128 + 1 else k + 1;
            var b := DecryptBlock(Expand(e.key), Gamma(s, k));
            Low(b) == Counter1(e.s1, step) && High(b) == Counter2(e.s2, step)
  {
    hide Expand, EncryptBlock, DecryptBlock, Counter1, Counter2, EpochAt, Low, High, Pack;
    var e := EpochAt(s, EpochOf(s, k));
    var step := k - 128 * EpochOf(s, k) + 1;
    BlockCipherInverse(Expand(e.key), CounterBlock(e, step));
    UnpackPack(Counter1(e.s1, step), Counter2(e.s2, step));
  }

  /** Byte i of masked data differs from the data in the bits of byte (pos + i) mod 8 of block (pos + i) / 8. */
  lemma MaskedByte(s: Setup, pos: nat, data: Bytes, i: nat, bit: nat)
    requires i < |data|
    ensures Digit(Masked(s, pos, data)[i], 2, bit) == 1
       <==> Digit(data[i], 2, bit) != Digit(Gamma(s, (pos + i) / 8)[(pos + i) % 8], 2, bit)
  {
    hide Gamma, Digit;
    XorBit(data[i], StreamByte(s, pos + i), bit);
  }

  function StreamByte(s: Setup, i: nat): byte { Gamma(s, i / 8)[i % 8] }

  /** `n` bytes of keystream from position `pos`. */
  function Stream(s: Setup, pos: nat, n: nat): (r: Bytes)
    ensures |r| == n
  {
    seq<byte>(n, i requires 0 <= i < n => StreamByte(s, pos + i))
  }

  /** Data combined with the keystream from position `pos`. */
  function Masked(s: Setup, pos: nat, data: Bytes): (r: Bytes)
    ensures |r| == |data|
  {
    XorSeq(data, Stream(s, pos, |data|))
  }

  /** Applying the same stretch of keystream twice restores the data. */
  lemma MaskedTwice(s: Setup, pos: nat, data: Bytes)
    ensures Masked(s, pos, Masked(s, pos, data)) == data
  {
    XorSeqCancels(data, Stream(s, pos, |data|));
  }

  /** Any split of the data into two stretches gives the same result. */
  lemma MaskedSplit(s: Setup, pos: nat, a: Bytes, b: Bytes)
    ensures Masked(s, pos, a + b) == Masked(s, pos, a) + Masked(s, pos + |a|, b)
  {
    var l, r := Masked(s, pos, a + b), Masked(s, pos, a) + Masked(s, pos + |a|, b);
    forall i | 0 <= i < |l| ensures l[i] == r[i] {
      if i >= |a| {
        assert pos + i == pos + |a| + (i - |a|);
      }
    }
  }

  /** The results of masking the parts one after the other, each where the last one stopped. */
  function MaskedParts(s: Setup, pos: nat, parts: seq<Bytes>): Bytes
    decreases |parts|
  {
    if parts == [] then [] else Masked(s, pos, parts[0]) + MaskedParts(s, pos + |parts[0]|, parts[1..])
  }

  /** Every chunking of the data is masked with one and the same keystream. */
  lemma {:induction false} MaskedChunking(s: Setup, pos: nat, parts: seq<Bytes>)
    ensures MaskedParts(s, pos, parts) == Masked(s, pos, Concat(parts))
    decreases |parts|
  {
    if parts != [] {
      MaskedChunking(s, pos + |parts[0]|, parts[1..]);
      MaskedSplit(s, pos, parts[0], Concat(parts[1..]));
    }
  }

  // ----- the generator -----

  class CntKeystream {
    var key: Subkeys
    var rawKey: Key
    var n1: u32
    var n2: u32
    var buf: Bytes
    var bufPos: nat
    var sinceMesh: nat
    const meshing: bool
    ghost const setup: Setup
    ghost var blocks: nat

    /** The epoch whose key and counters the fields hold: meshing is delayed to the next block. */
    ghost function CurrentEpoch(): (e: nat)
      reads this`blocks
      ensures 128 * e <= blocks
    {
      if blocks == 0 then 0 else EpochOf(setup, blocks - 1)
    }

    ghost predicate ValidCipher()
      reads this`key, this`rawKey, this`n1, this`n2, this`sinceMesh, this`blocks
    {
      var e := EpochAt(setup, CurrentEpoch());
      var k := blocks - 128 * CurrentEpoch();
      && meshing == setup.meshing
      && rawKey == e.key && key == Expand(rawKey)
      && n1 == Counter1(e.s1, k) && n2 == Counter2(e.s2, k)
      && sinceMesh == 8 * k
    }

    ghost predicate Valid()
      reads this
    {
      && ValidCipher()
      && bufPos <= |buf|
      && buf == if blocks == 0 then [] else Gamma(setup, blocks - 1)
    }

    /** The number of keystream bytes handed out. */
    ghost function Position(): int
      reads this
    {
      8 * blocks - |buf| + bufPos
    }

    constructor (key: Key, iv: Block, meshing: bool)
      ensures Valid() && setup == Setup(key, iv, meshing) && Position() == 0
    {
      hide EncryptBlock, Expand, Pack, Low, High;
      var ks := Expand(key);
      var seed := EncryptBlockLe(ks, iv);
      this.key := ks;
      this.rawKey := key;
      n1 := Low(seed);
      n2 := High(seed);
      buf := [];
      bufPos := 0;
      sinceMesh := 0;
      this.meshing := meshing;
      setup := Setup(key, iv, meshing);
      blocks := 0;
    }

    method Mesh()
      requires ValidCipher() && meshing && sinceMesh == 1024
      modifies this`key, this`rawKey, this`n1, this`n2
      ensures key == Expand(rawKey)
      ensures Epoch(rawKey, n1, n2) == EpochAt(setup, CurrentEpoch() + 1)
    {
      hide EncryptBlock, Expand, MeshKey, Pack, Low, High, Counter1, Counter2;
      rawKey := NextMeshKey(rawKey);
      key := Expand(rawKey);
      var enc := EncryptBlockLe(key, Pack(n1, n2));
      n1 := Low(enc);
      n2 := High(enc);
    }

    /** Mesh the key if 1024 bytes have come from it: then the fields belong to the epoch of the next block. */
    method MeshIfDue()
      requires ValidCipher()
      modifies this`key, this`rawKey, this`n1, this`n2, this`sinceMesh
      ensures var e := EpochOf(setup, blocks);
              var k := blocks - 128 * e;
              && rawKey == EpochAt(setup, e).key && key == Expand(rawKey) && sinceMesh == 8 * k
              && n1 == Counter1(EpochAt(setup, e).s1, k) && n2 == Counter2(EpochAt(setup, e).s2, k)
    {
      hide EncryptBlock, Expand, MeshKey, Pack, Low, High, Counter1, Counter2, EpochAt;
      if meshing && sinceMesh == 1024 {
        Mesh();
        sinceMesh := 0;
        CounterStart(n1, n2);
      }
    }

    method NextBlock() returns (gamma: Block)
      requires ValidCipher()
      modifies this`key, this`rawKey, this`n1, this`n2, this`sinceMesh, this`blocks
      ensures ValidCipher()
      ensures blocks == old(blocks) + 1 && gamma == Gamma(setup, old(blocks))
    {
      hide EncryptBlock, Expand, MeshKey, Pack, Low, High, Counter1, Counter2, Add32, AddCarry, EpochAt;
      ghost var e := EpochOf(setup, blocks);
      ghost var k := blocks - 128 * e;
      MeshIfDue();
      Counter1Step(EpochAt(setup, e).s1, k);
      Counter2Step(EpochAt(setup, e).s2, k);
      n1 := Add32(n1, C2);
      n2 := AddCarry(n2, C1);
      gamma := EncryptBlockLe(key, Pack(n1, n2));
      sinceMesh := sinceMesh + 8;
      blocks := blocks + 1;
    }

    /** The next byte of the keystream. */
    method NextByte() returns (g: byte)
      requires Valid()
      modifies this
      ensures Valid() && Position() == old(Position()) + 1 && old(Position()) >= 0
      ensures g == StreamByte(setup, old(Position()))
    {
      hide Gamma, ValidCipher;
      ghost var pos := Position();
      if bufPos == |buf| {
        buf := NextBlock();
        bufPos := 0;
      }
      assert pos == 8 * (blocks - 1) + bufPos;
      g := buf[bufPos];
      bufPos := bufPos + 1;
    }

    /** Combine `data` in place with the next `data.Length` bytes of the keystream. */
    method Apply(data: array<byte>)
      requires Valid()
      modifies this, data
      ensures Valid() && Position() == old(Position()) + data.Length
      ensures old(Position()) >= 0
      ensures data[..] == Masked(setup, old(Position()), old(data[..]))
    {
      hide Gamma, ValidCipher, Xor8, StreamByte;
      ghost var pos := Position();
      for i := 0 to data.Length
        invariant Valid() && Position() == pos + i && pos >= 0
        invariant forall j :: 0 <= j < i ==> data[j] == Xor8(old(data[j]), StreamByte(setup, pos + j))
        invariant forall j :: i <= j < data.Length ==> data[j] == old(data[j])
      {
        var g := NextByte();
        data[i] := Xor8(data[i], g);
      }
    }
  }
}
