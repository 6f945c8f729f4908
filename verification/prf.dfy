/** The TLS 1.2 pseudo-random function over HMAC with a 256-bit hash (RFC 5246 section 5,
    RFC 2104), the master secret, the key block, and the Finished data. */
module Prf {
  import opened Bytes

  // ----- HMAC -----

  /** The key brought to one 64-byte block. */
  function KeyBlockOf64(h: Hash, key: Bytes): (b: Bytes)
    ensures |b| == 64
  {
    if |key| > 64 then h(key) + Zeros(32) else key + Zeros(64 - |key|)
  }

  function XorEach(b: Bytes, pad: byte): (r: Bytes)
    ensures |r| == |b| && forall i :: 0 <= i < |b| ==> r[i] == Xor8(b[i], pad)
  {
    seq(|b|, i requires 0 <= i < |b| => Xor8(b[i], pad))
  }

  function Hmac(h: Hash, key: Bytes, data: Bytes): Key {
    var block := KeyBlockOf64(h, key);
    h(XorEach(block, 0x5c) + h(XorEach(block, 0x36) + data))
  }

  method HmacStreebog256(h: Hash, key: Bytes, data: Bytes) returns (r: Key)
    ensures r == Hmac(h, key, data)
  {
    hide Xor8;
    var block := KeyBlockOf64(h, key);
    var ipad := new byte[64](_ => 0);
    var opad := new byte[64](_ => 0);
    for i := 0 to 64
      invariant forall j :: 0 <= j < i ==> ipad[j] == Xor8(block[j], 0x36) && opad[j] == Xor8(block[j], 0x5c)
    {
      ipad[i] := Xor8(block[i], 0x36);
      opad[i] := Xor8(block[i], 0x5c);
    }
    assert ipad[..] == XorEach(block, 0x36) && opad[..] == XorEach(block, 0x5c);
    r := h(opad[..] + h(ipad[..] + data));
  }

  /** The key as a string of 64 bytes: itself, or its hash when it is longer, and zeros behind it. */
  function KeyByte(h: Hash, key: Bytes, i: nat): byte {
    if |key| > 64 then if i < 32 then h(key)[i] else 0
    else if i < |key| then key[i] else 0
  }

  /** The two hash inputs of the keyed hash, byte by byte: the inner one hashes `inner | data`, the outer one
      `outer | inner hash`, where the pads are the key bytes under 0x36 and 0x5c. */
  lemma HmacInputs(h: Hash, key: Bytes, data: Bytes, inner: Bytes, outer: Bytes)
    requires |inner| == |outer| == 64
    requires forall i :: 0 <= i < 64 ==> inner[i] == Xor8(KeyByte(h, key, i), 0x36)
    requires forall i :: 0 <= i < 64 ==> outer[i] == Xor8(KeyByte(h, key, i), 0x5c)
    ensures Hmac(h, key, data) == h(outer + h(inner + data))
  {
    hide Xor8;
    var block := KeyBlockOf64(h, key);
    forall i | 0 <= i < 64 ensures block[i] == KeyByte(h, key, i) {
    }
    assert inner == XorEach(block, 0x36) && outer == XorEach(block, 0x5c);
  }

  // ----- the infinite stream -----

  /** A(0) = seed, A(i) = HMAC(secret, A(i - 1)). */
  function Chain(h: Hash, secret: Bytes, seed: Bytes, i: nat): Bytes {
    if i == 0 then seed else Hmac(h, secret, Chain(h, secret, seed, i - 1))
  }

  /** The i-th 32-byte block of the stream, HMAC(secret, A(i + 1) | seed). */
  function StreamBlock(h: Hash, secret: Bytes, seed: Bytes, i: nat): Key {
    Hmac(h, secret, Chain(h, secret, seed, i + 1) + seed)
  }

  function PrfByte(h: Hash, secret: Bytes, seed: Bytes, i: nat): byte {
    StreamBlock(h, secret, seed, i / 32)[i % 32]
  }

  function PrfBytes(h: Hash, secret: Bytes, seed: Bytes, n: nat): (r: Bytes)
    ensures |r| == n
  {
    seq<byte>(n, i requires 0 <= i < n => PrfByte(h, secret, seed, i))
  }

  /** Asking for fewer bytes gives a prefix: every output is a prefix of one stream. */
  lemma PrefixStable(h: Hash, secret: Bytes, seed: Bytes, n: nat, m: nat)
    requires n <= m
    ensures PrfBytes(h, secret, seed, m)[..n] == PrfBytes(h, secret, seed, n)
  {
    hide PrfByte;
  }

  /** Whole blocks of the stream, laid end to end. */
  function Blocks(h: Hash, secret: Bytes, seed: Bytes, k: nat): Bytes {
    if k == 0 then [] else Blocks(h, secret, seed, k - 1) + StreamBlock(h, secret, seed, k - 1)
  }

  /** The stream is the concatenation of its blocks HMAC(secret, A(1) | seed), HMAC(secret, A(2) | seed), ... */
  lemma {:induction false} StreamIsBlocks(h: Hash, secret: Bytes, seed: Bytes, k: nat)
    ensures PrfBytes(h, secret, seed, 32 * k) == Blocks(h, secret, seed, k)
  {
    hide StreamBlock;
    if k > 0 {
      StreamIsBlocks(h, secret, seed, k - 1);
      LastBlock(h, secret, seed, k - 1);
    }
  }

  lemma LastBlock(h: Hash, secret: Bytes, seed: Bytes, k: nat)
    ensures PrfBytes(h, secret, seed, 32 * (k + 1))
         == PrfBytes(h, secret, seed, 32 * k) + StreamBlock(h, secret, seed, k)
  {
    hide StreamBlock;
    var all := PrfBytes(h, secret, seed, 32 * (k + 1));
    forall i | 32 * k <= i < 32 * (k + 1) ensures all[i] == StreamBlock(h, secret, seed, k)[i - 32 * k] {
      assert i / 32 == k && i % 32 == i - 32 * k;
    }
  }

  /** A list that starts with the seed and in which each entry is the keyed hash of the one before. */
  ghost predicate IsChain(h: Hash, secret: Bytes, seed: Bytes, a: seq<Bytes>) {
    && a != [] && a[0] == seed
    && forall i :: 0 <= i < |a| - 1 ==> a[i + 1] == Hmac(h, secret, a[i])
  }

  lemma {:induction false} ChainEntry(h: Hash, secret: Bytes, seed: Bytes, a: seq<Bytes>, i: nat)
    requires IsChain(h, secret, seed, a) && i < |a|
    ensures Chain(h, secret, seed, i) == a[i]
  {
    hide Hmac;
    if i > 0 {
      ChainEntry(h, secret, seed, a, i - 1);
    }
  }

  /** The bytes of block `k` of any output long enough are those of HMAC(secret, A(k + 1) | seed). */
  lemma BlockByChain(h: Hash, secret: Bytes, seed: Bytes, a: seq<Bytes>, k: nat, n: nat, to: nat)
    requires IsChain(h, secret, seed, a) && k + 1 < |a| && 32 * k <= to <= 32 * (k + 1) && to <= n
    ensures PrfBytes(h, secret, seed, n)[32 * k..to] == Hmac(h, secret, a[k + 1] + seed)[..to - 32 * k]
  {
    hide Hmac, Chain, IsChain, StreamBlock;
    ChainEntry(h, secret, seed, a, k + 1);
    StreamBlockIs(h, secret, seed, k);
    var all, block := PrfBytes(h, secret, seed, n), Hmac(h, secret, a[k + 1] + seed);
    forall i | 32 * k <= i < to ensures all[i] == block[i - 32 * k] {
      assert i / 32 == k && i % 32 == i - 32 * k;
    }
  }

  method PHash(h: Hash, secret: Bytes, seed: Bytes, out: array<byte>)
    modifies out
    ensures out[..] == PrfBytes(h, secret, seed, out.Length)
  {
    hide Hmac, StreamBlock, Chain;
    ChainStep(h, secret, seed, 0);
    var a := HmacStreebog256(h, secret, seed);
    var written := 0;
    ghost var k := 0;
    while written < out.Length
      invariant written == Min(32 * k, out.Length) && a == Chain(h, secret, seed, k + 1)
      invariant forall j :: 0 <= j < written ==> out[j] == PrfByte(h, secret, seed, j)
      decreases out.Length - written
    {
      StreamBlockIs(h, secret, seed, k);
      var block := HmacStreebog256(h, secret, a + seed);
      var take := Min(out.Length - written, 32);
      forall i | 0 <= i < take {
        out[written + i] := block[i];
      }
      forall j | written <= j < written + take ensures out[j] == PrfByte(h, secret, seed, j) {
        assert out[written + (j - written)] == block[j - written];
        assert j / 32 == k && j % 32 == j - written;
      }
      written := written + take;
      ChainStep(h, secret, seed, k + 1);
      a := HmacStreebog256(h, secret, a);
      k := k + 1;
    }
  }

  lemma ChainStep(h: Hash, secret: Bytes, seed: Bytes, i: nat)
    ensures Chain(h, secret, seed, 0) == seed
    ensures Chain(h, secret, seed, i + 1) == Hmac(h, secret, Chain(h, secret, seed, i))
  {
    hide Hmac;
  }

  lemma StreamBlockIs(h: Hash, secret: Bytes, seed: Bytes, i: nat)
    ensures StreamBlock(h, secret, seed, i) == Hmac(h, secret, Chain(h, secret, seed, i + 1) + seed)
  {
    hide Hmac, Chain;
  }

  function PrfOf(h: Hash, secret: Bytes, lbl: Bytes, seed: Bytes, n: nat): (r: Bytes)
    ensures |r| == n
  {
    PrfBytes(h, secret, lbl + seed, n)
  }

  method ComputePrf(h: Hash, secret: Bytes, lbl: Bytes, seed: Bytes, n: nat) returns (r: Bytes)
    ensures r == PrfOf(h, secret, lbl, seed, n)
  {
    var out := new byte[n](_ => 0);
    PHash(h, secret, lbl + seed, out);
    r := out[..];
  }

  // ----- derived secrets -----

  /** The bytes of an ASCII label. */
  function Ascii(s: string): (r: Bytes)
    ensures |r| == |s|
  {
    seq<byte>(|s|, i requires 0 <= i < |s| => s[i] as int % 0x100)
  }

  type Master = m: Bytes | |m| == 48 witness seq(48, _ => 0)
  type VerifyData = v: Bytes | |v| == 12 witness seq(12, _ => 0)

  function MasterSecret(h: Hash, premaster: Bytes, clientRandom: Key, serverRandom: Key): Master {
    PrfOf(h, premaster, Ascii("master secret"), clientRandom + serverRandom, 48)
  }

  datatype KeyBlock = KeyBlock(clientMac: Key, serverMac: Key, clientEnc: Key, serverEnc: Key,
                               clientIv: Block, serverIv: Block) {
    function Joined(): Bytes { clientMac + serverMac + clientEnc + serverEnc + clientIv + serverIv }
  }

  /** The 144 bytes of key material; the seed has the server's random first. */
  function KeyMaterial(h: Hash, master: Master, clientRandom: Key, serverRandom: Key): (r: Bytes)
    ensures |r| == 144
  {
    PrfOf(h, master, Ascii("key expansion"), serverRandom + clientRandom, 144)
  }

  function DeriveKeys(h: Hash, master: Master, clientRandom: Key, serverRandom: Key): KeyBlock {
    var b := KeyMaterial(h, master, clientRandom, serverRandom);
    KeyBlock(b[..32], b[32..64], b[64..96], b[96..128], b[128..136], b[136..])
  }

  /** The six keys, in order, are the key material without gap or overlap. */
  lemma KeysCoverMaterial(h: Hash, master: Master, clientRandom: Key, serverRandom: Key)
    ensures DeriveKeys(h, master, clientRandom, serverRandom).Joined()
         == KeyMaterial(h, master, clientRandom, serverRandom)
  {
    hide KeyMaterial;
    var b := KeyMaterial(h, master, clientRandom, serverRandom);
    assert b == b[..32] + b[32..64] + b[64..96] + b[96..128] + b[128..136] + b[136..];
  }

  /** The bytes of the two labels, in numbers. */
  lemma SecretLabels()
    ensures Ascii("master secret") == [109, 97, 115, 116, 101, 114, 32, 115, 101, 99, 114, 101, 116]
    ensures Ascii("key expansion") == [107, 101, 121, 32, 101, 120, 112, 97, 110, 115, 105, 111, 110]
  {
  }

  /** The master secret is one block and a half: the client's random comes first in the seed. */
  lemma MasterSecretIs(h: Hash, premaster: Bytes, clientRandom: Key, serverRandom: Key, a: seq<Bytes>)
    requires |a| == 3
    requires IsChain(h, premaster, Ascii("master secret") + (clientRandom + serverRandom), a)
    ensures var ms := MasterSecret(h, premaster, clientRandom, serverRandom);
            && ms[..32] == Hmac(h, premaster, a[1] + a[0])
            && ms[32..] == Hmac(h, premaster, a[2] + a[0])[..16]
  {
    hide Hmac, PrfBytes, Ascii;
    var seed := Ascii("master secret") + (clientRandom + serverRandom);
    assert a[0] == seed;
    hide IsChain;
    BlockByChain(h, premaster, seed, a, 0, 48, 32);
    BlockByChain(h, premaster, seed, a, 1, 48, 48);
    var ms := PrfBytes(h, premaster, seed, 48);
    assert ms[0..32] == ms[..32] && ms[32..48] == ms[32..];
  }

  /** Each of the four long keys is one block of the stream and the two initial vectors are the first half of the
      fifth: client before server, code keys before cipher keys, the server's random first in the seed. */
  lemma KeysAreBlocks(h: Hash, master: Master, clientRandom: Key, serverRandom: Key, a: seq<Bytes>)
    requires |a| == 6
    requires IsChain(h, master, Ascii("key expansion") + (serverRandom + clientRandom), a)
    ensures var k := DeriveKeys(h, master, clientRandom, serverRandom);
            && k.clientMac == Hmac(h, master, a[1] + a[0])
            && k.serverMac == Hmac(h, master, a[2] + a[0])
            && k.clientEnc == Hmac(h, master, a[3] + a[0])
            && k.serverEnc == Hmac(h, master, a[4] + a[0])
            && k.clientIv == Hmac(h, master, a[5] + a[0])[..8]
            && k.serverIv == Hmac(h, master, a[5] + a[0])[8..16]
  {
    hide Hmac, PrfBytes, Ascii;
    var seed := Ascii("key expansion") + (serverRandom + clientRandom);
    assert a[0] == seed;
    hide IsChain;
    BlockByChain(h, master, seed, a, 0, 144, 32);
    BlockByChain(h, master, seed, a, 1, 144, 64);
    BlockByChain(h, master, seed, a, 2, 144, 96);
    BlockByChain(h, master, seed, a, 3, 144, 128);
    BlockByChain(h, master, seed, a, 4, 144, 144);
    var b := PrfBytes(h, master, seed, 144);
    assert b[0..32] == b[..32];
    assert b[128..144][..8] == b[128..136] && b[128..144][8..] == b[136..];
    var last := Hmac(h, master, a[5] + seed);
    assert last[..16][..8] == last[..8] && last[..16][8..] == last[8..16];
  }

  method Take(block: Bytes, off: nat, n: nat) returns (s: Bytes, next: nat)
    requires off + n <= |block|
    ensures s == block[off..off + n] && next == off + n
  {
    s, next := block[off..off + n], off + n;
  }

  method SplitKeyBlock(h: Hash, master: Master, clientRandom: Key, serverRandom: Key) returns (k: KeyBlock)
    ensures k == DeriveKeys(h, master, clientRandom, serverRandom)
  {
    hide PrfOf;
    var block := ComputePrf(h, master, Ascii("key expansion"), serverRandom + clientRandom, 144);
    var off := 0;
    var cm, sm, ce, se, ci, si;
    cm, off := Take(block, off, 32);
    sm, off := Take(block, off, 32);
    ce, off := Take(block, off, 32);
    se, off := Take(block, off, 32);
    ci, off := Take(block, off, 8);
    si, off := Take(block, off, 8);
    k := KeyBlock(cm, sm, ce, se, ci, si);
  }

  function ClientLabel(): Bytes { Ascii("client finished") }

  function ServerLabel(): Bytes { Ascii("server finished") }

  lemma FinishedLabels()
    ensures ClientLabel() == [99, 108, 105, 101, 110, 116, 32, 102, 105, 110, 105, 115, 104, 101, 100]
    ensures ServerLabel() == [115, 101, 114, 118, 101, 114, 32, 102, 105, 110, 105, 115, 104, 101, 100]
  {
  }

  function FinishedData(h: Hash, master: Master, lbl: Bytes, transcript: Bytes): VerifyData {
    PrfOf(h, master, lbl, h(transcript), 12)
  }

  /** The verify data depends on the label and on the hash of the transcript: twelve bytes of the first block. */
  lemma FinishedIs(h: Hash, master: Master, lbl: Bytes, transcript: Bytes)
    ensures var seed := lbl + h(transcript);
            FinishedData(h, master, lbl, transcript) == Hmac(h, master, Hmac(h, master, seed) + seed)[..12]
  {
    hide Hmac, PrfBytes;
    var seed := lbl + h(transcript);
    var a := [seed, Hmac(h, master, seed)];
    BlockByChain(h, master, seed, a, 0, 12, 12);
    var vd := PrfBytes(h, master, seed, 12);
    assert vd[0..12] == vd;
  }

  /** A hash that keeps the last byte only. */
  function LastByteHash(x: Bytes): Key {
    seq<byte>(32, _ => if x == [] then 0 else x[|x| - 1])
  }

  lemma HmacOfLastByte(key: Bytes, data: Bytes)
    requires data != []
    ensures Hmac(LastByteHash, key, data) == LastByteHash(data)
  {
    hide XorEach;
    var block := KeyBlockOf64(LastByteHash, key);
    var inner, outer := XorEach(block, 0x36) + data, XorEach(block, 0x5c) + LastByteHash(XorEach(block, 0x36) + data);
    assert inner[|inner| - 1] == data[|data| - 1];
    assert outer[|outer| - 1] == LastByteHash(inner)[31];
  }

  /** Under this hash the verify data repeats the last byte of the transcript, so two transcripts are told apart. */
  lemma FinishedOfLastByte(master: Master, lbl: Bytes, transcript: Bytes)
    requires transcript != []
    ensures FinishedData(LastByteHash, master, lbl, transcript) == seq(12, _ => transcript[|transcript| - 1])
  {
    hide Hmac, PrfBytes, FinishedData;
    var d := LastByteHash(transcript);
    var seed := lbl + d;
    assert seed[|seed| - 1] == d[31];
    FinishedIs(LastByteHash, master, lbl, transcript);
    HmacOfLastByte(master, seed);
    HmacOfLastByte(master, LastByteHash(seed) + seed);
    assert (LastByteHash(seed) + seed)[32 + |seed| - 1] == seed[|seed| - 1];
  }
}
