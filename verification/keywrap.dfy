/** GOST key wrap and key diversification (RFC 4357 sections 6.3 to 6.5): wrapping and unwrapping
    determine each other, and the 44-byte form carries a wrapped key exactly. */
module KeyWrap {
  import opened Bytes
  import opened Gost28147
  import opened ImitMode
  import NumberTheory

  datatype WrappedKey = WrappedKey(ukm: Block, cekEnc: Key, cekMac: Tag)

  datatype KeyWrapError = BadLength | BadMac

  datatype Result<+T> = Ok(value: T) | Err(error: KeyWrapError)

  // ----- block modes -----

  function EncryptEcb(ks: Subkeys, data: Bytes): Bytes {
    if |data| < 8 then [] else EncryptBlock(ks, data[..8]) + EncryptEcb(ks, data[8..])
  }

  /** Cipher feedback: each block is combined with the encryption of the previous ciphertext block. */
  function EncryptCfb(ks: Subkeys, iv: Block, data: Bytes): Bytes
    decreases |data|
  {
    if |data| < 8 then []
    else
      var c := XorSeq(data[..8], EncryptBlock(ks, iv));
      c + EncryptCfb(ks, c, data[8..])
  }

  lemma {:induction false} ModeLengths(ks: Subkeys, iv: Block, data: Bytes)
    ensures |EncryptEcb(ks, data)| == |EncryptCfb(ks, iv, data)| == |data| - |data| % 8
    decreases |data|
  {
    hide EncryptBlock;
    if |data| >= 8 {
      ModeLengths(ks, XorSeq(data[..8], EncryptBlock(ks, iv)), data[8..]);
    }
  }

  lemma {:induction false} EcbInverse(ks: Subkeys, data: Bytes)
    requires |data| % 8 == 0
    ensures DecryptEcb(ks, EncryptEcb(ks, data)) == data
    ensures EncryptEcb(ks, DecryptEcb(ks, data)) == data
  {
    hide EncryptBlock, DecryptBlock;
    if |data| >= 8 {
      EcbInverse(ks, data[8..]);
      BlockCipherInverse(ks, data[..8]);
      var e, d := EncryptEcb(ks, data), DecryptEcb(ks, data);
      assert e[..8] == EncryptBlock(ks, data[..8]) && e[8..] == EncryptEcb(ks, data[8..]);
      assert d[..8] == DecryptBlock(ks, data[..8]) && d[8..] == DecryptEcb(ks, data[8..]);
      assert data == data[..8] + data[8..];
    }
  }

  lemma EcbUnfold(ks: Subkeys, data: Bytes)
    ensures |data| < 8 ==> EncryptEcb(ks, data) == []
    ensures |data| >= 8 ==> EncryptEcb(ks, data) == EncryptBlock(ks, data[..8]) + EncryptEcb(ks, data[8..])
  {
  }

  /** Block `i` of the result is the encryption of block `i` alone. */
  lemma {:induction false} EcbBlockAlone(ks: Subkeys, data: Bytes, i: nat)
    requires 8 * i + 8 <= |data|
    ensures |EncryptEcb(ks, data)| >= 8 * i + 8
    ensures EncryptEcb(ks, data)[8 * i..8 * i + 8] == EncryptBlock(ks, data[8 * i..8 * i + 8])
    decreases i
  {
    hide EncryptBlock, EncryptEcb;
    EcbUnfold(ks, data);
    var first: Bytes, more: Bytes := EncryptBlock(ks, data[..8]), EncryptEcb(ks, data[8..]);
    if i == 0 {
      assert (first + more)[0..8] == first;
    } else {
      EcbBlockAlone(ks, data[8..], i - 1);
      assert data[8..][8 * (i - 1)..8 * i] == data[8 * i..8 * i + 8];
      assert (first + more)[8 * i..8 * i + 8] == more[8 * (i - 1)..8 * i];
    }
  }

  method EncryptEcbLe(ks: Subkeys, data: Bytes) returns (out: Bytes)
    ensures out == EncryptEcb(ks, data)
  {
    hide *;
    out := [];
    var rest := data;
    while |rest| >= 8
      invariant out + EncryptEcb(ks, rest) == EncryptEcb(ks, data)
    {
      var enc := EncryptBlockLe(ks, rest[..8]);
      EcbUnfold(ks, rest);
      ConcatAssoc(out, enc, EncryptEcb(ks, rest[8..]));
      out := out + enc;
      rest := rest[8..];
    }
    EcbUnfold(ks, rest);
  }

  lemma CfbUnfold(ks: Subkeys, iv: Block, data: Bytes)
    ensures |data| < 8 ==> EncryptCfb(ks, iv, data) == []
    ensures |data| >= 8 ==>
              var c := XorSeq(data[..8], EncryptBlock(ks, iv));
              EncryptCfb(ks, iv, data) == c + EncryptCfb(ks, c, data[8..])
  {
  }

  /** The register before block `i`: the initial vector, then always the ciphertext block before. */
  function Feedback(iv: Block, out: Bytes, i: nat): Block
    requires 8 * i <= |out|
  {
    if i == 0 then iv else out[8 * i - 8..8 * i]
  }

  /** Each ciphertext block is its data block masked by the encryption of the register. */
  lemma {:induction false} CfbFeedsBack(ks: Subkeys, iv: Block, data: Bytes, i: nat)
    requires 8 * i + 8 <= |data|
    ensures var out := EncryptCfb(ks, iv, data);
            && |out| >= 8 * i + 8
            && out[8 * i..8 * i + 8] == XorSeq(data[8 * i..8 * i + 8], EncryptBlock(ks, Feedback(iv, out, i)))
    decreases i
  {
    hide EncryptBlock, EncryptCfb, XorSeq;
    CfbUnfold(ks, iv, data);
    var c := XorSeq(data[..8], EncryptBlock(ks, iv));
    var out, more := EncryptCfb(ks, iv, data), EncryptCfb(ks, c, data[8..]);
    assert out == c + more;
    if i == 0 {
      assert out[0..8] == c && data[0..8] == data[..8];
    } else {
      CfbFeedsBack(ks, c, data[8..], i - 1);
      assert data[8..][8 * (i - 1)..8 * i] == data[8 * i..8 * i + 8];
      assert out[8 * i..8 * i + 8] == more[8 * (i - 1)..8 * i];
      if i == 1 {
        assert out[0..8] == c;
      } else {
        assert out[8 * i - 8..8 * i] == more[8 * (i - 1) - 8..8 * (i - 1)];
      }
    }
  }

  method EncryptCfbLe(ks: Subkeys, iv: Block, data: Bytes) returns (out: Bytes)
    ensures out == EncryptCfb(ks, iv, data)
  {
    hide *;
    out := [];
    var feedback: Block := iv;
    var rest := data;
    while |rest| >= 8
      invariant out + EncryptCfb(ks, feedback, rest) == EncryptCfb(ks, iv, data)
    {
      var gamma := EncryptBlockLe(ks, feedback);
      var cblock := XorSeq(rest[..8], gamma);
      CfbUnfold(ks, feedback, rest);
      ConcatAssoc(out, cblock, EncryptCfb(ks, cblock, rest[8..]));
      out := out + cblock;
      feedback := cblock;
      rest := rest[8..];
    }
    CfbUnfold(ks, feedback, rest);
  }

  // ----- key diversification -----

  function Bit(b: byte, j: nat): bool {
    PowPositive(2, j);
    b / Pow(2, j) % 2 == 1
  }

  /** The sum modulo 2^32 of those of the first `j` words whose bit in `b` equals `v`. */
  function WordSum(w: Words, b: byte, v: bool, j: nat): u32
    requires j <= 8
  {
    if j == 0 then 0
    else if Bit(b, j - 1) == v then Add32(WordSum(w, b, v, j - 1), w[j - 1])
    else WordSum(w, b, v, j - 1)
  }

  function DiversifyStep(k: Key, b: byte): Key {
    hide EncryptEcb, EncryptCfb, WordSum, KeyWords, Pack, Expand;
    var w := KeyWords(k);
    var s := Pack(WordSum(w, b, true, 8), WordSum(w, b, false, 8));
    ModeLengths(Expand(k), s, k);
    EncryptCfb(Expand(k), s, k)
  }

  function Diversify(k: Key, ukm: Bytes): Key {
    if ukm == [] then k else DiversifyStep(Diversify(k, ukm[..|ukm| - 1]), ukm[|ukm| - 1])
  }

  function SumOf(xs: seq<nat>): nat {
    if xs == [] then 0 else SumOf(xs[..|xs| - 1]) + xs[|xs| - 1]
  }

  /** The words of a key at the bits of a byte that equal `v`, with zero in the place of the others. */
  ghost predicate AreChosen(w: Words, b: byte, v: nat, xs: seq<nat>) {
    |xs| == 8 && forall j :: 0 <= j < 8 ==> xs[j] == if Digit(b, 2, j) == v then w[j] else 0
  }

  lemma WordSumStep(w: Words, b: byte, v: bool, j: nat)
    requires j < 8
    ensures WordSum(w, b, v, j + 1)
         == if (Digit(b, 2, j) == 1) == v then Add32(WordSum(w, b, v, j), w[j]) else WordSum(w, b, v, j)
  {
    assert Bit(b, j) <==> Digit(b, 2, j) == 1;
    hide Bit, Digit, Add32;
  }

  lemma SumOfStep(xs: seq<nat>, j: nat)
    requires j < |xs|
    ensures SumOf(xs[..j + 1]) == SumOf(xs[..j]) + xs[j]
  {
    assert xs[..j + 1][..j] == xs[..j];
  }

  lemma SumStep(sum: nat, x: u32)
    ensures (sum + x) % TWO_32 == Add32(sum % TWO_32, x)
  {
    NumberTheory.ModStep(sum, x, TWO_32);
  }

  lemma {:induction false} WordSumIs(w: Words, b: byte, v: bool, xs: seq<nat>, j: nat)
    requires AreChosen(w, b, if v then 1 else 0, xs) && j <= 8
    ensures WordSum(w, b, v, j) == SumOf(xs[..j]) % TWO_32
    decreases j
  {
    if j > 0 {
      hide WordSum, SumOf, Digit, Add32;
      WordSumIs(w, b, v, xs, j - 1);
      WordSumStep(w, b, v, j - 1);
      SumOfStep(xs, j - 1);
      SumStep(SumOf(xs[..j - 1]), w[j - 1]);
    }
  }

  /** One step in terms of the bits of the ukm byte: the initial vector holds in its low word the sum of the key words
      at the set bits, in its high word the sum of the others, and the key is enciphered under itself with it, each
      ciphertext block feeding the next. */
  lemma DiversifyStepIs(k: Key, b: byte, on: seq<nat>, off: seq<nat>, iv: Block, i: nat)
    requires AreChosen(KeyWords(k), b, 1, on) && AreChosen(KeyWords(k), b, 0, off) && i < 4
    requires Low(iv) == SumOf(on) % 0x1_0000_0000 && High(iv) == SumOf(off) % 0x1_0000_0000
    ensures var r := DiversifyStep(k, b);
            r[8 * i..8 * i + 8] == XorSeq(k[8 * i..8 * i + 8], EncryptBlock(Expand(k), Feedback(iv, r, i)))
  {
    hide EncryptBlock, EncryptCfb, XorSeq, Expand, KeyWords, WordSum, AreChosen, SumOf, Pack, Low, High, Feedback;
    var w := KeyWords(k);
    assert on[..8] == on && off[..8] == off by { ChosenLength(w, b, 1, on); ChosenLength(w, b, 0, off); }
    WordSumIs(w, b, true, on, 8);
    WordSumIs(w, b, false, off, 8);
    PackUnpack(iv);
    CfbFeedsBack(Expand(k), iv, k, i);
  }

  lemma ChosenLength(w: Words, b: byte, v: nat, xs: seq<nat>)
    requires AreChosen(w, b, v, xs)
    ensures |xs| == 8
  {
  }

  /** The bytes of the ukm act one after the other, the first one on the key itself. */
  lemma {:induction false} DiversifyByBytes(kek: Key, ukm: Bytes, keys: seq<Key>, i: nat)
    requires i <= |ukm| && |keys| == |ukm| + 1 && keys[0] == kek
    requires forall j :: 0 <= j < |ukm| ==> keys[j + 1] == DiversifyStep(keys[j], ukm[j])
    ensures Diversify(kek, ukm[..i]) == keys[i]
    decreases i
  {
    hide DiversifyStep;
    if i > 0 {
      DiversifyByBytes(kek, ukm, keys, i - 1);
      assert ukm[..i][..i - 1] == ukm[..i - 1];
    }
  }

  method KekDiversify(kek: Key, ukm: Block) returns (k: Key)
    ensures k == Diversify(kek, ukm)
  {
    hide Expand, KeyWords, EncryptCfb, Add32, Pack, Bit;
    k := kek;
    for i := 0 to 8
      invariant k == Diversify(kek, ukm[..i])
    {
      var w := KeyWords(k);
      var s1: u32, s2: u32 := 0, 0;
      for j := 0 to 8
        invariant s1 == WordSum(w, ukm[i], true, j) && s2 == WordSum(w, ukm[i], false, j)
      {
        if Bit(ukm[i], j) {
          s1 := Add32(s1, w[j]);
        } else {
          s2 := Add32(s2, w[j]);
        }
      }
      var next := EncryptCfbLe(Expand(k), Pack(s1, s2), k);
      assert next == DiversifyStep(k, ukm[i]);
      assert ukm[..i + 1][..i] == ukm[..i];
      k := next;
    }
    assert ukm[..8] == ukm;
  }

  // ----- wrap and unwrap -----

  function EncryptKey(ks: Subkeys, key: Key): Key {
    hide EncryptEcb, EncryptCfb;
    ModeLengths(ks, Zeros(8), key);
    EncryptEcb(ks, key)
  }

  function DecryptKey(ks: Subkeys, key: Key): Key {
    hide DecryptEcb;
    DecryptEcbLength(ks, key);
    DecryptEcb(ks, key)
  }

  /** The authentication code of a wrapped key. */
  function KeyTag(k: Key, ukm: Block, cek: Key): Tag { ImitTag(Setup(k, ukm, false), cek) }

  /** Wrapping under the diversified key. */
  function WrapUnder(k: Key, ukm: Block, cek: Key): WrappedKey {
    WrappedKey(ukm, EncryptKey(Expand(k), cek), KeyTag(k, ukm, cek))
  }

  function Wrap(kek: Key, ukm: Block, cek: Key): WrappedKey { WrapUnder(Diversify(kek, ukm), ukm, cek) }

  /** What a wrapped key holds: the ukm, the key enciphered block by block, and the code of the bare key, without
      meshing, from the ukm as initial state; all under the diversified key. */
  lemma WrapHolds(kek: Key, ukm: Block, cek: Key)
    ensures var w, k := Wrap(kek, ukm, cek), Diversify(kek, ukm);
            && w.ukm == ukm
            && w.cekEnc == EncryptKey(Expand(k), cek)
            && w.cekMac == ImitTag(Setup(k, ukm, false), cek)
  {
    hide Expand, Diversify, ImitTag, EncryptKey;
  }

  lemma EncryptedKeyBlock(ks: Subkeys, key: Key, i: nat)
    requires i < 4
    ensures EncryptKey(ks, key)[8 * i..8 * i + 8] == EncryptBlock(ks, key[8 * i..8 * i + 8])
  {
    hide EncryptEcb, EncryptBlock;
    EcbBlockAlone(ks, key, i);
  }

  function UnwrapUnder(k: Key, w: WrappedKey): Result<Key> {
    var cek := DecryptKey(Expand(k), w.cekEnc);
    if KeyTag(k, w.ukm, cek) == w.cekMac then Ok(cek) else Err(BadMac)
  }

  function Unwrap(kek: Key, w: WrappedKey): Result<Key> { UnwrapUnder(Diversify(kek, w.ukm), w) }

  /** Unwrapping undoes wrapping, and accepts nothing but what wrapping produces:
      a wrapped key opens to `cek` exactly when wrapping `cek` with its ukm gives that wrapped key. */
  lemma UnwrapExactlyWrapped(kek: Key, w: WrappedKey, cek: Key)
    ensures Unwrap(kek, w) == Ok(cek) <==> Wrap(kek, w.ukm, cek) == w
  {
    hide Diversify, Expand, ImitTag, EncryptEcb, DecryptEcb;
    var ks := Expand(Diversify(kek, w.ukm));
    EcbInverse(ks, cek);
    EcbInverse(ks, w.cekEnc);
  }

  /** Wrapping and unwrapping with the same key-encryption key recovers the key. */
  lemma UnwrapAfterWrap(kek: Key, ukm: Block, cek: Key)
    ensures Unwrap(kek, Wrap(kek, ukm, cek)) == Ok(cek)
  {
    hide Unwrap, Diversify, Expand, ImitTag, EncryptEcb;
    UnwrapExactlyWrapped(kek, Wrap(kek, ukm, cek), cek);
  }

  method GostKeyWrap(kek: Key, ukm: Block, cek: Key) returns (w: WrappedKey)
    ensures w == Wrap(kek, ukm, cek)
  {
    hide Diversify, Expand, ImitTag, EncryptEcb;
    var k := KekDiversify(kek, ukm);
    var mac := Imit(k, ukm, cek);
    var enc := EncryptEcbLe(Expand(k), cek);
    ModeLengths(Expand(k), ukm, cek);
    w := WrappedKey(ukm, enc, mac);
  }

  method GostKeyUnwrap(kek: Key, w: WrappedKey) returns (r: Result<Key>)
    ensures r == Unwrap(kek, w)
  {
    hide Diversify, Expand, ImitTag, DecryptEcb;
    var k := KekDiversify(kek, w.ukm);
    var cek := DecryptEcbLe(Expand(k), w.cekEnc);
    DecryptEcbLength(Expand(k), w.cekEnc);
    var expected := Imit(k, w.ukm, cek);
    var same := ConstantTimeEq(expected, w.cekMac);
    r := if same then Ok(cek) else Err(BadMac);
  }

  // ----- the 44-byte form -----

  method ToBytes(w: WrappedKey) returns (out: array<byte>)
    ensures fresh(out) && out[..] == w.ukm + w.cekEnc + w.cekMac
  {
    out := new byte[44](_ => 0);
    forall i | 0 <= i < 8 { out[i] := w.ukm[i]; }
    forall i | 8 <= i < 40 { out[i] := w.cekEnc[i - 8]; }
    forall i | 40 <= i < 44 { out[i] := w.cekMac[i - 40]; }
  }

  function FromBytes(bytes: Bytes): Result<WrappedKey> {
    if |bytes| != 44 then Err(BadLength)
    else Ok(WrappedKey(bytes[..8], bytes[8..40], bytes[40..]))
  }

  /** Parsing accepts exactly the serialised forms. */
  lemma FromBytesExactly(bytes: Bytes, w: WrappedKey)
    ensures FromBytes(bytes) == Ok(w) <==> bytes == w.ukm + w.cekEnc + w.cekMac
  {
    if |bytes| == 44 {
      assert bytes == bytes[..8] + bytes[8..40] + bytes[40..];
    }
    var s := w.ukm + w.cekEnc + w.cekMac;
    assert s[..8] == w.ukm && s[8..40] == w.cekEnc && s[40..] == w.cekMac;
  }
}
