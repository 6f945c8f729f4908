/** The GOST 28147-89 block cipher with the param-Z S-box: key schedule, Feistel network,
    block encryption and decryption in little-endian byte order (RFC 8891 section 4). */
module Gost28147 {
  import opened Bytes

  type Words = w: seq<u32> | |w| == 8 witness seq(8, _ => 0)
  type Subkeys = k: seq<u32> | |k| == 32 witness seq(32, _ => 0)
  type Halves = (u32, u32)
  type nibble = x: int | 0 <= x < 16
  type SboxRow = r: seq<nibble> | |r| == 16 witness seq(16, _ => 0)

  /** The substitution applied to the nibble at bit positions `4 * i .. 4 * i + 3`. */
  function SboxZ(i: nat): SboxRow
    requires i < 8
  {
    match i
    case 0 => [12, 4, 6, 2, 10, 5, 11, 9, 14, 8, 13, 7, 0, 3, 15, 1]
    case 1 => [6, 8, 2, 3, 9, 10, 5, 12, 1, 14, 4, 7, 11, 13, 0, 15]
    case 2 => [11, 3, 5, 8, 2, 15, 10, 13, 14, 1, 7, 4, 12, 9, 6, 0]
    case 3 => [12, 8, 2, 1, 13, 4, 15, 6, 7, 0, 10, 5, 3, 14, 9, 11]
    case 4 => [7, 15, 5, 10, 8, 1, 6, 13, 0, 9, 3, 14, 11, 4, 2, 12]
    case 5 => [5, 13, 15, 6, 9, 2, 12, 10, 11, 7, 8, 1, 4, 3, 14, 0]
    case 6 => [8, 14, 2, 5, 6, 9, 1, 12, 15, 4, 11, 0, 13, 10, 3, 7]
    case 7 => [1, 7, 14, 13, 0, 5, 8, 3, 4, 15, 10, 6, 9, 12, 11, 2]
  }

  // ----- the round function -----

  function Nibble(s: u32, i: nat): nibble {
    PowPositive(16, i);
    s / Pow(16, i) % 16
  }

  /** The low `i` nibbles of `s`, each replaced by its S-box entry. */
  function Substitute(s: u32, i: nat): nat
    requires i <= 8
  {
    if i == 0 then 0 else Substitute(s, i - 1) + Shifted(SboxNibble(s, i - 1), i - 1)
  }

  function SboxNibble(s: u32, i: nat): nibble
    requires i < 8
  {
    SboxZ(i)[Nibble(s, i)]
  }

  function Shifted(v: nat, i: nat): nat { v * Pow(16, i) }

  lemma {:induction false} SubstituteBound(s: u32, i: nat)
    requires i <= 8
    ensures Substitute(s, i) < Pow(16, i)
  {
    if i > 0 {
      SubstituteBound(s, i - 1);
      MulMonotone(SboxNibble(s, i - 1), 15, Pow(16, i - 1));
    }
  }

  lemma {:induction false} Pow16Is2(i: nat)
    ensures Pow(16, i) == Pow(2, 4 * i)
  {
    if i > 0 {
      Pow16Is2(i - 1);
      PowAdd(2, 4, 4 * (i - 1));
      Pow2Values();
    }
  }

  /** The round function `t(a + k mod 2^32) <<< 11`. */
  function G(k: u32, a: u32): u32 {
    var s := Add32(a, k);
    SubstituteBound(s, 8);
    Pow16Is2(8);
    Pow2Values();
    RotateLeft11(Substitute(s, 8))
  }

  method RoundFunction(k: u32, a: u32) returns (r: u32)
    ensures r == G(k, a)
  {
    var s := Add32(a, k);
    var out: nat := 0;
    var i := 0;
    while i < 8
      invariant 0 <= i <= 8
      invariant out == Substitute(s, i)
    {
      SubstituteBound(s, i);
      Pow16Is2(i);
      var v := SboxNibble(s, i);
      OrDisjoint(out, v, 4 * i);
      out := Or(out, Shifted(v, i));
      i := i + 1;
    }
    SubstituteBound(s, 8);
    Pow16Is2(8);
    Pow2Values();
    r := RotateLeft11(out);
  }

  /** Each nibble of the substituted word is the S-box entry of the nibble it replaces. */
  lemma {:induction false} SubstituteNibble(s: u32, n: nat, i: nat)
    requires i < n <= 8
    ensures Digit(Substitute(s, n), 16, i) == SboxZ(i)[Digit(s, 16, i)]
  {
    hide SboxZ, Digit;
    var low, v, p := Substitute(s, n - 1), SboxNibble(s, n - 1), Pow(16, n - 1);
    SubstituteBound(s, n - 1);
    DigitOfSum(low, v, n - 1, i);
    if i < n - 1 {
      SubstituteNibble(s, n - 1, i);
    } else {
      NibbleIsDigit(s, i);
    }
  }

  lemma NibbleIsDigit(s: u32, i: nat)
    requires i < 8
    ensures Digit(s, 16, i) == Nibble(s, i)
  {
  }

  /** The digits of `low + v * 16^n`: those of `low`, then `v`. */
  lemma {:induction false} DigitOfSum(low: nat, v: nibble, n: nat, i: nat)
    requires low < Pow(16, n) && i <= n
    ensures Digit(low + v * Pow(16, n), 16, i) == if i == n then v else Digit(low, 16, i)
  {
    hide Digit;
    if n == 0 {
      DigitStep(v, 16, 0);
    } else {
      var p := Pow(16, n - 1);
      var sum := low + v * Pow(16, n);
      assert v * (16 * p) == 16 * (v * p);
      assert sum % 16 == low % 16 && sum / 16 == low / 16 + v * p;
      if i == 0 {
        DigitStep(sum, 16, 0);
        DigitStep(low, 16, 0);
      } else {
        DigitStep(sum, 16, i - 1);
        DigitStep(low, 16, i - 1);
        DigitOfSum(low / 16, v, n - 1, i - 1);
      }
    }
  }

  /** The round function in the words of the standard: rotated back by 11 bits, each nibble of the result is the S-box
      entry of that nibble of the sum of half block and subkey modulo 2^32. */
  lemma RoundFunctionByNibble(k: u32, a: u32, i: nat)
    requires i < 8
    ensures var r := G(k, a);
            var back := r / 0x800 + r % 0x800 * 0x20_0000;
            Digit(back, 16, i) == SboxZ(i)[Digit((a + k) % 0x1_0000_0000, 16, i)]
  {
    hide Digit, SboxZ, Substitute;
    var s := Add32(a, k);
    SubstituteBound(s, 8);
    Pow16Is2(8);
    Pow2Values();
    RotateBack(Substitute(s, 8));
    SubstituteNibble(s, 8, i);
  }

  lemma RotateBack(x: u32)
    ensures var r := RotateLeft11(x); r / 0x800 + r % 0x800 * 0x20_0000 == x
  {
    var high, low := x / 0x20_0000, x % 0x20_0000;
    assert x * 0x800 % TWO_32 == low * 0x800 by {
      QuotientUnique(x * 0x800, TWO_32, high, low * 0x800);
    }
    QuotientUnique(low * 0x800 + high, 0x800, low, high);
  }

  // ----- key schedule -----

  function KeyWords(key: Key): Words {
    seq(8, j requires 0 <= j < 8 => Word(key[4 * j..4 * j + 4]))
  }

  /** Words 0-7 three times over, then words 7-0. */
  function Schedule(w: Words): Subkeys {
    w + w + w + Reverse(w)
  }

  /** The subkey of round `i`. */
  function SubkeyIndex(i: nat): (j: nat)
    requires i < 32
    ensures j < 8
  {
    if i < 24 then i % 8 else 31 - i
  }

  lemma ScheduleAt(w: Words, i: nat)
    requires i < 32
    ensures Schedule(w)[i] == w[if i < 24 then i % 8 else 31 - i]
  {
    if i >= 24 {
      ReverseAt(w, i - 24);
    }
  }

  method ComputeSchedule(words: Words) returns (ks: array<u32>)
    ensures fresh(ks) && ks[..] == Schedule(words)
  {
    ks := new u32[32](_ => 0);
    for i := 0 to 24
      invariant forall j :: 0 <= j < i ==> ks[j] == words[SubkeyIndex(j)]
    {
      ks[i] := words[i % 8];
    }
    for i := 0 to 8
      invariant forall j :: 0 <= j < 24 + i ==> ks[j] == words[SubkeyIndex(j)]
    {
      ks[24 + i] := words[7 - i];
    }
    forall j | 0 <= j < 32 ensures ks[j] == Schedule(words)[j] {
      ScheduleAt(words, j);
    }
  }

  function Expand(key: Key): Subkeys { Schedule(KeyWords(key)) }

  /** Key words are little-endian: byte `i` of word `j` is byte `4 * j + i` of the key. */
  lemma KeyWordBytes(key: Key, j: nat, i: nat)
    requires j < 8 && i < 4
    ensures Digit(KeyWords(key)[j], 0x100, i) == key[4 * j + i]
  {
    LeDigit(key[4 * j..4 * j + 4], i);
  }

  /** The subkeys from the key bytes: words 0-7 three times, then words 7-0, each least significant byte first. */
  lemma SubkeyBytes(key: Key, i: nat, j: nat)
    requires i < 32 && j < 4
    ensures Digit(Expand(key)[i], 0x100, j) == key[4 * (if i < 24 then i % 8 else 31 - i) + j]
  {
    hide Schedule, KeyWords, Digit;
    ScheduleAt(KeyWords(key), i);
    KeyWordBytes(key, if i < 24 then i % 8 else 31 - i, j);
  }

  // ----- the Feistel network -----

  function Round(k: u32, x: Halves): Halves {
    (x.1, Xor32(x.0, G(k, x.1)))
  }

  /** One swapping round per subkey; the pair is (high half, low half). */
  function Rounds(ks: seq<u32>, x: Halves): Halves {
    if ks == [] then x else Rounds(ks[1..], Round(ks[0], x))
  }

  function Swap(x: Halves): Halves { (x.1, x.0) }

  lemma {:induction false} RoundsAppend(ks: seq<u32>, k: u32, x: Halves)
    ensures Rounds(ks + [k], x) == Round(k, Rounds(ks, x))
  {
    if ks == [] {
      assert Rounds([k], x) == Rounds([k][1..], Round(k, x));
    } else {
      assert (ks + [k])[1..] == ks[1..] + [k];
      RoundsAppend(ks[1..], k, Round(ks[0], x));
    }
  }

  lemma RoundUndo(k: u32, x: Halves)
    ensures Round(k, Swap(Round(k, x))) == Swap(x)
  {
    XorCancels(x.0, G(k, x.1));
  }

  /** Running the reversed subkeys over the swapped halves undoes any number of rounds. */
  lemma {:induction false} RoundsUndo(ks: seq<u32>, x: Halves)
    ensures Rounds(Reverse(ks), Swap(Rounds(ks, x))) == Swap(x)
  {
    if ks != [] {
      RoundsUndo(ks[1..], Round(ks[0], x));
      RoundsAppend(Reverse(ks[1..]), ks[0], Swap(Rounds(ks, x)));
      RoundUndo(ks[0], x);
    }
  }

  /** 32 rounds whose last one does not swap. */
  function Feistel(ks: Subkeys, x: Halves): Halves { Swap(Rounds(ks, x)) }

  method FeistelNetwork(ks: Subkeys, high: u32, low: u32) returns (r1: u32, r0: u32)
    ensures (r1, r0) == Feistel(ks, (high, low))
  {
    var a1, a0 := high, low;
    for i := 0 to 31
      invariant (a1, a0) == Rounds(ks[..i], (high, low))
    {
      var f := RoundFunction(ks[i], a0);
      var t := Xor32(a1, f);
      assert ks[..i + 1] == ks[..i] + [ks[i]];
      RoundsAppend(ks[..i], ks[i], (high, low));
      a1 := a0;
      a0 := t;
    }
    var f := RoundFunction(ks[31], a0);
    assert ks == ks[..31] + [ks[31]];
    RoundsAppend(ks[..31], ks[31], (high, low));
    return Xor32(a1, f), a0;
  }

  // ----- the network as a recurrence -----

  /** x(i + 2) = x(i) xor g(k(i), x(i + 1)) for every subkey. */
  predicate IsTrace(ks: seq<u32>, xs: seq<u32>) {
    |xs| == |ks| + 2 && forall i :: 0 <= i < |ks| ==> xs[i + 2] == Xor32(xs[i], G(ks[i], xs[i + 1]))
  }

  /** Rounds carry two neighbours of the recurrence along. */
  lemma {:induction false} RoundsFollowTrace(ks: seq<u32>, xs: seq<u32>)
    requires IsTrace(ks, xs)
    ensures Rounds(ks, (xs[0], xs[1])) == (xs[|ks|], xs[|ks| + 1])
    decreases |ks|
  {
    hide G, Xor32;
    if ks != [] {
      var rest := xs[1..];
      assert xs[0 + 2] == Xor32(xs[0], G(ks[0], xs[0 + 1]));
      forall i | 0 <= i < |ks[1..]| ensures rest[i + 2] == Xor32(rest[i], G(ks[1..][i], rest[i + 1])) {
        assert xs[i + 1 + 2] == Xor32(xs[i + 1], G(ks[i + 1], xs[i + 1 + 1]));
      }
      RoundsFollowTrace(ks[1..], rest);
    }
  }

  /** The cipher on halves: from (x(0), x(1)) to (x(33), x(32)). */
  lemma FeistelFollowsTrace(ks: Subkeys, xs: seq<u32>)
    requires IsTrace(ks, xs)
    ensures Feistel(ks, (xs[0], xs[1])) == (xs[33], xs[32])
  {
    hide Rounds;
    RoundsFollowTrace(ks, xs);
  }

  /** The first 16 rounds only, halves swapped as usual (the MAC step). */
  method FirstRounds(ks: Subkeys, high: u32, low: u32) returns (r1: u32, r0: u32)
    ensures (r1, r0) == Rounds(ks[..16], (high, low))
  {
    var a1, a0 := high, low;
    for i := 0 to 16
      invariant (a1, a0) == Rounds(ks[..i], (high, low))
    {
      var f := RoundFunction(ks[i], a0);
      var t := Xor32(a1, f);
      assert ks[..i + 1] == ks[..i] + [ks[i]];
      RoundsAppend(ks[..i], ks[i], (high, low));
      a1 := a0;
      a0 := t;
    }
    return a1, a0;
  }

  /** What fixes a running stream: the key, the initial vector, and whether the key is meshed. */
  datatype Setup = Setup(key: Key, iv: Block, meshing: bool)

  // ----- blocks -----

  function Crypt(ks: Subkeys, b: Block): Block {
    var r := Feistel(ks, (High(b), Low(b)));
    Pack(r.1, r.0)
  }

  function EncryptBlock(ks: Subkeys, b: Block): Block { Crypt(ks, b) }

  function DecryptBlock(ks: Subkeys, b: Block): Block { Crypt(Reverse(ks), b) }

  lemma CryptUndo(ks: Subkeys, b: Block)
    ensures Crypt(Reverse(ks), Crypt(ks, b)) == b
  {
    var x := (High(b), Low(b));
    var r := Feistel(ks, x);
    UnpackPack(r.1, r.0);
    RoundsUndo(ks, x);
    PackUnpack(b);
  }

  /** For every schedule, decryption and encryption of blocks undo each other. */
  lemma BlockCipherInverse(ks: Subkeys, b: Block)
    ensures DecryptBlock(ks, EncryptBlock(ks, b)) == b
    ensures EncryptBlock(ks, DecryptBlock(ks, b)) == b
  {
    CryptUndo(ks, b);
    CryptUndo(Reverse(ks), b);
    ReverseTwice(ks);
  }

  method EncryptBlockLe(ks: Subkeys, block: Block) returns (out: Block)
    ensures out == EncryptBlock(ks, block)
  {
    var r1, r0 := FeistelNetwork(ks, High(block), Low(block));
    out := Pack(r0, r1);
  }

  method DecryptBlockLe(ks: Subkeys, block: Block) returns (out: Block)
    ensures out == DecryptBlock(ks, block)
  {
    var r1, r0 := FeistelNetwork(Reverse(ks), High(block), Low(block));
    out := Pack(r0, r1);
  }

  /** The cipher on blocks: high word x(0) and low word x(1) go to high word x(33) and low word x(32). */
  lemma BlockFollowsTrace(ks: Subkeys, b: Block, xs: seq<u32>)
    requires IsTrace(ks, xs) && xs[0] == High(b) && xs[1] == Low(b)
    ensures High(EncryptBlock(ks, b)) == xs[33] && Low(EncryptBlock(ks, b)) == xs[32]
  {
    hide Feistel;
    FeistelFollowsTrace(ks, xs);
    UnpackPack(xs[32], xs[33]);
  }

  // ----- key meshing (RFC 4357 section 2.3.2) -----

  function MeshConstant(): Key {
    [0x69, 0x00, 0x72, 0x22, 0x64, 0xC9, 0x04, 0x23] + [0x8D, 0x3A, 0xDB, 0x96, 0x46, 0xE9, 0x2A, 0xC4] +
    [0x18, 0xFE, 0xAC, 0x94, 0x00, 0xED, 0x07, 0x12] + [0xC0, 0x86, 0xDC, 0xC2, 0xEF, 0x4C, 0xA9, 0x2B]
  }

  /** Decryption in electronic codebook mode, block by block; a trailing partial block is dropped. */
  function DecryptEcb(ks: Subkeys, data: Bytes): (r: Bytes) {
    if |data| < 8 then [] else DecryptBlock(ks, data[..8]) + DecryptEcb(ks, data[8..])
  }

  lemma {:induction false} DecryptEcbLength(ks: Subkeys, data: Bytes)
    ensures |DecryptEcb(ks, data)| == |data| - |data| % 8
  {
    hide DecryptBlock;
    if |data| >= 8 {
      DecryptEcbLength(ks, data[8..]);
    }
  }

  /** The next key of the meshing chain. */
  function MeshKey(key: Key): Key {
    hide Expand, MeshConstant, DecryptEcb;
    DecryptEcbLength(Expand(key), MeshConstant());
    DecryptEcb(Expand(key), MeshConstant())
  }

  function MeshedKey(key: Key, times: nat): Key {
    if times == 0 then key else MeshKey(MeshedKey(key, times - 1))
  }

  lemma DecryptEcbUnfold(ks: Subkeys, data: Bytes)
    ensures |data| < 8 ==> DecryptEcb(ks, data) == []
    ensures |data| >= 8 ==> DecryptEcb(ks, data) == DecryptBlock(ks, data[..8]) + DecryptEcb(ks, data[8..])
  {
  }

  method DecryptEcbLe(ks: Subkeys, data: Bytes) returns (out: Bytes)
    ensures out == DecryptEcb(ks, data)
  {
    out := [];
    var rest := data;
    while |rest| >= 8
      invariant out + DecryptEcb(ks, rest) == DecryptEcb(ks, data)
    {
      var dec := DecryptBlockLe(ks, rest[..8]);
      DecryptEcbUnfold(ks, rest);
      ConcatAssoc(out, dec, DecryptEcb(ks, rest[8..]));
      out := out + dec;
      rest := rest[8..];
    }
    DecryptEcbUnfold(ks, rest);
  }

  method NextMeshKey(rawKey: Key) returns (newKey: Key)
    ensures newKey == MeshKey(rawKey)
  {
    hide DecryptEcb, Expand, MeshConstant;
    var out := DecryptEcbLe(Expand(rawKey), MeshConstant());
    assert out == MeshKey(rawKey);
    newKey := out;
  }

  /** Encrypted under the old key, the new key is the meshing constant, block by block. */
  lemma MeshedKeyEncrypts(key: Key, i: nat)
    requires i < 4
    ensures EncryptBlock(Expand(key), MeshKey(key)[8 * i..8 * i + 8]) == MeshConstant()[8 * i..8 * i + 8]
  {
    hide Expand, MeshConstant, DecryptBlock, EncryptBlock;
    MeshKeyIs(key);
    EcbBlock(Expand(key), MeshConstant(), i);
    BlockCipherInverse(Expand(key), MeshConstant()[8 * i..8 * i + 8]);
  }

  lemma MeshKeyIs(key: Key)
    ensures MeshKey(key) == DecryptEcb(Expand(key), MeshConstant())
  {
    hide Expand, MeshConstant, DecryptEcb;
  }

  /** Block `i` of the decryption is the decryption of block `i`. */
  lemma {:induction false} EcbBlock(ks: Subkeys, data: Bytes, i: nat)
    requires 8 * i + 8 <= |data|
    ensures |DecryptEcb(ks, data)| >= 8 * i + 8
    ensures DecryptEcb(ks, data)[8 * i..8 * i + 8] == DecryptBlock(ks, data[8 * i..8 * i + 8])
    decreases i
  {
    hide DecryptBlock, DecryptEcb;
    DecryptEcbUnfold(ks, data);
    var first: Bytes, more: Bytes := DecryptBlock(ks, data[..8]), DecryptEcb(ks, data[8..]);
    if i == 0 {
      assert (first + more)[0..8] == first;
    } else {
      EcbBlock(ks, data[8..], i - 1);
      assert data[8..][8 * (i - 1)..8 * i] == data[8 * i..8 * i + 8];
      assert (first + more)[8 * i..8 * i + 8] == more[8 * (i - 1)..8 * i];
    }
  }

  // ----- sample values -----

  lemma Pow16Values()
    ensures Pow(16, 0) == 1 && Pow(16, 1) == 0x10 && Pow(16, 2) == 0x100 && Pow(16, 3) == 0x1000
    ensures Pow(16, 4) == 0x1_0000 && Pow(16, 5) == 0x10_0000 && Pow(16, 6) == 0x100_0000 && Pow(16, 7) == 0x1000_0000
  {
    assert Pow(16, 2) == 16 * Pow(16, 1);
    assert Pow(16, 3) == 16 * Pow(16, 2);
    assert Pow(16, 4) == 16 * Pow(16, 3);
    assert Pow(16, 5) == 16 * Pow(16, 4);
    assert Pow(16, 6) == 16 * Pow(16, 5);
    assert Pow(16, 7) == 16 * Pow(16, 6);
  }

  lemma SubstituteStep(s: u32, i: nat)
    requires i < 8
    ensures Substitute(s, 0) == 0
    ensures Substitute(s, i + 1) == Substitute(s, i) + SboxNibble(s, i) * Pow(16, i)
  {
    hide SboxNibble;
  }

  lemma FirstNibbles()
    ensures var s: u32 := 0x8641fdb9;
            && Nibble(s, 0) == 9 && Nibble(s, 1) == 11 && Nibble(s, 2) == 13 && Nibble(s, 3) == 15
            && Nibble(s, 4) == 1 && Nibble(s, 5) == 4 && Nibble(s, 6) == 6 && Nibble(s, 7) == 8
  {
    hide Pow;
    Pow16Values();
  }

  lemma FirstEntries()
    ensures SboxZ(0)[9] == 8 && SboxZ(1)[11] == 7 && SboxZ(2)[13] == 9 && SboxZ(3)[15] == 11
    ensures SboxZ(4)[1] == 15 && SboxZ(5)[4] == 9 && SboxZ(6)[6] == 1 && SboxZ(7)[8] == 4
  {
  }

  lemma FirstSum()
    ensures Substitute(0x8641fdb9, 8) == 0x419fb978
  {
    hide SboxZ, Pow, Substitute, Nibble;
    var s: u32 := 0x8641fdb9;
    Pow16Values();
    FirstNibbles();
    FirstEntries();
    SubstituteStep(s, 0);
    SubstituteStep(s, 1);
    SubstituteStep(s, 2);
    SubstituteStep(s, 3);
    SubstituteStep(s, 4);
    SubstituteStep(s, 5);
    SubstituteStep(s, 6);
    SubstituteStep(s, 7);
  }

  lemma SecondNibbles()
    ensures var s: u32 := 0x8531052d;
            && Nibble(s, 0) == 13 && Nibble(s, 1) == 2 && Nibble(s, 2) == 5 && Nibble(s, 3) == 0
            && Nibble(s, 4) == 1 && Nibble(s, 5) == 3 && Nibble(s, 6) == 5 && Nibble(s, 7) == 8
  {
    hide Pow;
    Pow16Values();
  }

  lemma SecondEntries()
    ensures SboxZ(0)[13] == 3 && SboxZ(1)[2] == 2 && SboxZ(2)[5] == 15 && SboxZ(3)[0] == 12
    ensures SboxZ(4)[1] == 15 && SboxZ(5)[3] == 6 && SboxZ(6)[5] == 9 && SboxZ(7)[8] == 4
  {
  }

  lemma SecondSum()
    ensures Substitute(0x8531052d, 8) == 0x496fcf23
  {
    hide SboxZ, Pow, Substitute, Nibble;
    var s: u32 := 0x8531052d;
    Pow16Values();
    SecondNibbles();
    SecondEntries();
    SubstituteStep(s, 0);
    SubstituteStep(s, 1);
    SubstituteStep(s, 2);
    SubstituteStep(s, 3);
    SubstituteStep(s, 4);
    SubstituteStep(s, 5);
    SubstituteStep(s, 6);
    SubstituteStep(s, 7);
  }

  /** The round function on values of RFC 8891 appendix A.2. */
  lemma RoundFunctionSamples()
    ensures G(0x87654321, 0xfedcba98) == 0xfdcbc20c
    ensures G(0xfdcbc20c, 0x87654321) == 0x7e791a4b
  {
    hide Substitute;
    FirstSum();
    SecondSum();
  }
}
