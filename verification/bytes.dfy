/** Machine integers as bounded mathematical integers, bitwise operators on them,
    and fixed-width little- and big-endian integers. */
module Bytes {

  datatype Option<+T> = None | Some(value: T)

  type byte = x: int | 0 <= x < 0x100
  type u16 = x: int | 0 <= x < 0x1_0000
  type u32 = x: int | 0 <= x < TWO_32
  type u64 = x: int | 0 <= x < 0x1_0000_0000_0000_0000

  const TWO_32: int := 0x1_0000_0000
  const TWO_64: int := 0x1_0000_0000_0000_0000

  type Bytes = seq<byte>
  type Block = b: Bytes | |b| == 8 witness seq(8, _ => 0)
  type Key = k: Bytes | |k| == 32 witness seq(32, _ => 0)
  type Tag = t: Bytes | |t| == 4 witness seq(4, _ => 0)

  /** A hash function with 32-byte output; nothing else is known about it. */
  type Hash = Bytes -> Key

  function Zeros(n: nat): (s: Bytes)
    ensures |s| == n
  {
    seq(n, _ => 0)
  }

  function Min(a: nat, b: nat): nat {
    if a <= b then a else b
  }

  lemma ConcatAssoc<T>(a: seq<T>, b: seq<T>, c: seq<T>)
    ensures a + (b + c) == (a + b) + c
  {
  }

  function Concat(parts: seq<Bytes>): Bytes {
    if parts == [] then [] else parts[0] + Concat(parts[1..])
  }

  // ----- reversal -----

  lemma DropOfDrop<T>(s: seq<T>, a: nat, b: nat)
    requires a + b <= |s|
    ensures s[a..][b..] == s[a + b..]
  {
  }

  lemma TakeOfDrop<T>(s: seq<T>, a: nat, n: nat)
    requires a + n <= |s|
    ensures s[a..][..n] == s[a..a + n]
  {
  }

  lemma DropOfTake<T>(s: seq<T>, n: nat, a: nat)
    requires a <= n <= |s|
    ensures s[..n][a..] == s[a..][..n - a]
  {
  }

  lemma SliceOfTake<T>(s: seq<T>, n: nat, a: nat, b: nat)
    requires a <= b <= n <= |s|
    ensures s[..n][a..b] == s[a..b]
  {
    SliceOfSlice(s, 0, n, a, b);
    assert s[0..n] == s[..n];
  }

  /** Slicing within a slice. */
  lemma SliceOfSlice<T>(s: seq<T>, lo: nat, hi: nat, a: nat, b: nat)
    requires lo <= hi <= |s| && a <= b <= hi - lo
    ensures s[lo..hi][a..b] == s[lo + a..lo + b]
  {
    var part := s[lo..hi];
    forall k | 0 <= k < b - a ensures part[a..b][k] == s[lo + a..lo + b][k] {
      assert part[a..b][k] == part[a + k] == s[lo + (a + k)];
      assert s[lo + a..lo + b][k] == s[lo + a + k];
    }
  }

  function Reverse<T>(s: seq<T>): (r: seq<T>)
    ensures |r| == |s|
  {
    if s == [] then [] else Reverse(s[1..]) + [s[0]]
  }

  lemma {:induction false} ReverseAt<T>(s: seq<T>, k: nat)
    requires k < |s|
    ensures Reverse(s)[k] == s[|s| - 1 - k]
  {
    if k < |s| - 1 {
      ReverseAt(s[1..], k);
    }
  }

  lemma ReverseTwice<T>(s: seq<T>)
    ensures Reverse(Reverse(s)) == s
  {
    forall k | 0 <= k < |s| ensures Reverse(Reverse(s))[k] == s[k] {
      ReverseAt(Reverse(s), k);
      ReverseAt(s, |s| - 1 - k);
    }
  }

  lemma {:induction false} ReverseSnoc<T>(s: seq<T>, x: T)
    ensures Reverse(s + [x]) == [x] + Reverse(s)
  {
    if s != [] {
      assert (s + [x])[1..] == s[1..] + [x];
      ReverseSnoc(s[1..], x);
    }
  }

  // ----- powers -----

  function Pow(b: nat, n: nat): nat {
    if n == 0 then 1 else b * Pow(b, n - 1)
  }

  lemma {:induction false} PowPositive(b: nat, n: nat)
    requires b > 0
    ensures Pow(b, n) > 0
  {
    if n > 0 {
      PowPositive(b, n - 1);
    }
  }

  lemma PowStep(b: nat, n: nat)
    ensures Pow(b, 0) == 1
    ensures n > 0 ==> Pow(b, n) == b * Pow(b, n - 1)
  {
  }

  lemma {:induction false} PowAdd(b: nat, m: nat, n: nat)
    ensures Pow(b, m + n) == Pow(b, m) * Pow(b, n)
  {
    hide Pow;
    PowStep(b, m);
    if m > 0 {
      PowAdd(b, m - 1, n);
      PowStep(b, m + n);
      assert b * (Pow(b, m - 1) * Pow(b, n)) == (b * Pow(b, m - 1)) * Pow(b, n);
    }
  }

  lemma MulMonotone(a: nat, b: nat, c: nat)
    requires a <= b
    ensures a * c <= b * c
  {
  }

  lemma Pow2Values()
    ensures Pow(2, 4) == 0x10 && Pow(2, 8) == 0x100 && Pow(2, 32) == TWO_32
  {
    assert Pow(2, 4) == 16;
    PowAdd(2, 4, 4);
    PowAdd(2, 8, 8);
    PowAdd(2, 16, 16);
  }

  lemma Pow256Values()
    ensures Pow(0x100, 2) == 0x1_0000 && Pow(0x100, 3) == 0x100_0000
    ensures Pow(0x100, 4) == TWO_32 && Pow(0x100, 8) == TWO_64
  {
    assert Pow(0x100, 1) == 0x100;
    PowAdd(0x100, 1, 1);
    PowAdd(0x100, 2, 1);
    PowAdd(0x100, 2, 2);
    PowAdd(0x100, 4, 4);
  }

  // ----- bitwise operators -----

  /** Exclusive or, one binary digit at a time. */
  function Xor(a: nat, b: nat): nat
    decreases a + b
  {
    if a == 0 && b == 0 then 0 else 2 * Xor(a / 2, b / 2) + (a + b) % 2
  }

  /** Inclusive or, one binary digit at a time. */
  function Or(a: nat, b: nat): nat
    decreases a + b
  {
    if a == 0 && b == 0 then 0
    else 2 * Or(a / 2, b / 2) + (if a % 2 == 0 && b % 2 == 0 then 0 else 1)
  }

  lemma {:induction false} XorBound(a: nat, b: nat, n: nat)
    requires a < Pow(2, n) && b < Pow(2, n)
    ensures Xor(a, b) < Pow(2, n)
    decreases n
  {
    if n > 0 {
      XorBound(a / 2, b / 2, n - 1);
    }
  }

  /** The two halves of the defining equation of `Xor`. */
  lemma XorUnfold(a: nat, b: nat)
    ensures Xor(a, b) / 2 == Xor(a / 2, b / 2) && Xor(a, b) % 2 == (a + b) % 2
  {
  }

  lemma {:induction false} XorCancels(a: nat, b: nat)
    ensures Xor(Xor(a, b), b) == a
    decreases a + b
  {
    if a != 0 || b != 0 {
      var x := Xor(a, b);
      XorUnfold(a, b);
      XorUnfold(x, b);
      XorCancels(a / 2, b / 2);
      SumParity(a, b, x);
      assert Xor(x, b) / 2 == a / 2 && Xor(x, b) % 2 == a % 2;
    }
  }

  lemma SumParity(a: nat, b: nat, x: nat)
    requires x % 2 == (a + b) % 2
    ensures (x + b) % 2 == a % 2
  {
    assert x + b == a + 2 * b + (x - (a + b));
  }

  lemma {:induction false} XorCommutes(a: nat, b: nat)
    ensures Xor(a, b) == Xor(b, a)
    decreases a + b
  {
    if a != 0 || b != 0 {
      XorCommutes(a / 2, b / 2);
    }
  }

  lemma {:induction false} XorIsZero(a: nat, b: nat)
    ensures Xor(a, b) == 0 <==> a == b
    decreases a + b
  {
    if a != 0 || b != 0 {
      XorIsZero(a / 2, b / 2);
    }
  }

  lemma {:induction false} OrIsZero(a: nat, b: nat)
    ensures Or(a, b) == 0 <==> a == 0 && b == 0
    decreases a + b
  {
    if a != 0 || b != 0 {
      OrIsZero(a / 2, b / 2);
    }
  }

  lemma {:induction false} OrCommutes(a: nat, b: nat)
    ensures Or(a, b) == Or(b, a)
    decreases a + b
  {
    if a != 0 || b != 0 {
      OrCommutes(a / 2, b / 2);
    }
  }

  lemma {:induction false} OrBound(a: nat, b: nat, n: nat)
    requires a < Pow(2, n) && b < Pow(2, n)
    ensures Or(a, b) < Pow(2, n)
    decreases n
  {
    if n > 0 {
      OrBound(a / 2, b / 2, n - 1);
    }
  }

  /** Or-ing a value shifted clear of the low bits is addition. */
  lemma {:induction false} OrDisjoint(a: nat, b: nat, n: nat)
    requires a < Pow(2, n)
    ensures Or(a, b * Pow(2, n)) == a + b * Pow(2, n)
    decreases n
  {
    if n == 0 {
      OrZero(b);
    } else {
      OrDisjoint(a / 2, b, n - 1);
      OrDoubled(a, b * Pow(2, n - 1));
      MulDoubled(b, Pow(2, n - 1));
    }
  }

  lemma MulDoubled(b: nat, p: nat)
    ensures b * (2 * p) == 2 * (b * p)
  {
  }

  lemma OrDoubled(a: nat, h: nat)
    ensures Or(a, 2 * h) == 2 * Or(a / 2, h) + a % 2
  {
  }

  lemma {:induction false} OrZero(b: nat)
    ensures Or(0, b) == b
  {
    if b > 0 {
      OrZero(b / 2);
    }
  }

  function Xor8(a: byte, b: byte): (r: byte) {
    Pow2Values();
    XorBound(a, b, 8);
    Xor(a, b)
  }

  function Or8(a: byte, b: byte): (r: byte) {
    Pow2Values();
    OrBound(a, b, 8);
    Or(a, b)
  }

  function Xor32(a: u32, b: u32): (r: u32) {
    Pow2Values();
    XorBound(a, b, 32);
    Xor(a, b)
  }

  function Add32(a: u32, b: u32): u32 {
    (a + b) % TWO_32
  }

  /** Rotation of a 32-bit word by 11 bits to the left. */
  function RotateLeft11(x: u32): u32 {
    x * 0x800 % TWO_32 + x / 0x20_0000
  }

  /** Bytewise exclusive or of two strings of one length. */
  function XorSeq(a: Bytes, b: Bytes): (r: Bytes)
    requires |a| == |b|
    ensures |r| == |a|
    ensures forall i :: 0 <= i < |a| ==> r[i] == Xor8(a[i], b[i])
  {
    seq(|a|, i requires 0 <= i < |a| => Xor8(a[i], b[i]))
  }

  lemma XorSeqCancels(a: Bytes, k: Bytes)
    requires |a| == |k|
    ensures XorSeq(XorSeq(a, k), k) == a
  {
    forall i | 0 <= i < |a| ensures XorSeq(XorSeq(a, k), k)[i] == a[i] {
      XorCancels(a[i], k[i]);
    }
  }

  // ----- fixed-width integers -----

  /** The value of a little-endian string. */
  function LeNat(s: Bytes): nat {
    if s == [] then 0 else s[0] + 0x100 * LeNat(s[1..])
  }

  /** The low `k` bytes of `n`, least significant first. */
  function Le(n: nat, k: nat): (s: Bytes)
    ensures |s| == k
    decreases k
  {
    if k == 0 then [] else [n % 0x100] + Le(n / 0x100, k - 1)
  }

  lemma {:induction false} LeNatBound(s: Bytes)
    ensures LeNat(s) < Pow(0x100, |s|)
  {
    if s != [] {
      LeNatBound(s[1..]);
    }
  }

  lemma LeParts(s: Bytes)
    requires s != []
    ensures LeNat(s) % 0x100 == s[0] && LeNat(s) / 0x100 == LeNat(s[1..])
  {
    QuotientUnique(LeNat(s), 0x100, LeNat(s[1..]), s[0]);
  }

  lemma {:induction false} LeRoundTrip(s: Bytes)
    ensures Le(LeNat(s), |s|) == s
  {
    if s != [] {
      LeParts(s);
      hide LeNat;
      LeRoundTrip(s[1..]);
      assert s == [s[0]] + s[1..];
    }
  }

  lemma {:induction false} LeNatOfLe(n: nat, k: nat)
    requires n < Pow(0x100, k)
    ensures LeNat(Le(n, k)) == n
    decreases k
  {
    if k > 0 {
      assert n / 0x100 < Pow(0x100, k - 1);
      LeNatOfLe(n / 0x100, k - 1);
      assert Le(n, k)[1..] == Le(n / 0x100, k - 1);
    }
  }

  /** The value of a big-endian string. */
  function BeNat(s: Bytes): nat {
    if s == [] then 0 else BeNat(s[..|s| - 1]) * 0x100 + s[|s| - 1]
  }

  /** The low `k` bytes of `n`, most significant first: a truncating cast followed by `to_be_bytes`. */
  function Be(n: nat, k: nat): (s: Bytes)
    ensures |s| == k
    decreases k
  {
    if k == 0 then [] else Be(n / 0x100, k - 1) + [n % 0x100]
  }

  lemma {:induction false} BeNatBound(s: Bytes)
    ensures BeNat(s) < Pow(0x100, |s|)
  {
    if s != [] {
      BeNatBound(s[..|s| - 1]);
    }
  }

  lemma BeParts(s: Bytes)
    requires s != []
    ensures BeNat(s) % 0x100 == s[|s| - 1] && BeNat(s) / 0x100 == BeNat(s[..|s| - 1])
  {
    QuotientUnique(BeNat(s), 0x100, BeNat(s[..|s| - 1]), s[|s| - 1]);
  }

  lemma {:induction false} BeRoundTrip(s: Bytes)
    ensures Be(BeNat(s), |s|) == s
  {
    if s != [] {
      BeParts(s);
      hide BeNat;
      BeRoundTrip(s[..|s| - 1]);
      assert s == s[..|s| - 1] + [s[|s| - 1]];
    }
  }

  /** A length cut to `k` bytes is the length modulo 256^k. */
  lemma {:induction false} LowDigits(n: nat, k: nat)
    ensures Pow(0x100, k) > 0 && BeNat(Be(n, k)) == n % Pow(0x100, k)
    decreases k
  {
    PowPositive(0x100, k);
    if k > 0 {
      LowDigits(n / 0x100, k - 1);
      PowPositive(0x100, k - 1);
      assert Be(n, k)[..k - 1] == Be(n / 0x100, k - 1);
      SplitRemainder(n, Pow(0x100, k - 1));
    }
  }

  lemma SplitRemainder(n: nat, p: nat)
    requires p > 0
    ensures n % (0x100 * p) == n / 0x100 % p * 0x100 + n % 0x100
  {
    var q, r := n / 0x100 / p, n / 0x100 % p;
    var low := r * 0x100 + n % 0x100;
    assert n / 0x100 == q * p + r;
    assert n == (0x100 * p) * q + low;
    assert 0 <= low < 0x100 * p by {
      assert r <= p - 1;
    }
    QuotientUnique(n, 0x100 * p, q, low);
  }

  /** A multiple other than zero is at least as large as the factor. */
  lemma MultipleGrows(k: int, m: int)
    requires m >= 0
    ensures k >= 1 ==> k * m >= m
    ensures k <= -1 ==> k * m + m <= 0
  {
    if k >= 1 {
      MulMonotone(1, k, m);
    } else if k <= -1 {
      MulMonotone(1, -k, m);
    }
  }

  lemma QuotientUnique(n: nat, m: nat, q: nat, r: nat)
    requires r < m && n == m * q + r
    ensures n % m == r && n / m == q
  {
    var d: int := q - n / m;
    assert m * d == n % m - r by {
      assert n == m * (n / m) + n % m;
      assert m * d == m * q - m * (n / m);
    }
    MultipleGrows(d, m);
  }

  lemma TwoDigits(m: nat, q: nat, r: nat, t: nat, a: nat, b: nat)
    requires m == q * b + r && r < b && t < a
    ensures m * a + t == (a * b) * q + (r * a + t)
    ensures r * a + t < a * b
  {
    assert (q * b + r) * a == q * b * a + r * a;
    assert q * b * a == (a * b) * q;
    MulMonotone(r + 1, b, a);
    assert (r + 1) * a == r * a + a;
  }

  /** Dividing twice is dividing by the product. */
  lemma DivTwice(n: nat, a: nat, b: nat)
    requires a > 0 && b > 0
    ensures a * b > 0 && n / (a * b) == n / a / b
  {
    MulPositive(a, b);
    var m := n / a;
    var q, r, t := m / b, m % b, n % a;
    SplitTwice(n, a, b);
    QuotientUnique(n, a * b, q, r * a + t);
  }

  lemma SplitTwice(n: nat, a: nat, b: nat)
    requires a > 0 && b > 0
    ensures var r := n / a % b * a + n % a; r < a * b && n == (a * b) * (n / a / b) + r
  {
    DivMod(n, a);
    DivMod(n / a, b);
    TwoDigits(n / a, n / a / b, n / a % b, n % a, a, b);
  }

  lemma DivMod(n: nat, m: nat)
    requires m > 0
    ensures n == n / m * m + n % m && n % m < m
  {
  }

  lemma MulPositive(a: nat, b: nat)
    requires a > 0 && b > 0
    ensures a * b > 0
  {
  }

  /** The digits of a number in base `b`. */
  function Digit(n: nat, b: nat, i: nat): (d: nat)
    requires b > 0
    ensures d < b
  {
    PowPositive(b, i);
    n / Pow(b, i) % b
  }

  lemma DigitStep(n: nat, b: nat, i: nat)
    requires b > 0
    ensures Digit(n, b, 0) == n % b
    ensures Digit(n, b, i + 1) == Digit(n / b, b, i)
  {
    PowPositive(b, i);
    PowPositive(b, i + 1);
    DivTwice(n, b, Pow(b, i));
    assert Pow(b, 0) == 1 && n / 1 == n;
  }

  /** The bytes of a little-endian string are the digits of its value in base 256, the first the lowest. */
  lemma {:induction false} LeDigit(s: Bytes, i: nat)
    requires i < |s|
    ensures Digit(LeNat(s), 0x100, i) == s[i]
  {
    hide Digit, LeNat;
    var n := LeNat(s);
    LeParts(s);
    if i == 0 {
      DigitStep(n, 0x100, 0);
    } else {
      DigitStep(n, 0x100, i - 1);
      LeDigit(s[1..], i - 1);
    }
  }

  /** The bytes of a big-endian string are the digits of its value in base 256, the last the lowest. */
  lemma {:induction false} BeDigit(s: Bytes, i: nat)
    requires i < |s|
    ensures Digit(BeNat(s), 0x100, |s| - 1 - i) == s[i]
  {
    hide Digit, BeNat;
    var n, t := BeNat(s), s[..|s| - 1];
    BeParts(s);
    if i == |s| - 1 {
      DigitStep(n, 0x100, 0);
    } else {
      DigitStep(n, 0x100, |s| - 2 - i);
      BeDigit(t, i);
    }
  }

  /** Exclusive or bit by bit: set where exactly one operand is. */
  lemma {:induction false} XorBit(a: nat, b: nat, i: nat)
    ensures Digit(Xor(a, b), 2, i) == 1 <==> Digit(a, 2, i) != Digit(b, 2, i)
  {
    hide Digit, Xor;
    XorUnfold(a, b);
    if i == 0 {
      DigitStep(a, 2, 0);
      DigitStep(b, 2, 0);
      DigitStep(Xor(a, b), 2, 0);
    } else {
      DigitStep(a, 2, i - 1);
      DigitStep(b, 2, i - 1);
      DigitStep(Xor(a, b), 2, i - 1);
      XorBit(a / 2, b / 2, i - 1);
    }
  }

  lemma OrUnfold(a: nat, b: nat)
    ensures Or(a, b) / 2 == Or(a / 2, b / 2) && (Or(a, b) % 2 == 1 <==> a % 2 == 1 || b % 2 == 1)
  {
  }

  /** Inclusive or bit by bit: set where an operand is. */
  lemma {:induction false} OrBit(a: nat, b: nat, i: nat)
    ensures Digit(Or(a, b), 2, i) == 1 <==> Digit(a, 2, i) == 1 || Digit(b, 2, i) == 1
  {
    hide Digit, Or;
    OrUnfold(a, b);
    if i == 0 {
      DigitStep(a, 2, 0);
      DigitStep(b, 2, 0);
      DigitStep(Or(a, b), 2, 0);
    } else {
      DigitStep(a, 2, i - 1);
      DigitStep(b, 2, i - 1);
      DigitStep(Or(a, b), 2, i - 1);
      OrBit(a / 2, b / 2, i - 1);
    }
  }

  lemma {:induction false} BeNatOfBe(n: nat, k: nat)
    requires n < Pow(0x100, k)
    ensures BeNat(Be(n, k)) == n
    decreases k
  {
    if k > 0 {
      assert n / 0x100 < Pow(0x100, k - 1);
      BeNatOfBe(n / 0x100, k - 1);
      assert Be(n, k)[..k - 1] == Be(n / 0x100, k - 1);
    }
  }

  // ----- 32-bit words as four little-endian bytes -----

  function Word(b: Bytes): (w: u32)
    requires |b| == 4
  {
    LeNatBound(b);
    Pow256Values();
    LeNat(b)
  }

  function WordBytes(w: u32): (b: Tag) { Le(w, 4) }

  lemma WordOfBytes(w: u32)
    ensures Word(WordBytes(w)) == w
  {
    Pow256Values();
    LeNatOfLe(w, 4);
  }

  lemma BytesOfWord(b: Bytes)
    requires |b| == 4
    ensures WordBytes(Word(b)) == b
  {
    LeRoundTrip(b);
  }

  /** A block holding `lo` in bytes 0-3 and `hi` in bytes 4-7. */
  function Pack(lo: u32, hi: u32): Block {
    WordBytes(lo) + WordBytes(hi)
  }

  function Low(b: Block): u32 { Word(b[..4]) }

  function High(b: Block): u32 { Word(b[4..]) }

  lemma UnpackPack(lo: u32, hi: u32)
    ensures Low(Pack(lo, hi)) == lo && High(Pack(lo, hi)) == hi
  {
    assert Pack(lo, hi)[..4] == WordBytes(lo) && Pack(lo, hi)[4..] == WordBytes(hi);
    WordOfBytes(lo);
    WordOfBytes(hi);
  }

  lemma PackUnpack(b: Block)
    ensures Pack(Low(b), High(b)) == b
  {
    BytesOfWord(b[..4]);
    BytesOfWord(b[4..]);
    assert b == b[..4] + b[4..];
  }

  /** A block holds its low word in bytes 0-3 and its high word in bytes 4-7, each least significant byte first. */
  lemma BlockWords(b: Block, i: nat)
    requires i < 4
    ensures Digit(Low(b), 0x100, i) == b[i] && Digit(High(b), 0x100, i) == b[4 + i]
  {
    hide Digit;
    LeDigit(b[..4], i);
    LeDigit(b[4..], i);
  }

  // ----- constant-time comparison -----

  function OrAll(a: Bytes, b: Bytes): byte
    requires |a| == |b|
  {
    if a == [] then 0 else Or8(OrAll(a[..|a| - 1], b[..|a| - 1]), Xor8(a[|a| - 1], b[|a| - 1]))
  }

  /** The accumulated difference is zero exactly when the strings are equal. */
  lemma {:induction false} OrAllIsZero(a: Bytes, b: Bytes)
    requires |a| == |b|
    ensures OrAll(a, b) == 0 <==> a == b
  {
    if a != [] {
      var n := |a| - 1;
      OrAllIsZero(a[..n], b[..n]);
      XorIsZero(a[n], b[n]);
      OrIsZero(OrAll(a[..n], b[..n]), Xor8(a[n], b[n]));
      assert a == a[..n] + [a[n]] && b == b[..n] + [b[n]];
    }
  }

  /** Comparison that never stops early: the verdict is plain equality. */
  method ConstantTimeEq(a: Bytes, b: Bytes) returns (same: bool)
    ensures same <==> a == b
  {
    if |a| != |b| {
      return false;
    }
    var diff: byte := 0;
    for i := 0 to |a|
      invariant diff == OrAll(a[..i], b[..i])
    {
      diff := Or8(diff, Xor8(a[i], b[i]));
      assert a[..i + 1][..i] == a[..i] && b[..i + 1][..i] == b[..i];
    }
    assert a[..|a|] == a && b[..|b|] == b;
    OrAllIsZero(a, b);
    return diff == 0;
  }
}
