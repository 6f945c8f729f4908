/** The DER encoder of the key-transport blob and the independent tag-length-value walker.
    The walker reads back exactly what the encoder wrote, up to its four length bytes. */
module Der {
  import opened Bytes

  // ----- encoder -----

  /** Big-endian digits in base 256 without leading zeros; zero has none. */
  function MinimalBe(n: nat): Bytes {
    if n == 0 then [] else MinimalBe(n / 0x100) + [n % 0x100]
  }

  /** A definite-form length. */
  function DerLen(n: nat): Bytes {
    if n < 0x80 then [n] else [Or(0x80, |MinimalBe(n)|) % 0x100] + MinimalBe(n)
  }

  function DerTlv(tag: byte, content: Bytes): Bytes {
    [tag] + DerLen(|content|) + content
  }

  method EncodeLength(len: nat) returns (out: Bytes)
    ensures out == DerLen(len)
  {
    if len < 0x80 {
      return [len];
    }
    hide MinimalBe, Reverse, Or;
    var bytes: Bytes := [];
    var n: nat := len;
    NoDigits(len);
    while n > 0
      invariant MinimalBe(n) + Reverse(bytes) == MinimalBe(len)
    {
      var b: byte := n % 0x100;
      LastDigit(n);
      ReverseSnoc(bytes, b);
      ConcatAssoc(MinimalBe(n / 0x100), [b], Reverse(bytes));
      bytes := bytes + [b];
      n := n / 0x100;
    }
    NoDigits(len);
    assert [] + Reverse(bytes) == Reverse(bytes);
    out := [Or(0x80, |bytes|) % 0x100] + Reverse(bytes);
  }

  lemma NoDigits(n: nat)
    ensures MinimalBe(0) == [] && Reverse<byte>([]) == [] && MinimalBe(n) + [] == MinimalBe(n)
  {
  }

  lemma LastDigit(n: nat)
    requires n > 0
    ensures MinimalBe(n) == MinimalBe(n / 0x100) + [n % 0x100]
  {
  }

  method EncodeTlv(tag: byte, content: Bytes, out: Bytes) returns (r: Bytes)
    ensures r == out + DerTlv(tag, content)
  {
    var len := EncodeLength(|content|);
    r := out + [tag];
    r := r + len;
    r := r + content;
  }

  /** An element by itself. */
  method EncodeElement(tag: byte, content: Bytes) returns (out: Bytes)
    ensures out == DerTlv(tag, content)
  {
    hide DerTlv;
    out := EncodeTlv(tag, content, []);
    assert [] + DerTlv(tag, content) == DerTlv(tag, content);
  }

  function DerOctetString(content: Bytes): Bytes { DerTlv(0x04, content) }

  function DerSequence(content: Bytes): Bytes { DerTlv(0x30, content) }

  /** An object-identifier arc in base 128; every byte but the last carries the high bit. */
  function OidArc(v: nat): Bytes { OidArcHigh(v / 0x80) + [v % 0x80] }

  function OidArcHigh(v: nat): Bytes {
    if v == 0 then [] else OidArcHigh(v / 0x80) + [v % 0x80 + 0x80]
  }

  function OidArcs(arcs: seq<nat>): Bytes {
    if arcs == [] then [] else OidArc(arcs[0]) + OidArcs(arcs[1..])
  }

  function DerOid(arcs: seq<nat>): Bytes
    requires |arcs| >= 2
  {
    DerTlv(0x06, [(arcs[0] * 40 + arcs[1]) % 0x100] + OidArcs(arcs[2..]))
  }

  method EncodeOidArc(v: nat) returns (out: Bytes)
    ensures out == OidArc(v)
  {
    var bytes: Bytes := [v % 0x80];
    var value: nat := v / 0x80;
    while value > 0
      invariant OidArcHigh(value) + Reverse(bytes) == OidArc(v)
    {
      var b: byte := value % 0x80 + 0x80;
      ReverseSnoc(bytes, b);
      ConcatAssoc(OidArcHigh(value / 0x80), [b], Reverse(bytes));
      bytes := bytes + [b];
      value := value / 0x80;
    }
    out := Reverse(bytes);
  }

  lemma {:induction false} OidArcsSnoc(arcs: seq<nat>, v: nat)
    ensures OidArcs(arcs + [v]) == OidArcs(arcs) + OidArc(v)
  {
    hide OidArc;
    if arcs == [] {
      assert [v][1..] == [];
    } else {
      assert (arcs + [v])[1..] == arcs[1..] + [v];
      OidArcsSnoc(arcs[1..], v);
      ConcatAssoc(OidArc(arcs[0]), OidArcs(arcs[1..]), OidArc(v));
    }
  }

  method EncodeOid(arcs: seq<nat>) returns (out: Bytes)
    requires |arcs| >= 2
    ensures out == DerOid(arcs)
  {
    hide OidArc, DerTlv;
    var content: Bytes := [(arcs[0] * 40 + arcs[1]) % 0x100];
    var rest := arcs[2..];
    for i := 0 to |rest|
      invariant content == [(arcs[0] * 40 + arcs[1]) % 0x100] + OidArcs(rest[..i])
    {
      var arc := EncodeOidArc(rest[i]);
      assert rest[..i + 1] == rest[..i] + [rest[i]];
      OidArcsSnoc(rest[..i], rest[i]);
      ConcatAssoc([(arcs[0] * 40 + arcs[1]) % 0x100], OidArcs(rest[..i]), arc);
      content := content + arc;
    }
    assert rest[..|rest|] == rest;
    out := EncodeElement(0x06, content);
  }

  // ----- reading identifier arcs back -----

  /** An arc read with what came before it: seven bits a byte, going on as long as the high bit is set. */
  function ReadArc(acc: nat, s: Bytes): Option<(nat, Bytes)>
    decreases |s|
  {
    if s == [] then None
    else
      var v := acc * 0x80 + s[0] % 0x80;
      if s[0] < 0x80 then Some((v, s[1..])) else ReadArc(v, s[1..])
  }

  /** All arcs of a string. */
  function ReadArcs(s: Bytes): Option<seq<nat>>
    decreases |s|
  {
    if s == [] then Some([])
    else
      match ReadArc(0, s)
      case None => None
      case Some((v, rest)) =>
        ReadArcShrinks(0, s);
        match ReadArcs(rest)
        case None => None
        case Some(more) => Some([v] + more)
  }

  lemma {:induction false} ReadArcShrinks(acc: nat, s: Bytes)
    ensures ReadArc(acc, s).Some? ==> |ReadArc(acc, s).value.1| < |s|
    decreases |s|
  {
    if s != [] {
      ReadArcShrinks(acc * 0x80 + s[0] % 0x80, s[1..]);
    }
  }

  lemma {:induction false} ReadHighPart(v: nat, rest: Bytes)
    ensures ReadArc(0, OidArcHigh(v) + rest) == ReadArc(v, rest)
    decreases v
  {
    if v == 0 {
      assert OidArcHigh(0) + rest == rest;
    } else {
      var b: byte := v % 0x80 + 0x80;
      ConcatAssoc(OidArcHigh(v / 0x80), [b], rest);
      ReadHighPart(v / 0x80, [b] + rest);
      assert ([b] + rest)[1..] == rest;
    }
  }

  /** Every arc is read back, with what stands behind it, and no byte is wasted on leading zeros. */
  lemma ArcReadBack(v: nat, rest: Bytes)
    ensures ReadArc(0, OidArc(v) + rest) == Some((v, rest))
    ensures OidArc(v) != [] && OidArc(v)[0] != 0x80
  {
    var b: byte := v % 0x80;
    ConcatAssoc(OidArcHigh(v / 0x80), [b], rest);
    ReadHighPart(v / 0x80, [b] + rest);
    assert ([b] + rest)[1..] == rest;
    if v / 0x80 > 0 {
      HighPartStarts(v / 0x80);
    }
  }

  lemma {:induction false} HighPartStarts(v: nat)
    requires v > 0
    ensures |OidArcHigh(v)| > 0 && OidArcHigh(v)[0] > 0x80
  {
    if v / 0x80 > 0 {
      HighPartStarts(v / 0x80);
    }
  }

  /** The arcs behind the first two are read back from the content, whatever they are. */
  lemma {:induction false} ArcsReadBack(arcs: seq<nat>)
    ensures ReadArcs(OidArcs(arcs)) == Some(arcs)
  {
    hide OidArc, ReadArc;
    if arcs != [] {
      ArcsReadBack(arcs[1..]);
      ArcReadBack(arcs[0], OidArcs(arcs[1..]));
      assert OidArcs(arcs) == OidArc(arcs[0]) + OidArcs(arcs[1..]);
      assert arcs == [arcs[0]] + arcs[1..];
    }
  }

  // ----- walker -----

  /** One element: its tag, its content, and the position after it. */
  datatype Tlv = Tlv(tag: byte, content: Bytes, next: nat)

  function DerPeek(data: Bytes, pos: nat): Option<Tlv> {
    if pos + 1 >= |data| then None
    else if data[pos + 1] < 0x80 then Content(data, pos, pos + 2, data[pos + 1])
    else
      var num := data[pos + 1] - 0x80;
      if num == 0 || num > 4 || pos + 2 + num > |data| then None
      else Content(data, pos, pos + 2 + num, BeNat(data[pos + 2..pos + 2 + num]))
  }

  function Content(data: Bytes, pos: nat, start: nat, len: nat): Option<Tlv>
    requires pos < |data|
  {
    if start + len > |data| then None else Some(Tlv(data[pos], data[start..start + len], start + len))
  }

  method PeekTlv(data: Bytes, pos: nat) returns (r: Option<Tlv>)
    ensures r == DerPeek(data, pos)
  {
    if pos + 1 >= |data| {
      return None;
    }
    var lenByte := data[pos + 1];
    if lenByte < 0x80 {
      return Content(data, pos, pos + 2, lenByte);
    }
    var num := lenByte % 0x80;
    if num == 0 || num > 4 {
      return None;
    }
    var len: nat := 0;
    for i := 0 to num
      invariant pos + 2 + i <= |data| && len == BeNat(data[pos + 2..pos + 2 + i])
    {
      if pos + 2 + i >= |data| {
        return None;
      }
      assert data[pos + 2..pos + 2 + i + 1][..i] == data[pos + 2..pos + 2 + i];
      var b: nat := data[pos + 2 + i];
      len := len * 0x100 + b;
    }
    r := Content(data, pos, pos + 2 + num, len);
  }

  function DerSkip(data: Bytes, pos: nat): Option<nat> {
    match DerPeek(data, pos)
    case None => None
    case Some(t) => Some(t.next)
  }

  // ----- the walker reads what the encoder wrote -----

  lemma {:induction false} MinimalBeValue(n: nat)
    ensures BeNat(MinimalBe(n)) == n
  {
    if n > 0 {
      MinimalBeValue(n / 0x100);
      assert MinimalBe(n)[..|MinimalBe(n)| - 1] == MinimalBe(n / 0x100);
    }
  }

  /** `n` needs at most `k` digits exactly when it is below 256^k. */
  lemma {:induction false} MinimalBeLength(n: nat, k: nat)
    ensures |MinimalBe(n)| <= k <==> n < Pow(0x100, k)
  {
    PowPositive(0x100, k);
    if n > 0 && k > 0 {
      MinimalBeLength(n / 0x100, k - 1);
    }
  }

  lemma LongFormByte(k: nat)
    requires k < 0x80
    ensures Or(0x80, k) == 0x80 + k
  {
    Pow2Seven();
    OrDisjoint(k, 1, 7);
    OrCommutes(k, 0x80);
  }

  lemma Pow2Seven()
    ensures Pow(2, 7) == 0x80
  {
    Pow2Values();
    assert Pow(2, 8) == 2 * Pow(2, 7);
  }

  /** Where the pieces of an encoded element lie. */
  lemma TlvLayout(pre: Bytes, tag: byte, content: Bytes, post: Bytes)
    ensures var l := DerLen(|content|);
            var data, start := pre + DerTlv(tag, content) + post, |pre| + 1 + |l|;
            && start + |content| == |pre + DerTlv(tag, content)| <= |data|
            && data[|pre|] == tag && data[|pre| + 1..start] == l && data[start..start + |content|] == content
  {
    hide DerLen;
    var l := DerLen(|content|);
    assert pre + DerTlv(tag, content) + post == pre + [tag] + l + content + post;
  }

  lemma ContentEncoded(pre: Bytes, tag: byte, content: Bytes, post: Bytes)
    ensures Content(pre + DerTlv(tag, content) + post, |pre|, |pre| + 1 + |DerLen(|content|)|, |content|)
         == Some(Tlv(tag, content, |pre + DerTlv(tag, content)|))
  {
    TlvLayout(pre, tag, content, post);
    hide DerLen, DerTlv;
  }

  /** The long form: a count byte, then the digits. */
  lemma LongForm(n: nat)
    requires 0x80 <= n < TWO_64
    ensures 1 <= |MinimalBe(n)| <= 8
    ensures |MinimalBe(n)| <= 4 <==> n < TWO_32
    ensures DerLen(n) == [0x80 + |MinimalBe(n)|] + MinimalBe(n)
  {
    hide Or, MinimalBe, Pow;
    Pow256Values();
    PowZeroIsOne(0x100);
    MinimalBeLength(n, 0);
    MinimalBeLength(n, 4);
    MinimalBeLength(n, 8);
    LongFormByte(|MinimalBe(n)|);
  }

  lemma PowZeroIsOne(b: nat)
    ensures Pow(b, 0) == 1
  {
  }

  /** The definite form of a length: one byte below 128, otherwise a count with the high bit set and as many bytes, most
      significant first and without a leading zero. */
  lemma LengthForm(n: nat)
    requires n < TWO_64
    ensures n < 0x80 ==> DerLen(n) == [n]
    ensures n >= 0x80 ==>
              var l := DerLen(n);
              && 2 <= |l| <= 9 && l[0] == 0x80 + (|l| - 1) && l[1] != 0 && BeNat(l[1..]) == n
  {
    hide Or, BeNat, MinimalBe;
    if n >= 0x80 {
      LongForm(n);
      MinimalBeValue(n);
      MinimalBeStarts(n);
      assert DerLen(n)[1..] == MinimalBe(n);
    }
  }

  lemma {:induction false} MinimalBeStarts(n: nat)
    requires n > 0
    ensures |MinimalBe(n)| > 0 && MinimalBe(n)[0] != 0
  {
    if n / 0x100 > 0 {
      MinimalBeStarts(n / 0x100);
    }
  }

  /** Reading an element encoded anywhere inside longer data succeeds exactly when its length
      fits four bytes, and then gives back tag, content, and the position after it. */
  lemma PeekEncoded(pre: Bytes, tag: byte, content: Bytes, post: Bytes)
    requires |content| < TWO_64
    ensures DerPeek(pre + DerTlv(tag, content) + post, |pre|)
         == if |content| < TWO_32 then Some(Tlv(tag, content, |pre + DerTlv(tag, content)|)) else None
  {
    hide DerTlv, DerLen, Content, BeNat, MinimalBe, DerPeek;
    var n := |content|;
    var data := pre + DerTlv(tag, content) + post;
    TlvLayout(pre, tag, content, post);
    ContentEncoded(pre, tag, content, post);
    if n < 0x80 {
      PeekShortForm(data, |pre|, n);
    } else {
      var digits := MinimalBe(n);
      LongForm(n);
      MinimalBeValue(n);
      PeekLongForm(data, |pre|, digits);
    }
  }

  lemma PeekShortForm(data: Bytes, pos: nat, n: nat)
    requires n < 0x80 && pos + 1 + |DerLen(n)| <= |data|
    requires data[pos + 1..pos + 1 + |DerLen(n)|] == DerLen(n)
    ensures DerPeek(data, pos) == Content(data, pos, pos + 1 + |DerLen(n)|, n)
  {
    hide Content;
    assert data[pos + 1] == data[pos + 1..pos + 2][0];
  }

  lemma PeekLongForm(data: Bytes, pos: nat, digits: Bytes)
    requires 1 <= |digits| <= 8 && pos + 2 + |digits| <= |data|
    requires data[pos + 1..pos + 2 + |digits|] == [0x80 + |digits|] + digits
    ensures DerPeek(data, pos)
         == if |digits| <= 4 then Content(data, pos, pos + 2 + |digits|, BeNat(digits)) else None
  {
    hide Content, BeNat;
    var l := data[pos + 1..pos + 2 + |digits|];
    assert data[pos + 1] == l[0];
    assert data[pos + 2..pos + 2 + |digits|] == l[1..];
  }

  /** What the walker reads at a position depends on nothing after the element. */
  lemma PeekIsLocal(data: Bytes, rest: Bytes, t: Tlv)
    requires DerPeek(data, 0) == Some(t)
    ensures t.next <= |data|
    ensures DerPeek(data[..t.next] + rest, 0) == Some(t)
  {
    var d := data[..t.next] + rest;
    assert t.next >= 2;
    SliceOfPrefix(data, rest, t.next, 0, 2);
    assert d[1] == d[0..2][1] == data[1] && d[0] == d[0..2][0];
    if data[1] >= 0x80 {
      var num := data[1] - 0x80;
      SliceOfPrefix(data, rest, t.next, 2, 2 + num);
      SliceOfPrefix(data, rest, t.next, 2 + num, t.next);
    } else {
      SliceOfPrefix(data, rest, t.next, 2, t.next);
    }
  }

  lemma SliceOfPrefix(data: Bytes, rest: Bytes, n: nat, a: nat, b: nat)
    requires a <= b <= n <= |data|
    ensures (data[..n] + rest)[a..b] == data[a..b]
  {
  }
}
