/** The chunked transfer coding as the bridge decodes it (RFC 9112 section 7.1). */
module Chunked {
  import opened Bytes
  import opened Text

  const CRLF := "\r\n"

  // ----- the size line -----

  function HexDigit(c: char): Option<nat> {
    if '0' <= c <= '9' then Some((c - '0') as nat)
    else if 'a' <= c <= 'f' then Some(10 + (c - 'a') as nat)
    else if 'A' <= c <= 'F' then Some(10 + (c - 'A') as nat)
    else None
  }

  /** The value of a string of hexadecimal digits. */
  function HexValue(s: string): Option<nat>
    decreases |s|
  {
    if s == "" then Some(0)
    else
      match (HexValue(s[..|s| - 1]), HexDigit(s[|s| - 1]))
      case (Some(high), Some(low)) => Some(16 * high + low)
      case _ => None
  }

  /** A machine-word number in base 16, as the standard library reads it: one plus sign is allowed. */
  function ParseHex(s: string): Option<nat> {
    var digits := if s != "" && s[0] == '+' then s[1..] else s;
    if digits == "" then None
    else
      match HexValue(digits)
      case None => None
      case Some(n) => if n < TWO_64 then Some(n) else None
  }

  /** The chunk size: up to a semicolon, white space around it ignored. */
  function SizeOf(line: string): Option<nat> {
    ParseHex(Trim(line[..IndexOf(line, ';')]))
  }

  /** Sizes read: both cases of digits, extensions and surrounding white space ignored, a plus sign allowed. */
  lemma SizeSamples()
    ensures SizeOf("1a;x") == Some(26)
    ensures SizeOf(" +FF ") == Some(255)
    ensures SizeOf("1g") == None && SizeOf(";1") == None
  {
    hide IndexOf, Trim, ParseHex;
    SizeAt("1a;x", 2, "1a");
    SizeAt(" +FF ", 5, "+FF");
    SizeAt("1g", 2, "1g");
    SizeAt(";1", 0, "");
    ParsedSamples();
    TrimmedSamples();
  }

  lemma SizeAt(line: string, k: nat, s: string)
    requires k <= |line| && (k < |line| ==> line[k] == ';') && forall i :: 0 <= i < k ==> line[i] != ';'
    ensures Trim(line[..k]) == s ==> SizeOf(line) == ParseHex(s)
  {
    hide Trim, ParseHex;
  }

  lemma TrimmedSamples()
    ensures Trim("1a;x"[..2]) == "1a" && Trim(" +FF "[..5]) == "+FF" && Trim("1g"[..2]) == "1g" && Trim(";1"[..0]) == ""
  {
    assert "1a;x"[..2] == "1a" && "1g"[..2] == "1g" && " +FF "[..5] == " +FF ";
    assert " +FF "[1..] == "+FF " && "+FF "[..3] == "+FF";
    assert TrimStart(" +FF ") == TrimStart("+FF ") == "+FF ";
    assert TrimEnd("+FF ") == TrimEnd("+FF") == "+FF";
  }

  lemma ParsedSamples()
    ensures ParseHex("1a") == Some(26) && ParseHex("+FF") == Some(255) && ParseHex("1g") == None && ParseHex("") == None
  {
    assert "+FF"[1..] == "FF";
    TwoDigitsRead("1a");
    TwoDigitsRead("FF");
    TwoDigitsRead("1g");
  }

  lemma TwoDigitsRead(s: string)
    requires |s| == 2
    ensures HexValue(s) == match (HexDigit(s[0]), HexDigit(s[1]))
                           case (Some(high), Some(low)) => Some(16 * high + low)
                           case _ => None
  {
    hide HexDigit;
    assert s[..1][..0] == "";
    assert HexValue(s[..1]) == HexDigit(s[0]);
  }

  // ----- decoding -----

  /** What a slice can be: no longer than half the address space. */
  type Slice = s: string | |s| < TWO_63

  const TWO_63 := 0x8000_0000_0000_0000

  /** Addition of machine words. */
  function Sum(a: nat, b: nat): nat { (a + b) % TWO_64 }

  /** A body, or the program stopping at a slice whose end lies before its start. (Checked arithmetic stops at the
      very same sum.) */
  datatype Outcome = Decoded(body: string) | Aborted

  function Prepend(data: string, o: Outcome): Outcome {
    if o.Decoded? then Decoded(data + o.body) else Aborted
  }

  /** The decoded body; a body that ends early yields what there is of it. */
  function Decode(input: Slice): Outcome
    decreases |input|
  {
    match Find(input, CRLF)
    case None => Decoded("")
    case Some(nl) =>
      match SizeOf(input[..nl])
      case None => Decoded("")
      case Some(size) => DecodeChunk(input, Sum(nl, 2), size)
  }

  /** The chunk of `size` bytes that starts at `start`, and all after it. */
  function DecodeChunk(input: Slice, start: nat, size: nat): Outcome
    requires 0 < start <= |input|
    decreases |input|, 0
  {
    var end := Sum(start, size);
    if size == 0 then Decoded("")
    else if end > |input| then Decoded(input[start..])
    else if end < start then Aborted
    else
      var next := Sum(end, 2);
      Prepend(input[start..end], if next > |input| then Decoded("") else Decode(input[next..]))
  }

  lemma NoWrap(a: nat, b: nat)
    requires a + b < TWO_64
    ensures Sum(a, b) == a + b
  {
  }

  method DecodeChunked(body: Slice) returns (r: Outcome)
    ensures r == Decode(body)
  {
    hide SizeOf, Find;
    var out: string := "";
    var input: Slice := body;
    PrependNothing(Decode(body));
    while true
      invariant Decode(body) == Prepend(out, Decode(input))
      decreases |input|
    {
      var nl := FindSubslice(input, CRLF);
      if nl == None {
        return Decoded(out);
      }
      var parsed := SizeOf(input[..nl.value]);
      if parsed == None {
        return Decoded(out);
      }
      var size := parsed.value;
      var dataStart := Sum(nl.value, 2);
      if size == 0 {
        return Decoded(out);
      }
      var end := Sum(dataStart, size);
      if end > |input| {
        return Decoded(out + input[dataStart..]);
      }
      if end < dataStart {
        return Aborted;
      }
      var next := Sum(end, 2);
      PrependTwice(out, input[dataStart..end], if next > |input| then Decoded("") else Decode(input[next..]));
      out := out + input[dataStart..end];
      if next > |input| {
        return Decoded(out);
      }
      input := input[next..];
    }
  }

  lemma PrependNothing(o: Outcome)
    ensures Prepend("", o) == o
  {
    assert o.Decoded? ==> "" + o.body == o.body;
  }

  lemma PrependTwice(a: string, b: string, o: Outcome)
    ensures Prepend(a, Prepend(b, o)) == Prepend(a + b, o)
  {
    assert o.Decoded? ==> a + (b + o.body) == a + b + o.body;
  }

  // ----- the size lines a decoder reaches -----

  /** A size line: where its line end stands in what is left of the input, and the size it gives. */
  datatype SizeLine = SizeLine(at: nat, size: nat) {
    /** The place behind its chunk and the line end after that. */
    function Next(): nat { at + 2 + size + 2 }
  }

  /** The sum of position and size fits a machine word. */
  predicate Fits(l: SizeLine) {
    l.at + 2 + l.size < TWO_64
  }

  function FirstLine(input: string): (r: Option<SizeLine>)
    ensures r.Some? ==> r.value.at + 2 <= |input| && r.value.size < TWO_64
  {
    match Find(input, CRLF)
    case None => None
    case Some(nl) =>
      match SizeOf(input[..nl])
      case None => None
      case Some(size) => Some(SizeLine(nl, size))
  }

  /** The size lines one after the other, as long as each chunk is whole and not the last. */
  function SizeLines(input: string): seq<SizeLine>
    decreases |input|
  {
    match FirstLine(input)
    case None => []
    case Some(l) => [l] + if l.size == 0 || l.Next() > |input| then [] else SizeLines(input[l.Next()..])
  }

  lemma SizeLinesStep(input: string)
    ensures SizeLines(input) == match FirstLine(input)
                                case None => []
                                case Some(l) => [l] + if l.size == 0 || l.Next() > |input| then [] else SizeLines(input[l.Next()..])
  {
    hide FirstLine;
  }

  predicate AllFit(lines: seq<SizeLine>) {
    forall i :: 0 <= i < |lines| ==> Fits(lines[i])
  }

  lemma AllFitCons(l: SizeLine, lines: seq<SizeLine>)
    ensures AllFit([l] + lines) <==> Fits(l) && AllFit(lines)
  {
    hide Fits;
    assert ([l] + lines)[0] == l;
    assert forall i :: 0 <= i < |lines| ==> ([l] + lines)[i + 1] == lines[i];
    if Fits(l) && AllFit(lines) {
      forall i | 0 <= i < |[l] + lines| ensures Fits(([l] + lines)[i]) {
        if i > 0 {
          assert Fits(lines[i - 1]);
        }
      }
    }
  }

  lemma ChunkCases(input: Slice, l: SizeLine)
    requires l.at + 2 <= |input| && 0 < l.size < TWO_64
    ensures var start, end, o := l.at + 2, l.at + 2 + l.size, DecodeChunk(input, l.at + 2, l.size);
            && (!Fits(l) ==> o == Aborted)
            && (Fits(l) && end > |input| ==> o == Decoded(input[start..]))
            && (end <= |input| < end + 2 ==> o == Decoded(input[start..end]))
            && (end + 2 <= |input| ==> o == Prepend(input[start..end], Decode(input[end + 2..])))
  {
    hide Decode, Sum, Prepend;
    var start, end := l.at + 2, l.at + 2 + l.size;
    if Fits(l) {
      NoWrap(start, l.size);
      if end <= |input| {
        NoWrap(end, 2);
        PrependEmpty(input[start..end]);
      }
    } else {
      Wraps(start, l.size);
    }
  }

  lemma Wraps(a: nat, b: nat)
    requires a < TWO_64 && b < TWO_64 && a + b >= TWO_64
    ensures Sum(a, b) == a + b - TWO_64
  {
  }

  lemma PrependEmpty(s: string)
    ensures Prepend(s, Decoded("")) == Decoded(s)
  {
    assert s + "" == s;
  }

  lemma DecodeByLine(input: Slice)
    ensures Decode(input) == match FirstLine(input)
                             case None => Decoded("")
                             case Some(l) => if l.size == 0 then Decoded("") else DecodeChunk(input, l.at + 2, l.size)
  {
    hide SizeOf, Find, Sum;
    if FirstLine(input).Some? {
      NoWrap(FirstLine(input).value.at, 2);
    }
  }

  /** Decoding completes exactly when every size line reached fits a machine word together with its position. */
  lemma {:induction false} CompletesExactly(input: Slice)
    ensures Decode(input).Decoded? <==> AllFit(SizeLines(input))
    decreases |input|
  {
    hide Decode, DecodeChunk, FirstLine, Fits, SizeLines, AllFit;
    DecodeByLine(input);
    SizeLinesStep(input);
    NoneFit();
    if FirstLine(input).Some? {
      var l := FirstLine(input).value;
      AllFitCons(l, []);
      assert [l] + [] == [l];
      if l.size == 0 {
        ZeroFits(l);
      } else {
        ChunkCases(input, l);
        if l.at + 2 + l.size <= |input| {
          SmallFits(l, input);
        }
        if l.Next() <= |input| {
          CompletesExactly(input[l.Next()..]);
          AllFitCons(l, SizeLines(input[l.Next()..]));
        }
      }
    }
  }

  lemma NoneFit()
    ensures AllFit([])
  {
  }

  lemma ZeroFits(l: SizeLine)
    ensures l.size == 0 && l.at < TWO_63 ==> Fits(l)
  {
  }

  lemma SmallFits(l: SizeLine, input: Slice)
    requires l.at + 2 + l.size <= |input|
    ensures Fits(l)
  {
  }

  /** A size of 2^64 - 1 stops the program instead of counting as a truncated chunk. */
  lemma OversizedAborts()
    ensures Decode("ffffffffffffffff\r\nABC") == Aborted
  {
    hide SizeOf, Find, Decode, DecodeChunk;
    SixteenFs();
    LineEnds("ffffffffffffffff", "ABC");
    var input := "ffffffffffffffff\r\nABC";
    assert "ffffffffffffffff" + CRLF + "ABC" == input;
    assert input[..16] == "ffffffffffffffff";
    DecodeByLine(input);
    ChunkCases(input, SizeLine(16, TWO_64 - 1));
  }

  lemma SixteenFs()
    ensures SizeOf("ffffffffffffffff") == Some(TWO_64 - 1)
    ensures !Contains("ffffffffffffffff", CRLF)
  {
    hide ParseHex, Contains, HexValue, SizeOf;
    var s := "ffffffffffffffff";
    FsValue(s);
    assert Pow(16, 16) == TWO_64 by {
      PowAdd(16, 4, 4);
      PowAdd(16, 8, 8);
      assert Pow(16, 4) == 0x1_0000;
    }
    FsLine(s);
    FsParse(s);
  }

  lemma FsParse(s: string)
    requires s != "" && s[0] != '+' && HexValue(s).Some? && HexValue(s).value < TWO_64
    ensures ParseHex(s) == HexValue(s)
  {
  }

  lemma {:induction false} FsValue(s: string)
    requires forall i :: 0 <= i < |s| ==> s[i] == 'f'
    ensures HexValue(s) == Some(Pow(16, |s|) - 1)
  {
    if s != "" {
      FsValue(s[..|s| - 1]);
    }
  }

  lemma FsLine(s: string)
    requires s != "" && forall i :: 0 <= i < |s| ==> s[i] == 'f'
    ensures SizeOf(s) == ParseHex(s) && !Contains(s, CRLF)
  {
    hide ParseHex;
    NothingToTrim(s);
    assert IndexOf(s, ';') == |s| && s[..|s|] == s;
    forall i: nat ensures !OccursAt(s, CRLF, i) {
      if i + 2 <= |s| {
        assert s[i..i + 2][0] == 'f';
      }
    }
  }

  // ----- all inputs -----

  /** A body decoded is never longer than what it was decoded from. */
  lemma {:induction false} DecodeNeverGrows(input: Slice)
    ensures Decode(input).Decoded? ==> |Decode(input).body| <= |input|
    decreases |input|
  {
    hide Decode, DecodeChunk, FirstLine, Fits;
    DecodeByLine(input);
    if FirstLine(input).Some? && FirstLine(input).value.size > 0 {
      var l := FirstLine(input).value;
      ChunkCases(input, l);
      if l.Next() <= |input| {
        DecodeNeverGrows(input[l.Next()..]);
      }
    }
  }

  /** A line found in a shorter input is the line of the longer one. */
  lemma LineOfPrefix(input: string, n: nat)
    requires n <= |input|
    ensures Find(input[..n], CRLF).Some? ==> Find(input, CRLF) == Find(input[..n], CRLF)
  {
    hide Find;
    var short := input[..n];
    FindFirst(short, CRLF);
    if Find(short, CRLF).Some? {
      var k := Find(short, CRLF).value;
      SliceOfTake(input, n, k, k + 2);
      forall i: nat | i < k ensures !OccursAt(input, CRLF, i) {
        SliceOfTake(input, n, i, i + 2);
        assert OccursAt(input, CRLF, i) ==> OccursAt(short, CRLF, i);
      }
      FindIs(input, CRLF, k);
    }
  }

  lemma FirstLineOfPrefix(input: string, n: nat)
    requires n <= |input|
    ensures FirstLine(input[..n]).Some? ==> FirstLine(input) == FirstLine(input[..n])
  {
    hide Find, SizeOf;
    LineOfPrefix(input, n);
    if Find(input[..n], CRLF).Some? {
      var nl := Find(input[..n], CRLF).value;
      assert input[..n][..nl] == input[..nl];
    }
  }

  /** The size lines met in what arrives of a body are the first ones of the whole body. */
  lemma {:induction false} SizeLinesOfPrefix(input: string, n: nat)
    requires n <= |input|
    ensures SizeLines(input[..n]) <= SizeLines(input)
    decreases |input|
  {
    hide FirstLine, SizeLines;
    FirstLineOfPrefix(input, n);
    var short := input[..n];
    SizeLinesStep(short);
    if FirstLine(short).Some? {
      var l := FirstLine(short).value;
      SizeLinesStep(input);
      if l.size > 0 && l.Next() <= n {
        DropOfTake(input, n, l.Next());
        SizeLinesOfPrefix(input[l.Next()..], n - l.Next());
      }
    }
  }

  /** If a whole body decodes, then whatever arrives of it decodes as well, to a beginning of what the whole body
      decodes to, wherever it breaks off. */
  lemma {:induction false} TruncationIsPrefix(input: Slice, n: nat)
    requires n <= |input|
    ensures Decode(input).Decoded? ==> Decode(input[..n]).Decoded? && Decode(input[..n]).body <= Decode(input).body
    decreases |input|
  {
    hide Decode, DecodeChunk, FirstLine, Fits;
    FirstLineOfPrefix(input, n);
    var short: Slice := input[..n];
    DecodeByLine(short);
    DecodeByLine(input);
    if FirstLine(short).Some? && FirstLine(short).value.size > 0 {
      var l := FirstLine(short).value;
      var start, end := l.at + 2, l.at + 2 + l.size;
      ChunkCases(short, l);
      ChunkCases(input, l);
      if end <= n {
        SliceOfTake(input, n, start, end);
        if end + 2 <= n {
          var more, m := input[end + 2..], n - (end + 2);
          DropOfTake(input, n, end + 2);
          TruncationIsPrefix(more, m);
        }
        SmallFits(l, input);
      } else {
        DropOfTake(input, n, start);
      }
    }
  }

  // ----- well-formed bodies -----

  /** A chunk with its size line: digits in either case, leading zeros, extensions are all possible. */
  datatype Chunk = Chunk(line: string, data: string)

  ghost predicate IsLine(line: string, size: nat) {
    !Contains(line, CRLF) && SizeOf(line) == Some(size)
  }

  ghost predicate WellFormed(chunks: seq<Chunk>) {
    forall i :: 0 <= i < |chunks| ==> chunks[i].data != "" && IsLine(chunks[i].line, |chunks[i].data|)
  }

  function Encode(chunks: seq<Chunk>, last: string): string {
    if chunks == [] then last + CRLF
    else chunks[0].line + CRLF + chunks[0].data + CRLF + Encode(chunks[1..], last)
  }

  function Payload(chunks: seq<Chunk>): string {
    if chunks == [] then "" else chunks[0].data + Payload(chunks[1..])
  }

  /** The line ends where it was ended. */
  lemma LineEnds(line: string, more: string)
    requires !Contains(line, CRLF)
    ensures Find(line + CRLF + more, CRLF) == Some(|line|)
  {
    hide Find;
    var s := line + CRLF + more;
    assert s[|line|..|line| + 2] == CRLF;
    forall i: nat | i < |line| ensures !OccursAt(s, CRLF, i) {
      assert s[i..i + 2][0] == s[i] && s[i..i + 2][1] == s[i + 1];
      if i + 1 < |line| {
        assert line[i..i + 2] == s[i..i + 2];
        assert OccursAt(s, CRLF, i) ==> OccursAt(line, CRLF, i);
      } else {
        assert s[i + 1] == '\r';
      }
    }
    FindIs(s, CRLF, |line|);
  }

  lemma LineIsFirst(line: string, size: nat, more: string)
    requires IsLine(line, size)
    ensures FirstLine(line + CRLF + more) == Some(SizeLine(|line|, size))
  {
    hide SizeOf, Find, Contains;
    LineEnds(line, more);
    assert (line + CRLF + more)[..|line|] == line;
  }

  /** A whole chunk in front is put before whatever the rest comes to. */
  lemma DecodeOne(c: Chunk, more: string)
    requires c.data != "" && IsLine(c.line, |c.data|)
    requires |c.line + CRLF + (c.data + CRLF + more)| < TWO_63
    ensures Decode(c.line + CRLF + (c.data + CRLF + more)) == Prepend(c.data, Decode(more))
  {
    hide Decode, DecodeChunk, FirstLine, IsLine;
    var s: Slice := c.line + CRLF + (c.data + CRLF + more);
    LineIsFirst(c.line, |c.data|, c.data + CRLF + more);
    DecodeByLine(s);
    ChunkCases(s, SizeLine(|c.line|, |c.data|));
    var start := |c.line| + 2;
    assert s[start..start + |c.data|] == c.data && s[start + |c.data| + 2..] == more;
  }

  /** A chunked body decodes to its payload, whatever trailer follows the last chunk. */
  lemma {:induction false} DecodeEncoded(chunks: seq<Chunk>, last: string, trailer: string)
    requires WellFormed(chunks) && IsLine(last, 0)
    requires |Encode(chunks, last) + trailer| < TWO_63
    ensures Decode(Encode(chunks, last) + trailer) == Decoded(Payload(chunks))
    decreases |chunks|
  {
    hide Decode, DecodeChunk, FirstLine, IsLine;
    if chunks == [] {
      LineIsFirst(last, 0, trailer);
      DecodeByLine(last + CRLF + trailer);
    } else {
      var c := chunks[0];
      var more := Encode(chunks[1..], last) + trailer;
      assert Encode(chunks, last) + trailer == c.line + CRLF + (c.data + CRLF + more);
      DecodeOne(c, more);
      DecodeEncoded(chunks[1..], last, trailer);
    }
  }

  // ----- printed sizes -----

  function DigitOf(d: nat): (c: char)
    requires d < 16
    ensures HexDigit(c) == Some(d) && !IsSpace(c) && c != '+' && c != ';' && c != '\r'
  {
    if d < 10 then '0' + d as char else 'a' + (d - 10) as char
  }

  /** Lower-case hexadecimal without leading zeros. */
  function Hex(n: nat): (s: string)
    ensures s != ""
  {
    if n < 16 then [DigitOf(n)] else Hex(n / 16) + [DigitOf(n % 16)]
  }

  lemma {:induction false} HexRead(n: nat)
    ensures HexValue(Hex(n)) == Some(n)
    ensures forall i :: 0 <= i < |Hex(n)| ==> !IsSpace(Hex(n)[i]) && Hex(n)[i] != '+' && Hex(n)[i] != ';' && Hex(n)[i] != '\r'
  {
    if n < 16 {
      assert [DigitOf(n)][..0] == "";
    } else {
      HexRead(n / 16);
      var s := Hex(n);
      assert s[..|s| - 1] == Hex(n / 16) && s[|s| - 1] == DigitOf(n % 16);
    }
  }

  /** A printed size, bare or with an extension, is read back exactly when it fits a machine word. */
  lemma SizeReadBackExactly(n: nat, extension: string)
    requires extension != "" ==> extension[0] == ';'
    ensures SizeOf(Hex(n) + extension) == Some(n) <==> n < TWO_64
  {
    hide Hex, HexValue, IsSpace;
    HexRead(n);
    var h := Hex(n);
    var line := h + extension;
    assert IndexOf(line, ';') == |h| by {
      assert extension != "" ==> line[|h|] == ';';
    }
    assert line[..|h|] == h;
    NothingToTrim(h);
  }

  lemma NothingToTrim(h: string)
    requires h != "" && forall i :: 0 <= i < |h| ==> !IsSpace(h[i])
    ensures Trim(h) == h
  {
  }

  /** A printed size with any extension that stays on its line is a size line. */
  lemma PrintedIsLine(n: nat, extension: string)
    requires n < TWO_64 && (extension != "" ==> extension[0] == ';') && '\r' !in extension
    ensures IsLine(Hex(n) + extension, n)
  {
    hide Hex, HexValue, SizeOf;
    SizeReadBackExactly(n, extension);
    HexRead(n);
    var line := Hex(n) + extension;
    forall i: nat ensures !OccursAt(line, CRLF, i) {
      if i + 2 <= |line| {
        assert line[i..i + 2][0] == line[i];
        assert line[i] != '\r' by {
          if i >= |Hex(n)| {
            assert line[i] == extension[i - |Hex(n)|];
          }
        }
      }
    }
  }

  function Printed(pieces: seq<string>): seq<Chunk> {
    seq(|pieces|, i requires 0 <= i < |pieces| => Chunk(Hex(|pieces[i]|), pieces[i]))
  }

  function Joined(pieces: seq<string>): string {
    if pieces == [] then "" else pieces[0] + Joined(pieces[1..])
  }

  lemma {:induction false} PayloadOfPrinted(pieces: seq<string>)
    ensures Payload(Printed(pieces)) == Joined(pieces)
    decreases |pieces|
  {
    hide Hex;
    if pieces != [] {
      assert Printed(pieces)[1..] == Printed(pieces[1..]);
      PayloadOfPrinted(pieces[1..]);
    }
  }

  lemma {:induction false} PieceFits(chunks: seq<Chunk>, last: string, i: nat)
    requires i < |chunks|
    ensures |chunks[i].data| <= |Encode(chunks, last)|
    decreases |chunks|
  {
    if i > 0 {
      PieceFits(chunks[1..], last, i - 1);
    }
  }

  /** Non-empty pieces printed as chunks decode to their concatenation. */
  lemma PrintedRoundTrip(pieces: seq<string>, trailer: string)
    requires forall i :: 0 <= i < |pieces| ==> pieces[i] != ""
    requires |Encode(Printed(pieces), Hex(0)) + trailer| < TWO_63
    ensures Decode(Encode(Printed(pieces), Hex(0)) + trailer) == Decoded(Joined(pieces))
  {
    hide Hex, Decode, Encode, IsLine;
    forall i | 0 <= i < |pieces| ensures IsLine(Printed(pieces)[i].line, |Printed(pieces)[i].data|) {
      PieceFits(Printed(pieces), Hex(0), i);
      PrintedIsLine(|pieces[i]|, "");
      assert Hex(|pieces[i]|) + "" == Hex(|pieces[i]|);
    }
    PrintedIsLine(0, "");
    assert Hex(0) + "" == Hex(0);
    DecodeEncoded(Printed(pieces), Hex(0), trailer);
    PayloadOfPrinted(pieces);
  }

  /** What arrives of a body may decode although the whole of it stops the program. */
  lemma BeginningMayDecode()
    ensures var body := "1" + CRLF + ("x" + CRLF + "ffffffffffffffff\r\nABC");
            Decode(body) == Aborted && Decode(body[..6]) == Decoded("x")
  {
    hide Decode, IsLine, SizeOf, Contains;
    var bad := "ffffffffffffffff\r\nABC";
    var body := "1" + CRLF + ("x" + CRLF + bad);
    OneIsLine();
    OversizedAborts();
    DecodeOne(Chunk("1", "x"), bad);
    assert body[..6] == "1" + CRLF + ("x" + CRLF + "");
    NothingDecodes();
    DecodeOne(Chunk("1", "x"), "");
    PrependEmpty("x");
  }

  lemma OneIsLine()
    ensures IsLine("1", 1)
  {
    PrintedIsLine(1, "");
    assert Hex(1) + "" == "1";
  }

  lemma NothingDecodes()
    ensures Decode("") == Decoded("")
  {
  }
}
