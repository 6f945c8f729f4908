/** multipart/form-data bodies: the builder, the parser, and exactly which fields survive the trip
    (RFC 7578; boundary delimiters as in RFC 2046 section 5.1). */
module Multipart {
  import opened Bytes
  import opened Text

  datatype Field = Field(name: string, value: string)

  const CRLF := "\r\n"
  const BLANK := "\r\n\r\n"

  function Delimiter(boundary: string): (d: string)
    ensures |d| >= 2
  {
    "--" + boundary
  }

  // ----- building -----

  function Header(name: string): string {
    "Content-Disposition: form-data; name=\"" + name + "\"" + BLANK
  }

  /** What stands between two delimiters for one field. */
  function Framed(f: Field): string {
    CRLF + Header(f.name) + f.value + CRLF
  }

  function Form(fields: seq<Field>, boundary: string): string {
    if fields == [] then Delimiter(boundary) + "--\r\n"
    else Delimiter(boundary) + Framed(fields[0]) + Form(fields[1..], boundary)
  }

  /** One field written out, as it stands between two delimiters. */
  lemma FramedText(f: Field)
    ensures Framed(f) == "\r\n" + "Content-Disposition: form-data; name=\"" + f.name
                         + ("\"" + "\r\n\r\n" + f.value + "\r\n")
  {
    Unbracket(CRLF, "Content-Disposition: form-data; name=\"", f.name, "\"", BLANK, f.value, CRLF);
  }

  lemma Unbracket(a: string, b: string, c: string, d: string, e: string, f: string, g: string)
    ensures a + (b + c + d + e) + f + g == (a + b) + c + ((d + e) + f + g)
  {
    assert a + (b + c + d + e) == (a + b) + c + (d + e);
  }

  method BuildMultipartForm(fields: seq<Field>, boundary: string) returns (body: string)
    ensures body == Form(fields, boundary)
  {
    hide Framed;
    body := "";
    for k := 0 to |fields|
      invariant body + Form(fields[k..], boundary) == Form(fields, boundary)
    {
      var f := fields[k];
      assert fields[k..][1..] == fields[k + 1..];
      FramedIs(f);
      Regroup(body, Delimiter(boundary), Framed(f), Form(fields[k + 1..], boundary));
      body := body + (Delimiter(boundary) + CRLF);
      body := body + Header(f.name);
      body := body + f.value;
      body := body + CRLF;
    }
    body := body + (Delimiter(boundary) + "--\r\n");
  }

  lemma FramedIs(f: Field)
    ensures forall b: string, d: string :: b + (d + CRLF) + Header(f.name) + f.value + CRLF == b + d + Framed(f)
  {
    hide Header;
    forall b: string, d: string
      ensures b + (d + CRLF) + Header(f.name) + f.value + CRLF == b + d + Framed(f)
    {
    }
  }

  lemma Regroup(a: string, b: string, c: string, d: string)
    ensures a + (b + c + d) == a + b + c + d
  {
  }

  // ----- parsing -----

  function StripPrefix(s: string, p: string): string { if p <= s then s[|p|..] else s }

  function StripSuffix(s: string, p: string): string {
    if |p| <= |s| && s[|s| - |p|..] == p then s[..|s| - |p|] else s
  }

  function TrimQuotesStart(s: string): (r: string)
    ensures |r| <= |s|
  {
    if s != "" && s[0] == '\"' then TrimQuotesStart(s[1..]) else s
  }

  function TrimQuotesEnd(s: string): (r: string)
    ensures |r| <= |s|
  {
    if s != "" && s[|s| - 1] == '\"' then TrimQuotesEnd(s[..|s| - 1]) else s
  }

  function TrimQuotes(s: string): string { TrimQuotesEnd(TrimQuotesStart(s)) }

  /** The name parameter among the pieces between semicolons. */
  function NameIn(headers: string): Option<string>
    decreases |headers|
  {
    var k := IndexOf(headers, ';');
    var piece := Trim(headers[..k]);
    if "name=" <= piece then Some(TrimQuotes(piece[5..]))
    else if k == |headers| then None
    else NameIn(headers[k + 1..])
  }

  /** The field of a part, if it has a header block that names one. */
  function FieldOf(part: string): Option<Field> {
    var p := StripPrefix(part, CRLF);
    match Find(p, BLANK)
    case None => None
    case Some(h) =>
      match NameIn(p[..h])
      case None => None
      case Some(name) => Some(Field(name, StripSuffix(p[h + 4..], CRLF)))
  }

  function OneOf(f: Option<Field>): seq<Field> {
    if f.Some? then [f.value] else []
  }

  /** The fields of all parts: each part reaches from a delimiter to the next, the last to the end. */
  function Parse(s: string, d: string): seq<Field>
    requires |d| >= 2
    decreases |s|
  {
    match Find(s, d)
    case None => []
    case Some(rel) =>
      var rest := s[rel + |d|..];
      match Find(rest, d)
      case None => OneOf(FieldOf(rest))
      case Some(r) => OneOf(FieldOf(rest[..r])) + Parse(rest[r..], d)
  }

  /** The fields of the part that starts here and of those after it. */
  function ParsePart(rest: string, d: string): seq<Field>
    requires |d| >= 2
  {
    match Find(rest, d)
    case None => OneOf(FieldOf(rest))
    case Some(r) => OneOf(FieldOf(rest[..r])) + Parse(rest[r..], d)
  }

  lemma PartStep(rest: string, d: string)
    requires |d| >= 2
    ensures Find(rest, d).None? ==> ParsePart(rest, d) == OneOf(FieldOf(rest))
    ensures Find(rest, d).Some? ==>
              ParsePart(rest, d) == OneOf(FieldOf(rest[..Find(rest, d).value])) + Parse(rest[Find(rest, d).value..], d)
  {
    hide FieldOf, Find, OneOf, Parse;
  }

  lemma ParseStep(s: string, d: string)
    requires |d| >= 2
    ensures Find(s, d).None? ==> Parse(s, d) == []
    ensures Find(s, d).Some? ==> Parse(s, d) == ParsePart(s[Find(s, d).value + |d|..], d)
  {
    hide FieldOf, Find, OneOf;
    if Find(s, d).Some? {
      var rest := s[Find(s, d).value + |d|..];
      PartStep(rest, d);
      hide ParsePart;
      assert Find(rest, d).None? ==> Parse(s, d) == OneOf(FieldOf(rest));
    }
  }

  /** From one delimiter to the next, by positions in the whole body. */
  lemma ParseFrom(body: string, pos: nat, d: string)
    requires pos <= |body| && |d| >= 2
    ensures match Find(body[pos..], d)
            case None => Parse(body[pos..], d) == []
            case Some(rel) =>
              pos + rel + |d| <= |body| && Parse(body[pos..], d) == ParsePart(body[pos + rel + |d|..], d)
  {
    hide FieldOf, Find, OneOf, Parse, ParsePart;
    ParseStep(body[pos..], d);
    if Find(body[pos..], d).Some? {
      DropOfDrop(body, pos, Find(body[pos..], d).value + |d|);
    }
  }

  lemma PartFrom(body: string, start: nat, d: string)
    requires start <= |body| && |d| >= 2
    ensures Find(body[start..], d).None? ==> ParsePart(body[start..], d) == OneOf(FieldOf(body[start..]))
    ensures Find(body[start..], d).Some? ==>
              var r := Find(body[start..], d).value;
              && start + r <= |body|
              && ParsePart(body[start..], d) == OneOf(FieldOf(body[start..start + r])) + Parse(body[start + r..], d)
  {
    hide FieldOf, Find, OneOf, Parse, ParsePart;
    PartStep(body[start..], d);
    if Find(body[start..], d).Some? {
      TakeOfDrop(body, start, Find(body[start..], d).value);
      DropOfDrop(body, start, Find(body[start..], d).value);
    }
  }

  method ParseMultipartFields(body: string, boundary: string) returns (out: seq<Field>)
    ensures out == Parse(body, Delimiter(boundary))
  {
    hide FieldOf, Find, Delimiter, Parse, ParsePart;
    out := [];
    var d := Delimiter(boundary);
    var pos := 0;
    assert body[0..] == body;
    while true
      invariant pos <= |body|
      invariant Parse(body, d) == out + Parse(body[pos..], d)
      decreases |body| - pos
    {
      ParseFrom(body, pos, d);
      var rel := FindSubslice(body[pos..], d);
      if rel == None {
        return;
      }
      var start := pos + rel.value + |d|;
      PartFrom(body, start, d);
      var next := FindSubslice(body[start..], d);
      var end := if next == None then |body| else start + next.value;
      var part := body[start..end];
      assert next == None ==> part == body[start..];
      var field := FieldOf(part);
      ghost var was := out;
      if field.Some? {
        out := out + [field.value];
      }
      assert out == was + OneOf(field);
      if next == None {
        return;
      }
      ConcatAssoc(was, OneOf(field), Parse(body[end..], d));
      pos := end;
    }
  }

  // ----- one field -----

  /** A name the header can carry. */
  ghost predicate NameFits(name: string) {
    && ';' !in name && !Contains(name, BLANK)
    && (name != "" ==> name[0] != '\"' && name[|name| - 1] != '\"')
  }

  const LEAD := "Content-Disposition: form-data; name=\""

  lemma OccursBehind(a: string, n: string, c: string)
    ensures OccursAt(a + n + c, n, |a|)
  {
    assert (a + n + c)[|a|..|a| + |n|] == n;
  }

  lemma OccursWithin(a: string, b: string, c: string, n: string, j: nat)
    requires OccursAt(b, n, j)
    ensures OccursAt(a + b + c, n, |a| + j)
  {
    var s := a + b + c;
    assert s[|a|..|a| + |b|] == b;
    SliceOfSlice(s, |a|, |a| + |b|, j, j + |n|);
  }

  /** The header block ends at the blank line inside the name, if there is one, otherwise after the closing quote. */
  lemma HeaderEnd(name: string, tail: string)
    ensures var p := LEAD + name + "\"" + BLANK + tail;
            var h := Find(p, BLANK);
            && h.Some?
            && (!Contains(name, BLANK) ==> h.value == |LEAD| + |name| + 1)
            && (Contains(name, BLANK) ==> |LEAD| <= h.value < |LEAD| + |name|)
  {
    hide Find, OccursAt;
    var p := LEAD + name + "\"" + BLANK + tail;
    var e := |LEAD| + |name| + 1;
    OccursBehind(LEAD + name + "\"", BLANK, tail);
    assert p == LEAD + name + "\"" + (BLANK + tail);
    forall i: nat | i < e && OccursAt(p, BLANK, i) ensures i >= |LEAD| && OccursAt(name, BLANK, i - |LEAD|) {
      BlankInHeader(name, BLANK + tail, i);
    }
    FindFirst(p, BLANK);
    if Contains(name, BLANK) {
      var j: nat :| OccursAt(name, BLANK, j);
      OccursWithin(LEAD, name, "\"" + BLANK + tail, BLANK, j);
      assert p == LEAD + name + ("\"" + BLANK + tail);
      OccursFits(name, BLANK, j);
    }
  }

  lemma OccursFits(h: string, n: string, i: nat)
    requires OccursAt(h, n, i)
    ensures i + |n| <= |h|
  {
  }

  /** A blank line that starts before the closing quote lies inside the name. */
  lemma BlankInHeader(name: string, tail: string, i: nat)
    requires OccursAt(LEAD + name + "\"" + tail, BLANK, i) && i < |LEAD| + |name| + 1
    ensures i >= |LEAD| && OccursAt(name, BLANK, i - |LEAD|)
  {
    var p := LEAD + name + "\"" + tail;
    var e := |LEAD| + |name|;
    assert p[e] == '\"';
    assert p[i..i + 4][0] == p[i] && p[i..i + 4][1] == p[i + 1] && p[i..i + 4][2] == p[i + 2] && p[i..i + 4][3] == p[i + 3];
    assert forall k :: 0 <= k < |LEAD| ==> p[k] == LEAD[k] != '\r';
    assert p[i..i + 4] == name[i - |LEAD|..i - |LEAD| + 4];
  }

  lemma {:induction false} TrimEndShorter(s: string)
    ensures |TrimEnd(s)| <= |s|
    ensures s != "" && !IsSpace(s[|s| - 1]) ==> TrimEnd(s) == s
  {
    var b := TrimEndIsPart(s);
  }

  lemma {:induction false} TrimEndAfter(w: string, y: string)
    requires w != "" && !IsSpace(w[|w| - 1])
    ensures TrimEnd(w + y) == w + TrimEnd(y)
    decreases |y|
  {
    if y == "" {
      assert w + y == w;
    } else {
      var s := w + y;
      assert s[|s| - 1] == y[|y| - 1];
      if IsSpace(y[|y| - 1]) {
        assert s[..|s| - 1] == w + y[..|y| - 1];
        TrimEndAfter(w, y[..|y| - 1]);
      }
    }
  }

  lemma {:induction false} IndexAfter(w: string, y: string, c: char)
    requires c !in w
    ensures IndexOf(w + y, c) == |w| + IndexOf(y, c)
    decreases |w|
  {
    if w == "" {
      assert w + y == y;
    } else {
      assert w[0] in w && (w + y)[1..] == w[1..] + y;
      IndexAfter(w[1..], y, c);
    }
  }

  const DISPOSITION := "Content-Disposition: form-data"
  const NAME_IS := " name=\""

  lemma LeadPieces()
    ensures LEAD == DISPOSITION + ";" + NAME_IS && |LEAD| == |DISPOSITION| + 1 + |NAME_IS|
    ensures ';' !in DISPOSITION && ';' !in NAME_IS
    ensures TrimStart(DISPOSITION) == DISPOSITION && TrimEnd(DISPOSITION) == DISPOSITION && !("name=" <= DISPOSITION)
  {
    TrimEndShorter(DISPOSITION);
  }

  lemma NextPiece(s: string)
    requires IndexOf(s, ';') < |s| && !("name=" <= Trim(s[..IndexOf(s, ';')]))
    ensures NameIn(s) == NameIn(s[IndexOf(s, ';') + 1..])
  {
    hide Trim, TrimQuotes, IndexOf;
  }

  lemma PieceSkipped(w: string, more: string)
    requires ';' !in w && !("name=" <= Trim(w))
    ensures NameIn(w + ";" + more) == NameIn(more)
  {
    hide Trim, TrimQuotes, IndexOf, NameIn;
    var t := w + ";" + more;
    var rest := ";" + more;
    assert rest[0] == ';' && t == w + rest;
    IndexAfter(w, rest, ';');
    assert t[..|w|] == w && t[|w| + 1..] == more;
    NextPiece(t);
  }

  lemma PieceTaken(w: string, x: string, q: string)
    requires ';' !in w && Trim(w + x[..IndexOf(x, ';')]) == "name=" + q
    ensures NameIn(w + x) == Some(TrimQuotes(q))
  {
    hide Trim, TrimQuotes, IndexOf;
    IndexAfter(w, x, ';');
    var k := IndexOf(x, ';');
    assert (w + x)[..|w| + k] == w + x[..k];
    assert ("name=" + q)[..5] == "name=" && ("name=" + q)[5..] == q;
  }

  /** The first piece is the disposition, the second yields the name. */
  lemma NameInLead(x: string)
    ensures NameIn(LEAD + x) == Some(TrimQuotes(TrimEnd(x[..IndexOf(x, ';')])))
  {
    hide TrimStart, TrimEnd, TrimQuotes, IndexOf, NameIn;
    LeadPieces();
    assert LEAD + x == DISPOSITION + ";" + (NAME_IS + x);
    PieceSkipped(DISPOSITION, NAME_IS + x);
    var y := x[..IndexOf(x, ';')];
    TrimName(y);
    assert "name=\"" + TrimEnd(y) == "name=" + ("\"" + TrimEnd(y));
    PieceTaken(NAME_IS, x, "\"" + TrimEnd(y));
    QuoteFirst(TrimEnd(y));
  }

  lemma TrimName(y: string)
    ensures Trim(NAME_IS + y) == "name=\"" + TrimEnd(y)
  {
    hide TrimEnd;
    var t := NAME_IS + y;
    assert t[1..] == "name=\"" + y;
    assert TrimStart(t) == TrimStart(t[1..]) == t[1..];
    TrimEndAfter("name=\"", y);
  }

  lemma QuoteFirst(z: string)
    ensures TrimQuotes("\"" + z) == TrimQuotes(z)
  {
    assert ("\"" + z)[1..] == z;
  }

  /** No quote remains at either end. */
  lemma {:induction false} TrimQuotesBare(s: string)
    ensures var r := TrimQuotes(s); r != "" ==> r[0] != '\"' && r[|r| - 1] != '\"'
    decreases |s|
  {
    if s != "" && s[0] == '\"' {
      TrimQuotesBare(s[1..]);
    } else {
      EndBare(s);
    }
  }

  lemma {:induction false} EndBare(s: string)
    requires s != "" ==> s[0] != '\"'
    ensures var r := TrimQuotesEnd(s); r != "" ==> r[0] == s[0] && r[|r| - 1] != '\"'
    decreases |s|
  {
    if s != "" && s[|s| - 1] == '\"' {
      EndBare(s[..|s| - 1]);
    }
  }

  lemma QuotedName(name: string)
    requires name != "" ==> name[0] != '\"' && name[|name| - 1] != '\"'
    ensures TrimQuotes(name + "\"") == name
  {
    var s := name + "\"";
    assert s[|s| - 1] == '\"' && s[..|s| - 1] == name;
    assert name == "" ==> s[1..] == "";
    assert name != "" ==> s[0] == name[0];
    assert TrimQuotesEnd(s) == TrimQuotesEnd(name);
  }

  /** What the header block before `cut` yields. */
  function NameUpTo(x: string): string { TrimQuotes(TrimEnd(x[..IndexOf(x, ';')])) }

  lemma FieldOfFramed(f: Field)
    ensures !Contains(f.name, BLANK) ==> FieldOf(Framed(f)) == Some(Field(NameUpTo(f.name + "\""), f.value))
    ensures Contains(f.name, BLANK) ==>
              exists k :: 0 <= k < |f.name| && FieldOf(Framed(f)).Some? && FieldOf(Framed(f)).value.name == NameUpTo(f.name[..k])
  {
    hide Find, NameIn, NameUpTo, Contains;
    var tail := f.value + CRLF;
    var p := LEAD + f.name + "\"" + BLANK + tail;
    assert Framed(f) == CRLF + p;
    HeaderEnd(f.name, tail);
    var h := Find(p, BLANK).value;
    var x := if Contains(f.name, BLANK) then f.name[..h - |LEAD|] else f.name + "\"";
    assert p[..h] == LEAD + x;
    NameInHeader(x);
    if !Contains(f.name, BLANK) {
      assert p[h + 4..] == f.value + CRLF;
      SuffixStripped(f.value);
    }
  }

  lemma NameInHeader(x: string)
    ensures NameIn(LEAD + x) == Some(NameUpTo(x))
  {
    NameInLead(x);
  }

  lemma SuffixStripped(v: string)
    ensures StripSuffix(v + CRLF, CRLF) == v
  {
    assert (v + CRLF)[|v|..] == CRLF;
  }

  lemma NameUpToShort(x: string)
    ensures |NameUpTo(x)| <= IndexOf(x, ';')
  {
    TrimEndShorter(x[..IndexOf(x, ';')]);
  }

  /** A framed field always parses to a field; it is the same field exactly when the header can carry its name. */
  lemma FieldReadBackExactly(f: Field)
    ensures FieldOf(Framed(f)).Some?
    ensures FieldOf(Framed(f)) == Some(f) <==> NameFits(f.name)
  {
    hide FieldOf, Framed, NameUpTo, TrimQuotes, TrimEnd, Contains;
    FieldOfFramed(f);
    var x := f.name + "\"";
    if Contains(f.name, BLANK) {
      var k :| 0 <= k < |f.name| && FieldOf(Framed(f)).value.name == NameUpTo(f.name[..k]);
      NameUpToShort(f.name[..k]);
    } else if ';' in f.name {
      NameUpToShort(x);
      var i :| 0 <= i < |f.name| && f.name[i] == ';';
      assert x[i] == ';';
    } else {
      WholeName(f.name);
      TrimQuotesBare(x);
      if NameFits(f.name) {
        QuotedName(f.name);
      }
    }
  }

  lemma WholeName(name: string)
    requires ';' !in name
    ensures NameUpTo(name + "\"") == TrimQuotes(name + "\"")
  {
    var x := name + "\"";
    IndexAfter(name, "\"", ';');
    assert x[..|x|] == x;
    TrimEndShorter(x);
  }

  // ----- the whole form -----

  /** A boundary the delimiter lines allow. */
  predicate PlainBoundary(boundary: string) {
    '\r' !in boundary && '\n' !in boundary && '\"' !in boundary
  }

  /** The delimiter after a part is the first one found, as it cannot straddle the line end. */
  lemma NextDelimiter(part: string, d: string, more: string)
    requires !Contains(part, d) && |d| >= 2
    requires part != "" && part[|part| - 1] == '\n' && '\n' !in d
    ensures Find(part + d + more, d) == Some(|part|)
  {
    hide Find, Contains;
    var s := part + d + more;
    assert s[|part|..|part| + |d|] == d;
    forall i: nat | i < |part| && OccursAt(s, d, i) ensures false {
      if i + |d| <= |part| {
        assert part[i..i + |d|] == s[i..i + |d|];
        assert OccursAt(part, d, i);
        OccursIsContained(part, d, i);
      } else {
        CharInNeedle(s, d, i, |part| - 1);
      }
    }
    FindIs(s, d, |part|);
  }

  lemma CharInNeedle(h: string, n: string, i: nat, j: nat)
    requires OccursAt(h, n, i) && i <= j < i + |n|
    ensures h[j] in n
  {
    assert h[j] == h[i..i + |n|][j - i];
  }

  lemma OccursIsContained(h: string, n: string, i: nat)
    requires OccursAt(h, n, i)
    ensures Contains(h, n)
  {
  }

  lemma StartFound(d: string, more: string)
    requires |d| >= 2
    ensures Find(d + more, d) == Some(0) && (d + more)[|d|..] == more
  {
  }

  /** The closing delimiter yields no field. */
  lemma ParseClosing(boundary: string)
    requires '\r' !in boundary
    ensures Parse(Form([], boundary), Delimiter(boundary)) == []
  {
    hide FieldOf;
    var d := Delimiter(boundary);
    StartFound(d, "--\r\n");
    if boundary == "" {
      StartFound("--", "\r\n");
      assert d == "--" && "--\r\n" == d + "\r\n";
      assert "--\r\n"[..0] == "" && "--\r\n"[0..] == "--\r\n";
      assert "\r\n"[1..] == "\n";
      NoFieldIn("");
      NoFieldIn("\r\n");
    } else {
      ClosingHasNoDelimiter(boundary);
      NoFieldIn("--\r\n");
    }
  }

  lemma ClosingHasNoDelimiter(boundary: string)
    requires boundary != "" && '\r' !in boundary
    ensures Find("--\r\n", Delimiter(boundary)) == None
  {
    var d := Delimiter(boundary);
    var s := "--\r\n";
    assert d[2] == boundary[0] && boundary[0] in boundary;
    assert d[0] == '-' && d[1] == '-';
    assert s[1..] == "-\r\n" && s[1..][1..] == "\r\n";
  }

  lemma NoFieldIn(part: string)
    requires |part| <= 4 && part != BLANK
    ensures FieldOf(part) == None
  {
    var p := StripPrefix(part, CRLF);
    if |p| == 4 {
      assert p[..4] == p;
    }
  }

  /** Each part read by itself. */
  function ReadEach(fields: seq<Field>): seq<Field> {
    if fields == [] then [] else OneOf(FieldOf(Framed(fields[0]))) + ReadEach(fields[1..])
  }

  lemma {:induction false} ParseForm(fields: seq<Field>, boundary: string)
    requires '\r' !in boundary && '\n' !in boundary
    requires forall i :: 0 <= i < |fields| ==> !Contains(Framed(fields[i]), Delimiter(boundary))
    ensures Parse(Form(fields, boundary), Delimiter(boundary)) == ReadEach(fields)
    decreases |fields|
  {
    hide FieldOf, Framed, Find, Contains, Delimiter;
    var d := Delimiter(boundary);
    if fields == [] {
      ParseClosing(boundary);
    } else {
      var part, more := Framed(fields[0]), Form(fields[1..], boundary);
      FramedEnds(fields[0], boundary);
      var after := FormStarts(fields[1..], boundary);
      assert d + part + more == d + (part + more);
      StartFound(d, part + more);
      assert part + more == part + d + after;
      NextDelimiter(part, d, after);
      assert (part + more)[..|part|] == part && (part + more)[|part|..] == more;
      ParseForm(fields[1..], boundary);
    }
  }

  lemma FramedEnds(f: Field, boundary: string)
    requires '\n' !in boundary
    ensures Framed(f) != "" && Framed(f)[|Framed(f)| - 1] == '\n'
    ensures '\n' !in Delimiter(boundary)
  {
    hide Header;
  }

  lemma FormStarts(fields: seq<Field>, boundary: string) returns (after: string)
    ensures Form(fields, boundary) == Delimiter(boundary) + after
  {
    hide Framed, Delimiter;
    after := Form(fields, boundary)[|Delimiter(boundary)|..];
    if fields != [] {
      assert Delimiter(boundary) + Framed(fields[0]) + Form(fields[1..], boundary)
          == Delimiter(boundary) + (Framed(fields[0]) + Form(fields[1..], boundary));
    }
  }

  lemma {:induction false} ReadEachExactly(fields: seq<Field>)
    ensures |ReadEach(fields)| == |fields|
    ensures ReadEach(fields) == fields <==> forall i :: 0 <= i < |fields| ==> NameFits(fields[i].name)
    decreases |fields|
  {
    hide FieldOf, Framed, NameFits;
    if fields != [] {
      FieldReadBackExactly(fields[0]);
      ReadEachExactly(fields[1..]);
      var r := ReadEach(fields);
      assert r[1..] == ReadEach(fields[1..]) && r == [r[0]] + r[1..] && fields == [fields[0]] + fields[1..];
      assert forall i :: 0 <= i < |fields[1..]| ==> fields[1..][i] == fields[i + 1];
      if forall i :: 0 <= i < |fields[1..]| ==> NameFits(fields[1..][i].name) {
        forall i | 0 < i < |fields| ensures NameFits(fields[i].name) {
          assert fields[i] == fields[1..][i - 1];
        }
      }
    }
  }

  /** With no delimiter inside a framed field, a form is read back exactly when the headers can carry the names;
      values may be anything. */
  lemma RoundTripWhenFramed(fields: seq<Field>, boundary: string)
    requires '\r' !in boundary && '\n' !in boundary
    requires forall i :: 0 <= i < |fields| ==> !Contains(Framed(fields[i]), Delimiter(boundary))
    ensures Parse(Form(fields, boundary), Delimiter(boundary)) == fields
       <==> forall i :: 0 <= i < |fields| ==> NameFits(fields[i].name)
  {
    hide Parse, Form, Framed, Delimiter, NameFits, Contains, ReadEach;
    ParseForm(fields, boundary);
    ReadEachExactly(fields);
  }

  // ----- the delimiter inside a field -----

  lemma {:induction false} QuotesStartIsPart(s: string) returns (a: nat)
    ensures a <= |s| && TrimQuotesStart(s) == s[a..]
  {
    if s != "" && s[0] == '\"' {
      a := QuotesStartIsPart(s[1..]);
      assert s[1..][a..] == s[a + 1..];
      a := a + 1;
    } else {
      a := 0;
    }
  }

  lemma {:induction false} QuotesEndIsPart(s: string) returns (b: nat)
    ensures b <= |s| && TrimQuotesEnd(s) == s[..b]
  {
    if s != "" && s[|s| - 1] == '\"' {
      b := QuotesEndIsPart(s[..|s| - 1]);
      assert s[..|s| - 1][..b] == s[..b];
    } else {
      b := |s|;
    }
  }

  lemma QuotesIsPart(s: string, d: string)
    requires Contains(TrimQuotes(s), d)
    ensures Contains(s, d)
  {
    hide Contains;
    var a := QuotesStartIsPart(s);
    var t := TrimQuotesStart(s);
    var b := QuotesEndIsPart(t);
    assert t[..b] == s[a..a + b];
    PartContains(s, d, a, a + b);
  }

  lemma {:induction false} NameIsPart(headers: string, d: string)
    requires NameIn(headers).Some? && Contains(NameIn(headers).value, d)
    ensures Contains(headers, d)
    decreases |headers|
  {
    hide Contains, TrimQuotes, Trim;
    var k := IndexOf(headers, ';');
    var piece := Trim(headers[..k]);
    if "name=" <= piece {
      QuotesIsPart(piece[5..], d);
      var a, b := TrimIsPart(headers[..k]);
      assert headers[..k][a..b] == headers[a..b] by { SliceOfSlice(headers, 0, k, a, b); }
      assert headers[a..b][5..] == headers[a + 5..b] by { SliceOfSlice(headers, a, b, 5, b - a); }
      PartContains(headers, d, a + 5, b);
    } else {
      NameIsPart(headers[k + 1..], d);
      assert headers[k + 1..] == headers[k + 1..|headers|];
      PartContains(headers, d, k + 1, |headers|);
    }
  }

  /** Name and value of a field stand in its part. */
  lemma FieldIsPart(part: string, d: string)
    requires FieldOf(part).Some? && !Contains(part, d)
    ensures !Contains(FieldOf(part).value.name, d) && !Contains(FieldOf(part).value.value, d)
  {
    hide Contains, NameIn, Find;
    var p := StripPrefix(part, CRLF);
    var h := Find(p, BLANK).value;
    var a := |part| - |p|;
    var f := FieldOf(part).value;
    if Contains(f.name, d) {
      NameIsPart(p[..h], d);
      assert p[..h] == part[a..a + h];
      PartContains(part, d, a, a + h);
    }
    if Contains(f.value, d) {
      assert f.value == part[a + h + 4..a + h + 4 + |f.value|];
      PartContains(part, d, a + h + 4, a + h + 4 + |f.value|);
    }
  }

  /** No field ever parsed contains the delimiter. */
  lemma {:induction false} ParsedAreFree(s: string, d: string, k: nat)
    requires |d| >= 2 && k < |Parse(s, d)|
    ensures !Contains(Parse(s, d)[k].name, d) && !Contains(Parse(s, d)[k].value, d)
    decreases |s|
  {
    hide Contains, FieldOf, Find;
    var rest := s[Find(s, d).value + |d|..];
    match Find(rest, d) {
      case None =>
        FindNone(rest, d);
        FieldIsPart(rest, d);
      case Some(r) =>
        BeforeFirst(rest, d, r);
        var one := OneOf(FieldOf(rest[..r]));
        if k < |one| {
          FieldIsPart(rest[..r], d);
        } else {
          ParsedAreFree(rest[r..], d, k - |one|);
        }
    }
  }

  lemma BeforeFirst(s: string, d: string, r: nat)
    requires d != "" && Find(s, d) == Some(r)
    ensures !Contains(s[..r], d)
  {
    hide Find;
    FindFirst(s, d);
    forall i: nat ensures !OccursAt(s[..r], d, i) {
      if i + |d| <= r {
        SliceOfTake(s, r, i, i + |d|);
        assert OccursAt(s[..r], d, i) ==> OccursAt(s, d, i);
      }
    }
  }

  /** A delimiter in a framed field lies in its name or its value. */
  lemma DelimiterInFramed(f: Field, boundary: string)
    requires PlainBoundary(boundary) && Contains(Framed(f), Delimiter(boundary))
    ensures Contains(f.name, Delimiter(boundary)) || Contains(f.value, Delimiter(boundary))
  {
    hide Contains, OccursAt;
    var d := Delimiter(boundary);
    var s := Framed(f);
    var i := PlaceOf(s, d);
    var n0 := 2 + |LEAD|;
    var n1 := n0 + |f.name|;
    var v0 := n1 + 5;
    var v1 := v0 + |f.value|;
    FramedShape(f);
    FramedEdges(f);
    DelimiterIsPlain(boundary);
    Avoids(s, d, i, 0);
    Avoids(s, d, i, 1);
    Avoids(s, d, i, n0 - 1);
    Avoids(s, d, i, n1);
    Avoids(s, d, i, n1 + 1);
    Avoids(s, d, i, n1 + 2);
    Avoids(s, d, i, n1 + 3);
    Avoids(s, d, i, n1 + 4);
    Avoids(s, d, i, v1);
    Avoids(s, d, i, v1 + 1);
    if i + |d| <= n0 - 1 {
      NoDashesInLead(f, d, i);
    } else if i < n1 {
      Inside(s, d, i, n0, n1);
    } else {
      Inside(s, d, i, v0, v1);
    }
  }

  lemma PlaceOf(s: string, d: string) returns (i: nat)
    requires Contains(s, d)
    ensures OccursAt(s, d, i) && i + |d| <= |s|
  {
    i :| OccursAt(s, d, i);
  }

  lemma Peel(s: string, off: nat, p: string, r: string)
    requires off <= |s| && s[off..] == p + r
    ensures off + |p| <= |s| && s[off..off + |p|] == p && s[off + |p|..] == r
  {
    TakeOfDrop(s, off, |p|);
    DropOfDrop(s, off, |p|);
    assert (p + r)[..|p|] == p && (p + r)[|p|..] == r;
  }

  lemma Nested(a: string, b: string, c: string, d: string, e: string, f: string)
    ensures a + (b + c + d) + e + f == a + (b + (c + (d + (e + f))))
  {
    assert b + c + d + (e + f) == b + (c + (d + (e + f)));
    assert a + (b + c + d) + e + f == a + (b + c + d + (e + f));
  }

  lemma HeaderParts(name: string)
    ensures Header(name) == LEAD + name + ("\"" + BLANK)
  {
  }

  lemma FramedShape(f: Field)
    ensures var s := Framed(f);
            var n0, n1 := 2 + |LEAD|, 2 + |LEAD| + |f.name|;
            var v0, v1 := n1 + 5, n1 + 5 + |f.value|;
            && |s| == v1 + 2 && s[n0..n1] == f.name && s[v0..v1] == f.value && s[2..n0] == LEAD
            && s[0..2] == CRLF && s[n1..v0] == "\"" + BLANK && s[v1..v1 + 2] == CRLF
  {
    var s := Framed(f);
    assert s == CRLF + Header(f.name) + f.value + CRLF;
    hide Framed, Header;
    HeaderParts(f.name);
    PeelAll(s, CRLF, LEAD, f.name, "\"" + BLANK, f.value, CRLF);
  }

  /** Six parts one behind the other, from the front. */
  lemma PeelAll(s: string, a: string, b: string, c: string, d: string, e: string, f: string)
    requires s == a + (b + c + d) + e + f
    ensures var i, j, k, l := |a| + |b|, |a| + |b| + |c|, |a| + |b| + |c| + |d|, |a| + |b| + |c| + |d| + |e|;
            && |s| == l + |f|
            && s[0..|a|] == a && s[|a|..i] == b && s[i..j] == c && s[j..k] == d && s[k..l] == e && s[l..l + |f|] == f
  {
    Nested(a, b, c, d, e, f);
    assert s[0..] == s;
    Peel(s, 0, a, b + (c + (d + (e + f))));
    Peel(s, |a|, b, c + (d + (e + f)));
    Peel(s, |a| + |b|, c, d + (e + f));
    Peel(s, |a| + |b| + |c|, d, e + f);
    Peel(s, |a| + |b| + |c| + |d|, e, f);
    assert f + "" == f;
    Peel(s, |a| + |b| + |c| + |d| + |e|, f, "");
  }

  /** The characters around the parts. */
  lemma FramedEdges(f: Field)
    ensures var s := Framed(f);
            var n0, n1 := 2 + |LEAD|, 2 + |LEAD| + |f.name|;
            var v1 := n1 + 5 + |f.value|;
            && |s| == v1 + 2
            && s[0] == '\r' && s[1] == '\n' && s[n0 - 1] == '\"' && s[n1] == '\"'
            && s[n1 + 1] == '\r' && s[n1 + 2] == '\n' && s[n1 + 3] == '\r' && s[n1 + 4] == '\n'
            && s[v1] == '\r' && s[v1 + 1] == '\n'
  {
    hide Framed;
    FramedShape(f);
    var s := Framed(f);
    var n0, n1 := 2 + |LEAD|, 2 + |LEAD| + |f.name|;
    var v1 := n1 + 5 + |f.value|;
    var quote := s[n1..n1 + 5];
    assert s[0] == s[0..2][0] && s[1] == s[0..2][1] && s[n0 - 1] == s[2..n0][|LEAD| - 1];
    assert s[n1] == quote[0] && s[n1 + 1] == quote[1] && s[n1 + 2] == quote[2] && s[n1 + 3] == quote[3] && s[n1 + 4] == quote[4];
    assert s[v1] == s[v1..v1 + 2][0] && s[v1 + 1] == s[v1..v1 + 2][1];
  }

  lemma DelimiterIsPlain(boundary: string)
    requires PlainBoundary(boundary)
    ensures var d := Delimiter(boundary); '\r' !in d && '\n' !in d && '\"' !in d && d[0] == '-' && d[1] == '-'
  {
  }

  lemma Avoids(s: string, d: string, i: nat, j: nat)
    requires OccursAt(s, d, i) && j < |s| && s[j] !in d
    ensures j < i || i + |d| <= j
  {
    if i <= j < i + |d| {
      CharInNeedle(s, d, i, j);
    }
  }

  lemma NoDashesInLead(f: Field, d: string, i: nat)
    requires OccursAt(Framed(f), d, i) && |d| >= 2 && d[0] == '-' && d[1] == '-' && 2 <= i
    ensures i + |d| > 1 + |LEAD|
  {
    hide Framed;
    var s := Framed(f);
    FramedShape(f);
    assert s[i] == s[i..i + |d|][0] && s[i + 1] == s[i..i + |d|][1];
    if i + 1 < 2 + |LEAD| {
      assert s[2..2 + |LEAD|][i - 2] == s[i] && s[2..2 + |LEAD|][i - 1] == s[i + 1];
      DashesApart(i - 2);
    }
  }

  lemma DashesApart(k: nat)
    requires k + 1 < |LEAD|
    ensures !(LEAD[k] == '-' && LEAD[k + 1] == '-')
  {
  }

  lemma Inside(s: string, d: string, i: nat, a: nat, b: nat)
    requires OccursAt(s, d, i) && a <= i && i + |d| <= b <= |s|
    ensures Contains(s[a..b], d)
  {
    var j: nat := i - a;
    SliceOfSlice(s, a, b, j, j + |d|);
    assert OccursAt(s[a..b], d, j);
  }

  lemma FramedContains(f: Field, d: string)
    requires Contains(f.name, d) || Contains(f.value, d)
    ensures Contains(Framed(f), d)
  {
    hide Contains, Framed;
    FramedShape(f);
    var s := Framed(f);
    var n0, n1 := 2 + |LEAD|, 2 + |LEAD| + |f.name|;
    if Contains(f.name, d) {
      PartContains(s, d, n0, n1);
    } else {
      PartContains(s, d, n1 + 5, n1 + 5 + |f.value|);
    }
  }

  /** A field that survives a form with this boundary. */
  ghost predicate Survives(f: Field, boundary: string) {
    NameFits(f.name) && !Contains(f.name, Delimiter(boundary)) && !Contains(f.value, Delimiter(boundary))
  }

  /** A form is read back exactly when every name fits the header and no name or value contains the delimiter. */
  lemma RoundTripExactly(fields: seq<Field>, boundary: string)
    requires PlainBoundary(boundary)
    ensures Parse(Form(fields, boundary), Delimiter(boundary)) == fields
       <==> forall i :: 0 <= i < |fields| ==> Survives(fields[i], boundary)
  {
    hide Parse, Form, Framed, Delimiter, NameFits, Contains;
    var d := Delimiter(boundary);
    var parsed := Parse(Form(fields, boundary), d);
    forall i | 0 <= i < |fields| ensures Contains(Framed(fields[i]), d) <==> Contains(fields[i].name, d) || Contains(fields[i].value, d) {
      if Contains(Framed(fields[i]), d) {
        DelimiterInFramed(fields[i], boundary);
      } else if Contains(fields[i].name, d) || Contains(fields[i].value, d) {
        FramedContains(fields[i], d);
      }
    }
    if parsed == fields {
      forall i | 0 <= i < |fields| ensures !Contains(fields[i].name, d) && !Contains(fields[i].value, d) {
        ParsedAreFree(Form(fields, boundary), d, i);
      }
      RoundTripWhenFramed(fields, boundary);
    } else if forall i :: 0 <= i < |fields| ==> Survives(fields[i], boundary) {
      RoundTripWhenFramed(fields, boundary);
    }
  }
}
