/** Message heads: header fields, the typed lookups the engine makes, and the text of a head.

    Concrete stand-ins for the parts of the `http`, `headers` and `httparse` crates that the engine
    relies on. */
module Head {
  import opened Bytes

  datatype Version = Http09 | Http10 | Http11 | Http2 | Http3

  datatype Field = Field(name: bytes, value: bytes)
  type Headers = seq<Field>

  datatype ParseError = ConnectionClosed | Io | Invalid | IncompleteRequest | InvalidTransferEncoding | InvalidHeader

  const MAX_FIELDS: nat := 64

  const CONNECTION: bytes := Ascii("connection")
  const CONTENT_LENGTH: bytes := Ascii("content-length")
  const TRANSFER_ENCODING: bytes := Ascii("transfer-encoding")
  const EXPECT: bytes := Ascii("expect")
  const DATE: bytes := Ascii("date")
  const HOST: bytes := Ascii("host")
  const CLOSE: bytes := Ascii("close")
  const KEEP_ALIVE: bytes := Ascii("keep-alive")
  const CHUNKED: bytes := Ascii("chunked")
  const CONTINUE: bytes := Ascii("100-continue")

  // ----- HeaderMap -----

  function Values(hs: Headers, name: bytes): seq<bytes>
  {
    if hs == [] then []
    else (if hs[0].name == name then [hs[0].value] else []) + Values(hs[1..], name)
  }

  function Remove(hs: Headers, name: bytes): Headers
  {
    if hs == [] then []
    else (if hs[0].name == name then [] else [hs[0]]) + Remove(hs[1..], name)
  }

  /** `HeaderMap::insert`: replaces every value of the name, or adds the field. */
  function Set(hs: Headers, name: bytes, value: bytes): Headers
  {
    if hs == [] then [Field(name, value)]
    else if hs[0].name == name then [Field(name, value)] + Remove(hs[1..], name)
    else [hs[0]] + Set(hs[1..], name, value)
  }

  lemma {:induction false} ValuesOfRemove(hs: Headers, name: bytes, other: bytes)
    ensures Values(Remove(hs, name), other) == if other == name then [] else Values(hs, other)
  {
    if hs != [] {
      ValuesOfRemove(hs[1..], name, other);
      var r := Remove(hs[1..], name);
      assert ([hs[0]] + r)[1..] == r;
      assert [] + r == r;
    }
  }

  lemma {:induction false} ValuesOfSet(hs: Headers, name: bytes, value: bytes, other: bytes)
    ensures Values(Set(hs, name, value), other) == if other == name then [value] else Values(hs, other)
  {
    if hs == [] {
      assert [Field(name, value)][1..] == [];
    } else if hs[0].name == name {
      ValuesOfRemove(hs[1..], name, other);
      var r := Remove(hs[1..], name);
      assert ([Field(name, value)] + r)[1..] == r;
    } else {
      ValuesOfSet(hs[1..], name, value, other);
      var r := Set(hs[1..], name, value);
      assert ([hs[0]] + r)[1..] == r;
    }
  }

  // ----- typed lookups -----

  /** Whether a comma separated list has the member `token`. */
  function ListHas(list: bytes, token: bytes): bool
    decreases |list|
  {
    var i := IndexOf(list, COMMA);
    Trim(list[..i]) == token || (i < |list| && ListHas(list[i + 1..], token))
  }

  lemma ListHasItself(token: bytes)
    requires COMMA !in token && Trimmed(token)
    ensures ListHas(token, token)
  {
    IndexOfAt(token, COMMA, []);
    TrimSpaced(token);
    assert token[..|token|] == token;
  }

  predicate HasOption(hs: Headers, token: bytes)
  {
    exists i :: 0 <= i < |Values(hs, CONNECTION)| && ListHas(Values(hs, CONNECTION)[i], token)
  }

  /** `TransferEncoding::is_chunked`, and None when the field is absent. */
  function Coding(hs: Headers): Option<bool>
  {
    var vs := Values(hs, TRANSFER_ENCODING);
    if vs == [] then None else Some(Trim(vs[0][..IndexOf(vs[0], COMMA)]) == CHUNKED)
  }

  datatype Declared = Absent | Malformed | Length(n: nat)

  /** `Content-Length`: repeated values must agree. */
  function DeclaredLength(hs: Headers): (d: Declared)
    ensures d.Length? ==> d.n <= U64_MAX
  {
    var vs := Values(hs, CONTENT_LENGTH);
    if vs == [] then Absent
    else if ParseDecimal(vs[0]).Some? && forall i :: 0 <= i < |vs| ==> ParseDecimal(vs[i]) == ParseDecimal(vs[0])
    then Length(ParseDecimal(vs[0]).value)
    else Malformed
  }

  predicate ExpectsContinue(hs: Headers)
  {
    Values(hs, EXPECT) == [CONTINUE]
  }

  lemma LookupsAfterSet(hs: Headers, name: bytes, value: bytes)
    ensures name != CONNECTION ==> forall t :: HasOption(Set(hs, name, value), t) == HasOption(hs, t)
    ensures name != TRANSFER_ENCODING ==> Coding(Set(hs, name, value)) == Coding(hs)
    ensures name != CONTENT_LENGTH ==> DeclaredLength(Set(hs, name, value)) == DeclaredLength(hs)
  {
    ValuesOfSet(hs, name, value, CONNECTION);
    ValuesOfSet(hs, name, value, TRANSFER_ENCODING);
    ValuesOfSet(hs, name, value, CONTENT_LENGTH);
  }

  lemma LookupsAfterRemove(hs: Headers, name: bytes)
    ensures name != CONNECTION ==> forall t :: HasOption(Remove(hs, name), t) == HasOption(hs, t)
    ensures Coding(Remove(hs, name)) == if name == TRANSFER_ENCODING then None else Coding(hs)
    ensures name != CONTENT_LENGTH ==> DeclaredLength(Remove(hs, name)) == DeclaredLength(hs)
  {
    ValuesOfRemove(hs, name, CONNECTION);
    ValuesOfRemove(hs, name, TRANSFER_ENCODING);
    ValuesOfRemove(hs, name, CONTENT_LENGTH);
  }

  lemma SetLength(hs: Headers, n: nat)
    requires n <= U64_MAX
    ensures DeclaredLength(Set(hs, CONTENT_LENGTH, Numeral(n, 10))) == Length(n)
  {
    ValuesOfSet(hs, CONTENT_LENGTH, Numeral(n, 10), CONTENT_LENGTH);
    DecimalRoundTrip(n);
  }

  lemma SetChunked(hs: Headers)
    ensures Coding(Set(hs, TRANSFER_ENCODING, CHUNKED)) == Some(true)
  {
    ValuesOfSet(hs, TRANSFER_ENCODING, CHUNKED, TRANSFER_ENCODING);
    assert COMMA !in CHUNKED;
    IndexOfAt(CHUNKED, COMMA, []);
    TrimSpaced(CHUNKED);
    assert CHUNKED[..|CHUNKED|] == CHUNKED;
  }

  lemma SetClose(hs: Headers)
    ensures HasOption(Set(hs, CONNECTION, CLOSE), CLOSE)
  {
    ValuesOfSet(hs, CONNECTION, CLOSE, CONNECTION);
    assert COMMA !in CLOSE;
    ListHasItself(CLOSE);
    assert Values(Set(hs, CONNECTION, CLOSE), CONNECTION)[0] == CLOSE;
  }

  // ----- the text of a head -----

  /** `HTTP/1.1` and its like. */
  function VersionText(v: Version): (s: bytes)
    ensures |s| == 8
  {
    var major := if v.Http2? then 50 else if v.Http3? then 51 else if v.Http09? then 48 else 49;
    var minor := if v.Http09? then 57 else if v.Http11? then 49 else 48;
    [72, 84, 84, 80, 47, major, 46, minor]
  }

  function FieldLine(f: Field): bytes { f.name + [COLON, SP] + f.value + CRLF }

  function FieldLines(hs: Headers): bytes
  {
    if hs == [] then [] else FieldLine(hs[0]) + FieldLines(hs[1..])
  }

  lemma {:induction false} FieldLinesAppend(a: Headers, f: Field)
    ensures FieldLines(a + [f]) == FieldLines(a) + FieldLine(f)
  {
    if a == [] {
      assert FieldLines([f]) == FieldLine(f) + FieldLines([]);
    } else {
      assert (a + [f])[1..] == a[1..] + [f];
      FieldLinesAppend(a[1..], f);
    }
  }

  function RequestLine(method_: bytes, target: bytes, version: Version): bytes
  {
    method_ + [SP] + target + [SP] + VersionText(version) + CRLF
  }

  function StatusLine(version: Version, code: nat, reason: bytes): bytes
  {
    VersionText(version) + [SP] + Numeral(code, 10) + [SP] + reason + CRLF
  }

  // ----- well-formedness -----

  predicate TokenByte(b: byte)
  {
    48 <= b <= 57 || 65 <= b <= 90 || 94 <= b <= 122 || b == 33 || 35 <= b <= 39
    || b == 42 || b == 43 || b == 45 || b == 46 || b == 124 || b == 126
  }

  predicate Token(s: bytes)
  {
    s != [] && forall i :: 0 <= i < |s| ==> TokenByte(s[i])
  }

  predicate VisibleByte(b: byte) { 33 <= b <= 126 }

  predicate Target(s: bytes)
  {
    s != [] && forall i :: 0 <= i < |s| ==> VisibleByte(s[i])
  }

  predicate ValueByte(b: byte) { b == HT || 32 <= b <= 126 || 128 <= b }

  predicate Text(s: bytes)
  {
    forall i :: 0 <= i < |s| ==> ValueByte(s[i])
  }

  function LowerByte(b: byte): byte { if 65 <= b <= 90 then b + 32 else b }

  function Lower(s: bytes): bytes { seq(|s|, i requires 0 <= i < |s| => LowerByte(s[i])) }

  predicate GoodField(f: Field)
  {
    && Token(f.name) && Lower(f.name) == f.name
    && Text(f.value) && Trimmed(f.value)
  }

  predicate GoodFields(hs: Headers)
  {
    |hs| <= MAX_FIELDS && forall i :: 0 <= i < |hs| ==> GoodField(hs[i])
  }

  // ----- reading a head -----

  predicate EndsHead(buf: bytes)
  {
    || (|buf| >= 4 && buf[|buf| - 4..] == [CR, LF, CR, LF])
    || (|buf| >= 2 && buf[|buf| - 2..] == [LF, LF])
  }

  /** Where the head scan, having read `s[..i]`, stops. */
  function HeadEnd(s: bytes, i: nat): (e: nat)
    requires i <= |s|
    ensures i <= e <= |s|
    ensures i < |s| ==> i < e
    decreases |s| - i
  {
    var n := LineLen(s[i..]);
    if n == 0 then i
    else if EndsHead(s[..i + n]) then i + n
    else HeadEnd(s, i + n)
  }

  function SkipEmptyLines(s: bytes): bytes
  {
    if |s| >= 2 && s[0] == CR && s[1] == LF then SkipEmptyLines(s[2..])
    else if |s| >= 1 && s[0] == LF then SkipEmptyLines(s[1..])
    else s
  }

  function StripEol(line: bytes): bytes
  {
    var a := if line != [] && line[|line| - 1] == LF then line[..|line| - 1] else line;
    if a != [] && a[|a| - 1] == CR then a[..|a| - 1] else a
  }

  function ParseField(line: bytes): Option<Field>
  {
    var i := IndexOf(line, COLON);
    if i < |line| && Token(line[..i]) && Text(Trim(line[i + 1..]))
    then Some(Field(Lower(line[..i]), Trim(line[i + 1..])))
    else None
  }

  /** The fields up to the empty line. A head cut short gives the fields that were complete. */
  function ParseFields(s: bytes, room: nat): Result<Headers, ParseError>
    decreases |s|
  {
    var n := LineLen(s);
    if n == 0 || s[n - 1] != LF || StripEol(s[..n]) == [] then Ok([])
    else if room == 0 then Err(Invalid)
    else
      match ParseField(StripEol(s[..n]))
      case None => Err(Invalid)
      case Some(f) =>
        match ParseFields(s[n..], room - 1)
        case Ok(fs) => Ok([f] + fs)
        case Err(e) => Err(e)
  }

  function ParseVersion(s: bytes): Option<Version>
  {
    if s == VersionText(Http11) then Some(Http11)
    else if s == VersionText(Http10) then Some(Http10)
    else None
  }

  datatype RequestHead = RequestHead(verb: bytes, target: bytes, version: Version, headers: Headers)
  datatype ResponseHead = ResponseHead(code: nat, version: Version, headers: Headers)

  /** The error for a start line: malformed, or cut before it was complete. */
  function StartError(line: bytes): ParseError
  {
    if line != [] && line[|line| - 1] == LF then Invalid else IncompleteRequest
  }

  function ParseRequestLine(line: bytes): Option<RequestHead>
  {
    var i := IndexOf(line, SP);
    if i == |line| then None
    else
      var rest := line[i + 1..];
      var j := IndexOf(rest, SP);
      if j == |rest| || !Token(line[..i]) || !Target(rest[..j]) then None
      else
        match ParseVersion(rest[j + 1..])
        case None => None
        case Some(v) => Some(RequestHead(line[..i], rest[..j], v, []))
  }

  function ParseRequestHead(buf: bytes): Result<RequestHead, ParseError>
  {
    var s := SkipEmptyLines(buf);
    var n := LineLen(s);
    match ParseRequestLine(StripEol(s[..n]))
    case None => Err(StartError(s[..n]))
    case Some(start) =>
      match ParseFields(s[n..], MAX_FIELDS)
      case Ok(fs) => Ok(start.(headers := fs))
      case Err(e) => Err(e)
  }

  function ParseStatusLine(line: bytes): Option<ResponseHead>
  {
    if |line| < 12 || line[8] != SP || !AllDigits(line[9..12], 10) then None
    else if |line| > 12 && (line[12] != SP || !Text(line[13..])) then None
    else
      match ParseVersion(line[..8])
      case None => None
      case Some(v) =>
        var code := Value(line[9..12], 10);
        if code < 100 then None else Some(ResponseHead(code, v, []))
  }

  function ParseResponseHead(buf: bytes): Result<ResponseHead, ParseError>
  {
    var s := SkipEmptyLines(buf);
    var n := LineLen(s);
    match ParseStatusLine(StripEol(s[..n]))
    case None => Err(StartError(s[..n]))
    case Some(start) =>
      match ParseFields(s[n..], MAX_FIELDS)
      case Ok(fs) => Ok(start.(headers := fs))
      case Err(e) => Err(e)
  }

  // ----- reading back what was written -----

  /** A line of a head other than the empty one. */
  predicate HeadLine(line: bytes)
  {
    |line| >= 3 && line[|line| - 1] == LF && LF !in line[..|line| - 1]
  }

  lemma StripHeadLine(text: bytes)
    requires LF !in text
    ensures StripEol(text + CRLF) == text
  {
    assert (text + CRLF)[..|text| + 1] == text + [CR];
    assert (text + [CR])[..|text|] == text;
  }

  lemma HeadLineLen(line: bytes, s: bytes)
    requires HeadLine(line) && line <= s
    ensures LineLen(s) == |line| && s[..|line|] == line && line[|line| - 1] == LF
  {
    assert forall k :: 0 <= k < |line| - 1 ==> line[k] == line[..|line| - 1][k];
    LineLenOfLine(line, s[|line|..]);
    assert s == line + s[|line|..];
  }

  lemma HeadLineIsNotLast(buf: bytes, line: bytes)
    requires HeadLine(line) && |line| <= |buf| && buf[|buf| - |line|..] == line
    ensures !EndsHead(buf)
  {
    var d := |buf| - |line|;
    assert buf[d..][|line| - 3] == buf[|buf| - 3] && buf[d..][|line| - 2] == buf[|buf| - 2];
    assert line[|line| - 3] == line[..|line| - 1][|line| - 3];
    assert line[|line| - 2] == line[..|line| - 1][|line| - 2];
    assert |buf| >= 4 ==> buf[|buf| - 4..][1] == buf[|buf| - 3];
    assert buf[|buf| - 2..][0] == buf[|buf| - 2];
  }

  /** The scan goes on after a line other than the empty one. */
  lemma MiddleLine(s: bytes, i: nat, line: bytes)
    requires HeadLine(line) && i <= |s| && line <= s[i..]
    ensures HeadEnd(s, i) == HeadEnd(s, i + |line|)
  {
    hide EndsHead;
    HeadLineLen(line, s[i..]);
    assert s[..i + |line|][i..] == line;
    HeadLineIsNotLast(s[..i + |line|], line);
  }

  lemma LastLine(s: bytes, i: nat)
    requires 2 <= i <= |s| && s[i - 2..i] == CRLF && CRLF <= s[i..]
    ensures HeadEnd(s, i) == i + 2
  {
    assert s[i..] == CRLF + s[i + 2..];
    LineLenOfLine(CRLF, s[i + 2..]);
    var buf := s[..i + 2];
    assert s[i - 2] == s[i - 2..i][0] && s[i - 1] == s[i - 2..i][1];
    assert s[i] == s[i..][0] && s[i + 1] == s[i..][1];
    assert buf[|buf| - 4..] == [CR, LF, CR, LF];
  }

  lemma ReadField(f: Field)
    requires GoodField(f)
    ensures ParseField(f.name + [COLON, SP] + f.value) == Some(f)
  {
    var text := f.name + [COLON] + ([SP] + f.value);
    assert forall k :: 0 <= k < |f.name| ==> TokenByte(f.name[k]);
    IndexOfAt(f.name, COLON, [SP] + f.value);
    assert f.name + [COLON, SP] + f.value == text;
    assert text[..|f.name|] == f.name && text[|f.name| + 1..] == [SP] + f.value;
    TrimSpaced(f.value);
  }

  lemma FieldLineIsHeadLine(f: Field)
    requires GoodField(f)
    ensures HeadLine(FieldLine(f)) && FieldLine(f)[|FieldLine(f)| - 2..] == CRLF
    ensures StripEol(FieldLine(f)) == f.name + [COLON, SP] + f.value
    ensures ParseField(f.name + [COLON, SP] + f.value) == Some(f)
  {
    hide HeadLine, ParseField;
    var text := f.name + [COLON, SP] + f.value;
    assert forall k :: 0 <= k < |f.name| ==> TokenByte(f.name[k]);
    assert forall k :: 0 <= k < |f.value| ==> ValueByte(f.value[k]);
    assert LF !in text;
    TextIsHeadLine(text);
    ReadField(f);
  }

  /** A head with more than 64 fields is refused. */
  lemma {:induction false} TooManyFields(hs: Headers, more: bytes, room: nat)
    requires |hs| > room && forall i :: 0 <= i < |hs| ==> GoodField(hs[i])
    ensures ParseFields(FieldLines(hs) + more, room) == Err(Invalid)
    decreases hs
  {
    hide ParseFields, GoodField, FieldLine;
    var rest := FieldLines(hs[1..]) + more;
    assert FieldLines(hs) + more == FieldLine(hs[0]) + rest;
    ParseFieldsStep(hs[0], rest, room);
    if room > 0 { TooManyFields(hs[1..], more, room - 1); }
  }

  lemma {:induction false} HeadEndOfFields(s: bytes, i: nat, hs: Headers)
    requires 2 <= i <= |s| && s[i - 2..i] == CRLF
    requires FieldLines(hs) + CRLF <= s[i..]
    requires forall k :: 0 <= k < |hs| ==> GoodField(hs[k])
    ensures HeadEnd(s, i) == i + |FieldLines(hs)| + 2
    decreases hs
  {
    hide HeadEnd;
    if hs == [] {
      assert FieldLines(hs) + CRLF == CRLF;
      LastLine(s, i);
    } else {
      var line, more := FieldLine(hs[0]), FieldLines(hs[1..]) + CRLF;
      FieldLineIsHeadLine(hs[0]);
      assert FieldLines(hs) + CRLF == line + more;
      PastLine(s, i, line, more);
      HeadEndOfFields(s, i + |line|, hs[1..]);
    }
  }

  lemma PastLine(s: bytes, i: nat, line: bytes, more: bytes)
    requires i <= |s| && HeadLine(line) && line[|line| - 2..] == CRLF && line + more <= s[i..]
    ensures var k := i + |line|;
            && 2 <= k <= |s| && s[k - 2..k] == CRLF && more <= s[k..]
            && HeadEnd(s, i) == HeadEnd(s, k)
  {
    hide HeadEnd;
    assert line == (line + more)[..|line|] == s[i..][..|line|];
    assert more == (line + more)[|line|..] == s[i + |line|..][..|more|];
    assert s[i + |line| - 2..i + |line|] == line[|line| - 2..];
    MiddleLine(s, i, line);
  }

  lemma {:induction false} ParseWrittenFields(hs: Headers, more: bytes, room: nat)
    requires |hs| <= room && forall i :: 0 <= i < |hs| ==> GoodField(hs[i])
    ensures ParseFields(FieldLines(hs) + CRLF + more, room) == Ok(hs)
    decreases hs
  {
    hide ParseFields;
    if hs == [] {
      assert FieldLines(hs) + CRLF + more == CRLF + more;
      ParseFieldsEnd(more, room);
    } else {
      var rest := FieldLines(hs[1..]) + CRLF + more;
      assert FieldLines(hs) + CRLF + more == FieldLine(hs[0]) + rest;
      ParseWrittenFields(hs[1..], more, room - 1);
      ParseFieldsStep(hs[0], rest, room);
      assert hs == [hs[0]] + hs[1..];
    }
  }

  lemma ParseFieldsEnd(more: bytes, room: nat)
    ensures ParseFields(CRLF + more, room) == Ok([])
  {
    LineLenOfLine(CRLF, more);
    assert CRLF == [] + CRLF;
    StripHeadLine([]);
  }

  lemma ParseFieldsStep(f: Field, more: bytes, room: nat)
    requires GoodField(f)
    ensures ParseFields(FieldLine(f) + more, room) ==
              if room == 0 then Err(Invalid)
              else
                match ParseFields(more, room - 1)
                case Ok(fs) => Ok([f] + fs)
                case Err(e) => Err(e)
  {
    hide GoodField, ParseField, StripEol, FieldLine;
    var line := FieldLine(f);
    FieldLineIsHeadLine(f);
    HeadLineLen(line, line + more);
    assert (line + more)[|line|..] == more;
  }

  // ----- a head cut short -----

  /** How many field lines are complete within the first `k` bytes. */
  function WholeFields(hs: Headers, k: nat): (n: nat)
    ensures n <= |hs|
  {
    if hs == [] || k < |FieldLine(hs[0])| then 0 else 1 + WholeFields(hs[1..], k - |FieldLine(hs[0])|)
  }

  lemma ParseCutLine(s: bytes, room: nat)
    requires LF !in s
    ensures ParseFields(s, room) == Ok([])
  {
    LineLenAt(s, []);
  }

  lemma HeadEndOfCutLine(s: bytes, i: nat)
    requires i <= |s| && LF !in s[i..]
    ensures HeadEnd(s, i) == |s|
  {
    LineLenAt(s[i..], []);
  }

  lemma HeadLineCut(line: bytes, k: nat)
    requires HeadLine(line) && k < |line|
    ensures LF !in line[..k]
  {
    assert line[..k] == line[..|line| - 1][..k];
  }

  /** The lines behind a start line, cut: the first one whole, or a part of it. */
  lemma CutLines(hs: Headers, k: nat)
    requires k < |FieldLines(hs) + CRLF| && forall i :: 0 <= i < |hs| ==> GoodField(hs[i])
    ensures var cut := (FieldLines(hs) + CRLF)[..k];
            if hs == [] || k < |FieldLine(hs[0])| then LF !in cut
            else HeadLine(FieldLine(hs[0])) && cut == FieldLine(hs[0]) + (FieldLines(hs[1..]) + CRLF)[..k - |FieldLine(hs[0])|]
  {
    hide FieldLine, GoodField, HeadLine;
    var lines := FieldLines(hs) + CRLF;
    if hs == [] {
      assert lines == CRLF;
    } else {
      var line, more := FieldLine(hs[0]), FieldLines(hs[1..]) + CRLF;
      FieldLineIsHeadLine(hs[0]);
      assert lines == line + more;
      if k < |line| {
        HeadLineCut(line, k);
        assert lines[..k] == line[..k];
      } else {
        assert (line + more)[..k] == line + more[..k - |line|];
      }
    }
  }

  /** Fields cut at any byte parse as the fields whose lines are complete. */
  lemma {:induction false} ParseCutFields(hs: Headers, room: nat, k: nat)
    requires |hs| <= room && forall i :: 0 <= i < |hs| ==> GoodField(hs[i])
    requires k < |FieldLines(hs) + CRLF|
    ensures ParseFields((FieldLines(hs) + CRLF)[..k], room) == Ok(hs[..WholeFields(hs, k)])
    decreases hs
  {
    hide ParseFields, FieldLine, GoodField, HeadLine;
    CutLines(hs, k);
    if hs == [] || k < |FieldLine(hs[0])| {
      ParseCutLine((FieldLines(hs) + CRLF)[..k], room);
    } else {
      var left := k - |FieldLine(hs[0])|;
      ParseCutFields(hs[1..], room - 1, left);
      ParseFieldsStep(hs[0], (FieldLines(hs[1..]) + CRLF)[..left], room);
      assert [hs[0]] + hs[1..][..WholeFields(hs[1..], left)] == hs[..WholeFields(hs, k)];
    }
  }

  lemma {:induction false} HeadEndOfCutFields(s: bytes, i: nat, hs: Headers, k: nat)
    requires i <= |s| && forall j :: 0 <= j < |hs| ==> GoodField(hs[j])
    requires k < |FieldLines(hs) + CRLF| && s[i..] == (FieldLines(hs) + CRLF)[..k]
    ensures HeadEnd(s, i) == |s|
    decreases hs
  {
    hide HeadEnd, FieldLine, GoodField, HeadLine;
    CutLines(hs, k);
    if hs == [] || k < |FieldLine(hs[0])| {
      HeadEndOfCutLine(s, i);
    } else {
      var line, left := FieldLine(hs[0]), k - |FieldLine(hs[0])|;
      MiddleLine(s, i, line);
      assert s[i + |line|..] == s[i..][|line|..];
      HeadEndOfCutFields(s, i + |line|, hs[1..], left);
    }
  }

  /** The empty line that a chunked message may have left in front of a head. */
  predicate IsLead(lead: bytes) { lead == [] || lead == CRLF }

  /** A head, as written: its start line, its fields and the empty line. */
  function HeadText(start: bytes, hs: Headers): bytes { start + (FieldLines(hs) + CRLF) }

  /** The scan stops at the end of the head, whatever follows and with or without a left over
      empty line in front. */
  lemma HeadEndOfHead(lead: bytes, start: bytes, hs: Headers, r: bytes)
    requires IsLead(lead) && HeadLine(start) && start[|start| - 2..] == CRLF
    requires forall i :: 0 <= i < |hs| ==> GoodField(hs[i])
    ensures HeadEnd(lead + HeadText(start, hs) + r, 0) == |lead| + |HeadText(start, hs)|
  {
    hide HeadEnd;
    var s := lead + HeadText(start, hs) + r;
    var i := |lead| + |start|;
    HeadStart(s, lead, start, FieldLines(hs) + CRLF, r);
    SkipLeadInScan(lead, s);
    MiddleLine(s, |lead|, start);
    HeadEndOfFields(s, i, hs);
  }

  lemma HeadStart(s: bytes, lead: bytes, start: bytes, rest: bytes, r: bytes)
    requires HeadLine(start) && start[|start| - 2..] == CRLF && s == lead + (start + rest) + r
    ensures var i := |lead| + |start|;
            lead <= s && start <= s[|lead|..] && rest <= s[i..] && s[i - 2..i] == CRLF
  {
    var i := |lead| + |start|;
    assert s[|lead|..] == start + (rest + r);
    assert s[i..] == rest + r;
    assert s[i - 2..i] == start[|start| - 2..];
  }

  lemma SkipLeadInScan(lead: bytes, s: bytes)
    requires IsLead(lead) && lead <= s
    ensures HeadEnd(s, 0) == HeadEnd(s, |lead|)
  {
    if lead == CRLF {
      assert s[0..] == s == CRLF + s[2..];
      LineLenOfLine(CRLF, s[2..]);
    }
  }

  lemma SkipLead(lead: bytes, s: bytes)
    requires IsLead(lead) && s != [] && s[0] != CR && s[0] != LF
    ensures SkipEmptyLines(lead + s) == s
  {
    if lead == CRLF { assert (lead + s)[2..] == s; } else { assert lead + s == s; }
  }

  lemma TextIsHeadLine(text: bytes)
    requires LF !in text && |text| >= 3
    ensures HeadLine(text + CRLF) && (text + CRLF)[|text|..] == CRLF && StripEol(text + CRLF) == text
  {
    StripHeadLine(text);
    var line := text + CRLF;
    assert line[..|line| - 1] == text + [CR];
    assert line[|line| - 2..] == CRLF;
  }

  lemma VersionRoundTrip(v: Version)
    requires v.Http10? || v.Http11?
    ensures ParseVersion(VersionText(v)) == Some(v)
    ensures LF !in VersionText(v) && SP !in VersionText(v)
  {
    assert VersionText(Http10)[7] != VersionText(Http11)[7];
  }

  lemma SplitAtSpace(a: bytes, b: bytes)
    requires SP !in a
    ensures var s := a + [SP] + b;
            IndexOf(s, SP) == |a| && s[..|a|] == a && s[|a| + 1..] == b
  {
    IndexOfAt(a, SP, b);
  }

  lemma RequestTextParses(verb: bytes, target: bytes, v: Version)
    requires Token(verb) && Target(target) && (v.Http10? || v.Http11?)
    ensures ParseRequestLine(verb + [SP] + (target + [SP] + VersionText(v)))
         == Some(RequestHead(verb, target, v, []))
  {
    SplitAtSpace(verb, target + [SP] + VersionText(v));
    SplitAtSpace(target, VersionText(v));
    VersionRoundTrip(v);
  }

  lemma RequestTextBytes(verb: bytes, target: bytes, v: Version)
    requires Token(verb) && Target(target) && (v.Http10? || v.Http11?)
    ensures var text := verb + [SP] + (target + [SP] + VersionText(v));
            && LF !in text && CR !in text && HeadLine(text + CRLF)
            && RequestLine(verb, target, v) == text + CRLF
  {
    var text := verb + [SP] + (target + [SP] + VersionText(v));
    VersionRoundTrip(v);
    assert CR !in VersionText(v);
    TextIsHeadLine(text);
  }

  lemma RequestLineParses(verb: bytes, target: bytes, v: Version)
    requires Token(verb) && Target(target) && (v.Http10? || v.Http11?)
    ensures var line := RequestLine(verb, target, v);
            && HeadLine(line) && line[|line| - 2..] == CRLF && line[0] != CR && line[0] != LF
            && ParseRequestLine(StripEol(line)) == Some(RequestHead(verb, target, v, []))
  {
    hide HeadLine, ParseRequestLine;
    RequestTextBytes(verb, target, v);
    StripHeadLine(verb + [SP] + (target + [SP] + VersionText(v)));
    assert TokenByte(verb[0]);
    RequestTextParses(verb, target, v);
  }

  lemma StatusTextParses(v: Version, code: nat, reason: bytes)
    requires Text(reason) && 100 <= code <= 999 && (v.Http10? || v.Http11?)
    ensures var text := VersionText(v) + [SP] + Numeral(code, 10) + [SP] + reason;
            LF !in text && ParseStatusLine(text) == Some(ResponseHead(code, v, []))
  {
    var digits := Numeral(code, 10);
    CodeLength(code);
    NumeralValue(code, 10);
    VersionRoundTrip(v);
    var text := VersionText(v) + [SP] + digits + [SP] + reason;
    assert forall k :: 0 <= k < |digits| ==> IsDigit(digits[k], 10);
    assert text[..8] == VersionText(v) && text[9..12] == digits && text[13..] == reason;
  }

  lemma StatusLineParses(v: Version, code: nat, reason: bytes)
    requires Text(reason) && 100 <= code <= 999 && (v.Http10? || v.Http11?)
    ensures var line := StatusLine(v, code, reason);
            && HeadLine(line) && line[|line| - 2..] == CRLF && line[0] != CR && line[0] != LF
            && ParseStatusLine(StripEol(line)) == Some(ResponseHead(code, v, []))
  {
    StatusTextParses(v, code, reason);
    TextIsHeadLine(VersionText(v) + [SP] + Numeral(code, 10) + [SP] + reason);
  }

  lemma FirstLineOfHead(lead: bytes, start: bytes, hs: Headers)
    requires IsLead(lead) && HeadLine(start) && start[0] != CR && start[0] != LF
    requires GoodFields(hs)
    ensures var s := SkipEmptyLines(lead + HeadText(start, hs));
            s[..LineLen(s)] == start && ParseFields(s[LineLen(s)..], MAX_FIELDS) == Ok(hs)
  {
    var fields := FieldLines(hs) + CRLF;
    SkipLead(lead, start + fields);
    HeadLineLen(start, start + fields);
    ParseWrittenFields(hs, [], MAX_FIELDS);
    assert fields + [] == fields;
    assert (start + fields)[|start|..] == fields;
  }

  /** A written request head is read back, with or without a left over empty line in front. */
  lemma RequestHeadRoundTrip(lead: bytes, h: RequestHead)
    requires IsLead(lead) && Token(h.verb) && Target(h.target) && GoodFields(h.headers)
    requires h.version.Http10? || h.version.Http11?
    ensures ParseRequestHead(lead + HeadText(RequestLine(h.verb, h.target, h.version), h.headers)) == Ok(h)
  {
    RequestLineParses(h.verb, h.target, h.version);
    FirstLineOfHead(lead, RequestLine(h.verb, h.target, h.version), h.headers);
  }

  lemma ResponseHeadRoundTrip(lead: bytes, h: ResponseHead, reason: bytes)
    requires IsLead(lead) && Text(reason) && 100 <= h.code <= 999 && GoodFields(h.headers)
    requires h.version.Http10? || h.version.Http11?
    ensures ParseResponseHead(lead + HeadText(StatusLine(h.version, h.code, reason), h.headers)) == Ok(h)
  {
    StatusLineParses(h.version, h.code, reason);
    FirstLineOfHead(lead, StatusLine(h.version, h.code, reason), h.headers);
  }

  // ----- a head cut short -----

  /** The scan of a head cut at any byte takes all of it. */
  lemma HeadEndOfCut(start: bytes, hs: Headers, k: nat)
    requires HeadLine(start) && GoodFields(hs) && k < |HeadText(start, hs)|
    ensures HeadEnd(HeadText(start, hs)[..k], 0) == k
  {
    hide HeadEnd, GoodField, FieldLines;
    var s := HeadText(start, hs)[..k];
    assert s[0..] == s;
    if k < |start| {
      HeadLineCut(start, k);
      assert s == start[..k];
      HeadEndOfCutLine(s, 0);
    } else {
      assert s[|start|..] == (FieldLines(hs) + CRLF)[..k - |start|];
      MiddleLine(s, 0, start);
      HeadEndOfCutFields(s, |start|, hs, k - |start|);
    }
  }

  /** How many bytes of the fields are left by a cut at `k` behind a start line of `n` bytes. */
  function Behind(n: nat, k: nat): nat { if k < n then 0 else k - n }

  lemma StripCut(text: bytes, k: nat)
    requires LF !in text && CR !in text && k < |text| + 2
    ensures StripEol((text + CRLF)[..k]) == text[..Min(k, |text|)]
    ensures LF !in (text + CRLF)[..k]
  {
    var s := (text + CRLF)[..k];
    if k <= |text| {
      assert s == text[..k];
      assert s != [] ==> s[k - 1] in text;
    } else {
      assert s == text + [CR];
      assert s[..|text|] == text == text[..|text|];
    }
  }

  lemma FirstLineOfCut(text: bytes, hs: Headers, k: nat)
    requires text != [] && LF !in text && CR !in text && HeadLine(text + CRLF) && GoodFields(hs)
    requires 0 < k < |HeadText(text + CRLF, hs)|
    ensures var s := HeadText(text + CRLF, hs)[..k];
            var n := LineLen(s);
            && SkipEmptyLines(s) == s && 0 < n <= |s|
            && StripEol(s[..n]) == text[..Min(k, |text|)]
            && ParseFields(s[n..], MAX_FIELDS) == Ok(hs[..WholeFields(hs, Behind(|text| + 2, k))])
            && (k < |text| + 2 ==> s[n - 1] != LF)
  {
    hide ParseFields, GoodField, FieldLines;
    var start := text + CRLF;
    var s := HeadText(start, hs)[..k];
    assert s[0] == text[0];
    if k < |start| {
      StripCut(text, k);
      assert s == start[..k] == s[..k];
      LineLenAt(s, []);
      ParseCutLine([], MAX_FIELDS);
      assert s[k..] == [] && s[k - 1] in s;
    } else {
      assert s[|start|..] == (FieldLines(hs) + CRLF)[..k - |start|];
      HeadLineLen(start, s);
      StripHeadLine(text);
      ParseCutFields(hs, MAX_FIELDS, k - |start|);
    }
  }

  lemma CutRequestText(verb: bytes, target: bytes, v: Version, k: nat)
    requires Token(verb) && Target(target) && k < |verb| + |target| + 10
    ensures ParseRequestLine((verb + [SP] + (target + [SP] + VersionText(v)))[..k]) == None
  {
    var text := verb + [SP] + (target + [SP] + VersionText(v));
    if k <= |verb| {
      assert text[..k] == verb[..k];
      IndexOfAt(verb[..k], SP, []);
    } else {
      var rest, m := target + [SP] + VersionText(v), k - |verb| - 1;
      assert text[..k] == verb + [SP] + rest[..m];
      SplitAtSpace(verb, rest[..m]);
      if m <= |target| {
        assert rest[..m] == target[..m];
        IndexOfAt(target[..m], SP, []);
      } else {
        assert rest[..m] == target + [SP] + VersionText(v)[..m - |target| - 1];
        SplitAtSpace(target, VersionText(v)[..m - |target| - 1]);
      }
    }
  }

  /** A request head cut at any byte behind its first is parsed once the start line lacks no more
      than its line end, with the fields whose lines are complete. */
  lemma ParseCutRequest(h: RequestHead, k: nat)
    requires Token(h.verb) && Target(h.target) && GoodFields(h.headers) && (h.version.Http10? || h.version.Http11?)
    requires 0 < k < |HeadText(RequestLine(h.verb, h.target, h.version), h.headers)|
    ensures var line := RequestLine(h.verb, h.target, h.version);
            ParseRequestHead(HeadText(line, h.headers)[..k])
            == if k < |line| - 2 then Err(IncompleteRequest)
               else Ok(h.(headers := h.headers[..WholeFields(h.headers, Behind(|line|, k))]))
  {
    hide ParseFields, GoodField, ParseRequestLine, SkipEmptyLines, HeadText, HeadLine, StripEol;
    var text := h.verb + [SP] + (h.target + [SP] + VersionText(h.version));
    RequestTextBytes(h.verb, h.target, h.version);
    FirstLineOfCut(text, h.headers, k);
    if k < |text| {
      CutRequestText(h.verb, h.target, h.version, k);
    } else {
      assert text[..|text|] == text;
      RequestTextParses(h.verb, h.target, h.version);
    }
  }

  lemma CutBehind(a: bytes, b: bytes, k: nat)
    requires |a| <= k <= |a| + |b|
    ensures (a + b)[..k][|a|..] == b[..k - |a|]
  {
  }

  lemma CutStatusText(v: Version, code: nat, reason: bytes, k: nat)
    requires Text(reason) && 100 <= code <= 999 && (v.Http10? || v.Http11?)
    requires k <= |reason| + 13
    ensures var text := VersionText(v) + [SP] + Numeral(code, 10) + [SP] + reason;
            && |text| == |reason| + 13 && LF !in text && CR !in text && HeadLine(text + CRLF)
            && ParseStatusLine(text[..k]) == if k < 12 then None else Some(ResponseHead(code, v, []))
  {
    var digits := Numeral(code, 10);
    CodeLength(code);
    StatusTextParses(v, code, reason);
    assert forall i :: 0 <= i < |digits| ==> IsDigit(digits[i], 10);
    var text := VersionText(v) + [SP] + digits + [SP] + reason;
    TextIsHeadLine(text);
    if k >= 12 {
      assert text[..k][..8] == text[..8] && text[..k][9..12] == text[9..12] == digits;
      if k > 12 { CutBehind(VersionText(v) + [SP] + digits + [SP], reason, k); }
      NumeralValue(code, 10);
      VersionRoundTrip(v);
      assert text[..8] == VersionText(v);
    }
  }

  /** A response head cut at any byte is parsed once it has the status code. */
  lemma ParseCutResponse(h: ResponseHead, reason: bytes, k: nat)
    requires Text(reason) && 100 <= h.code <= 999 && GoodFields(h.headers) && (h.version.Http10? || h.version.Http11?)
    requires 0 < k < |HeadText(StatusLine(h.version, h.code, reason), h.headers)|
    ensures var line := StatusLine(h.version, h.code, reason);
            ParseResponseHead(HeadText(line, h.headers)[..k])
            == if k < 12 then Err(IncompleteRequest)
               else Ok(h.(headers := h.headers[..WholeFields(h.headers, Behind(|line|, k))]))
  {
    hide ParseFields, GoodField, ParseStatusLine, SkipEmptyLines, HeadText, HeadLine, StripEol;
    var text := VersionText(h.version) + [SP] + Numeral(h.code, 10) + [SP] + reason;
    assert StatusLine(h.version, h.code, reason) == text + CRLF;
    CodeLength(h.code);
    CutStatusText(h.version, h.code, reason, Min(k, |text|));
    FirstLineOfCut(text, h.headers, k);
  }
}
