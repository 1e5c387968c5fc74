/** Heads as another implementation may write them: field names in any case, any blanks around the
    values, lines that end in a line feed alone, and empty lines in front. */
module Peers {
  import opened Bytes
  import opened Head
  import opened Lookups
  import opened Framing
  import opened Requests
  import opened Responses

  // ----- fields -----

  datatype PeerField = PeerField(name: bytes, before: bytes, value: bytes, after: bytes, end: bytes)

  predicate IsEnd(end: bytes) { end == CRLF || end == [LF] }

  /** The same letters, those of the first in either case. */
  predicate SameName(a: bytes, b: bytes)
  {
    |a| == |b| && forall i :: 0 <= i < |a| ==> a[i] == b[i] || (65 <= a[i] <= 90 && b[i] == a[i] + 32)
  }

  predicate NoUpperCase(s: bytes)
  {
    forall i :: 0 <= i < |s| ==> !(65 <= s[i] <= 90)
  }

  /** `p` is a way to write the field `f`. */
  predicate Spells(p: PeerField, f: Field)
  {
    && Token(p.name) && SameName(p.name, f.name) && NoUpperCase(f.name)
    && p.value == f.value && Text(f.value) && Trimmed(f.value)
    && AllBlank(p.before) && AllBlank(p.after) && IsEnd(p.end)
  }

  predicate SpellsAll(ps: seq<PeerField>, hs: Headers)
  {
    |ps| == |hs| <= MAX_FIELDS && forall i :: 0 <= i < |ps| ==> Spells(ps[i], hs[i])
  }

  function PeerText(p: PeerField): bytes { p.name + [COLON] + (p.before + p.value + p.after) }

  function PeerLine(p: PeerField): bytes { PeerText(p) + p.end }

  function PeerLines(ps: seq<PeerField>): bytes
  {
    if ps == [] then [] else PeerLine(ps[0]) + PeerLines(ps[1..])
  }

  lemma SpelledName(a: bytes, b: bytes)
    requires SameName(a, b) && NoUpperCase(b)
    ensures Lower(a) == b
  {
  }

  lemma PeerFieldParses(p: PeerField, f: Field)
    requires Spells(p, f)
    ensures ParseField(PeerText(p)) == Some(f)
  {
    var padded := p.before + p.value + p.after;
    assert forall k :: 0 <= k < |p.name| ==> TokenByte(p.name[k]);
    IndexOfAt(p.name, COLON, padded);
    assert PeerText(p)[..|p.name|] == p.name && PeerText(p)[|p.name| + 1..] == padded;
    TrimPadded(p.before, p.value, p.after);
    SpelledName(p.name, f.name);
  }

  predicate PlainByte(b: byte) { b != LF && b != CR }

  predicate Plain(s: bytes) { forall i :: 0 <= i < |s| ==> PlainByte(s[i]) }

  lemma PeerTextIsPlain(p: PeerField, f: Field)
    requires Spells(p, f)
    ensures Plain(PeerText(p)) && |PeerText(p)| >= 2
  {
    assert forall k :: 0 <= k < |p.name| ==> TokenByte(p.name[k]);
    assert forall k :: 0 <= k < |p.value| ==> ValueByte(p.value[k]);
    assert Plain(p.name) && Plain(p.before) && Plain(p.value) && Plain(p.after);
  }

  /** A line with either end. */
  lemma EndedLine(text: bytes, end: bytes)
    requires Plain(text) && |text| >= 2 && IsEnd(end)
    ensures HeadLine(text + end) && StripEol(text + end) == text
    ensures end == [LF] ==> (text + end)[|text + end| - 2] != CR
  {
    var line := text + end;
    if end == CRLF {
      assert line[..|line| - 1] == text + [CR];
      assert (text + [CR])[..|text|] == text;
    } else {
      assert line[..|line| - 1] == text;
      assert PlainByte(text[|text| - 1]);
    }
    assert forall k :: 0 <= k < |text| ==> PlainByte(text[k]);
  }

  /** Fields written in any such way parse to the same fields, whatever follows the empty line. */
  lemma {:induction false} PeerFieldsParse(ps: seq<PeerField>, hs: Headers, close: bytes, more: bytes, room: nat)
    requires |ps| == |hs| <= room && forall i :: 0 <= i < |ps| ==> Spells(ps[i], hs[i])
    requires IsEnd(close)
    ensures ParseFields(PeerLines(ps) + close + more, room) == Ok(hs)
    decreases ps
  {
    hide ParseFields, Spells;
    if ps == [] {
      assert PeerLines(ps) + close + more == close + more;
      EmptyLineEnds(close, more, room);
    } else {
      var rest := PeerLines(ps[1..]) + close + more;
      assert PeerLines(ps) + close + more == PeerLine(ps[0]) + rest;
      PeerFieldsParse(ps[1..], hs[1..], close, more, room - 1);
      PeerStep(ps[0], hs[0], rest, room);
      assert hs == [hs[0]] + hs[1..];
    }
  }

  lemma EmptyLineEnds(close: bytes, more: bytes, room: nat)
    requires IsEnd(close)
    ensures ParseFields(close + more, room) == Ok([])
  {
    LineLenOfLine(close, more);
    assert StripEol(close) == [];
  }

  lemma PeerStep(p: PeerField, f: Field, more: bytes, room: nat)
    requires Spells(p, f) && room > 0 && ParseFields(more, room - 1).Ok?
    ensures ParseFields(PeerLine(p) + more, room) == Ok([f] + ParseFields(more, room - 1).value)
  {
    hide Spells, PeerText, HeadLine, StripEol, ParseField;
    PeerTextIsPlain(p, f);
    PeerEnd(p, f);
    EndedLine(PeerText(p), p.end);
    PeerFieldParses(p, f);
    HeadLineLen(PeerLine(p), PeerLine(p) + more);
    assert (PeerLine(p) + more)[|PeerLine(p)|..] == more;
  }

  lemma PeerEnd(p: PeerField, f: Field)
    requires Spells(p, f)
    ensures IsEnd(p.end)
  {
  }

  // ----- the end of the head -----

  /** How the last line in front of the empty one ends. */
  function LastEnd(end: bytes, ps: seq<PeerField>): bytes
  {
    if ps == [] then end else ps[|ps| - 1].end
  }

  /** The scan knows an empty line by its end and that of the line before: CRLF must follow CRLF. */
  predicate Closes(last: bytes, close: bytes) { close == [LF] || last == CRLF }

  /** `i` is behind a line that ends in `end`. */
  predicate BehindLine(s: bytes, i: nat, end: bytes)
  {
    && 2 <= i <= |s| && IsEnd(end) && s[i - 1] == LF
    && (if end == CRLF then s[i - 2] == CR else PlainByte(s[i - 2]))
  }

  lemma ScanOneLine(s: bytes, i: nat, line: bytes)
    requires i <= |s| && IsEnd(line) && line <= s[i..]
    ensures i + |line| <= |s|
    ensures HeadEnd(s, i) == if EndsHead(s[..i + |line|]) then i + |line| else HeadEnd(s, i + |line|)
  {
    assert s[i..] == line + s[i..][|line|..];
    LineLenOfLine(line, s[i..][|line|..]);
  }

  lemma ClosesMeans(before: bytes, end: bytes, close: bytes)
    requires BehindLine(before, |before|, end) && IsEnd(close)
    ensures EndsHead(before + close) <==> Closes(end, close)
  {
    var buf, n := before + close, |before|;
    if close == CRLF {
      assert buf[|buf| - 4..] == [before[n - 2], before[n - 1], CR, LF];
      assert buf[|buf| - 2..] == [CR, LF];
    } else {
      assert buf[|buf| - 2..] == [before[n - 1], LF];
    }
  }

  lemma ScanEmptyLine(s: bytes, i: nat, end: bytes, close: bytes)
    requires BehindLine(s, i, end) && IsEnd(close) && close <= s[i..]
    ensures i + |close| <= |s|
    ensures HeadEnd(s, i) == if Closes(end, close) then i + |close| else HeadEnd(s, i + |close|)
  {
    hide HeadEnd, EndsHead, Closes;
    ScanOneLine(s, i, close);
    ClosesMeans(s[..i], end, close);
    assert s[..i + |close|] == s[..i] + close;
  }

  /** Whether and where the scan stops behind the lines of a head. */
  lemma {:induction false} ScanPeerLines(s: bytes, i: nat, end: bytes, ps: seq<PeerField>, hs: Headers, close: bytes)
    requires BehindLine(s, i, end) && IsEnd(close) && PeerLines(ps) + close <= s[i..]
    requires |ps| == |hs| && forall k :: 0 <= k < |ps| ==> Spells(ps[k], hs[k])
    ensures var e := i + |PeerLines(ps) + close|;
            e <= |s| && HeadEnd(s, i) == if Closes(LastEnd(end, ps), close) then e else HeadEnd(s, e)
    decreases ps
  {
    hide HeadEnd, Spells, PeerLine;
    if ps == [] {
      assert PeerLines(ps) + close == close;
      ScanEmptyLine(s, i, end, close);
    } else {
      var line, more := PeerLine(ps[0]), PeerLines(ps[1..]) + close;
      assert PeerLines(ps) + close == line + more;
      ScanPeerLine(s, i, ps[0], hs[0], more);
      ScanPeerLines(s, i + |line|, ps[0].end, ps[1..], hs[1..], close);
    }
  }

  lemma ScanPeerLine(s: bytes, i: nat, p: PeerField, f: Field, more: bytes)
    requires i <= |s| && Spells(p, f) && PeerLine(p) + more <= s[i..]
    ensures var k := i + |PeerLine(p)|;
            && k <= |s| && BehindLine(s, k, p.end) && more <= s[k..] && HeadEnd(s, i) == HeadEnd(s, k)
  {
    hide HeadEnd, Spells, PeerText;
    PeerTextIsPlain(p, f);
    PeerEnd(p, f);
    PastEndedLine(s, i, PeerText(p), p.end, more);
  }

  lemma PastEndedLine(s: bytes, i: nat, text: bytes, end: bytes, more: bytes)
    requires i <= |s| && Plain(text) && |text| >= 2 && IsEnd(end) && text + end + more <= s[i..]
    ensures var k := i + |text + end|;
            && k <= |s| && BehindLine(s, k, end) && more <= s[k..] && HeadEnd(s, i) == HeadEnd(s, k)
  {
    hide HeadEnd;
    var line := text + end;
    EndedLine(text, end);
    assert line == (line + more)[..|line|] == s[i..][..|line|];
    assert more == (line + more)[|line|..] == s[i + |line|..][..|more|];
    assert s[i + |line| - 1] == line[|line| - 1] && s[i + |line| - 2] == line[|line| - 2];
    assert PlainByte(text[|text| - 1]);
    MiddleLine(s, i, line);
  }

  // ----- whole heads -----

  /** Empty lines in front of a head that the scan does not take for its end. */
  predicate PeerLead(lead: bytes)
  {
    lead == [] || lead == [LF] || lead == CRLF || lead == [LF] + CRLF
  }

  function PeerHead(text: bytes, end: bytes, ps: seq<PeerField>, close: bytes): bytes
  {
    text + end + (PeerLines(ps) + close)
  }

  lemma ScanLead(lead: bytes, s: bytes)
    requires PeerLead(lead) && lead <= s
    ensures HeadEnd(s, 0) == HeadEnd(s, |lead|)
  {
    hide HeadEnd;
    if lead == CRLF {
      SkipLeadInScan(lead, s);
    } else if lead != [] {
      ScanLineFeed(s);
      if lead != [LF] {
        assert s[1..3] == lead[1..3] == CRLF;
        assert s[..3] == lead;
        ScanCrlf(s);
      }
    }
  }

  lemma ScanLineFeed(s: bytes)
    requires [LF] <= s
    ensures HeadEnd(s, 0) == HeadEnd(s, 1)
  {
    hide HeadEnd;
    assert s[0..] == s && s[..0 + |[LF]|] == [LF];
    ScanOneLine(s, 0, [LF]);
  }

  lemma ScanCrlf(s: bytes)
    requires |s| >= 3 && s[..3] == [LF] + CRLF && s[1..3] == CRLF
    ensures HeadEnd(s, 1) == HeadEnd(s, 3)
  {
    hide HeadEnd;
    assert s[1..][..2] == CRLF;
    ScanOneLine(s, 1, CRLF);
    assert ([LF] + CRLF)[1..] == [CR, LF];
  }

  lemma SkipEmptyLine(line: bytes, s: bytes)
    requires IsEnd(line)
    ensures SkipEmptyLines(line + s) == SkipEmptyLines(s)
  {
    assert (line + s)[|line|..] == s;
  }

  lemma SkipPeerLead(lead: bytes, s: bytes)
    requires PeerLead(lead)
    ensures SkipEmptyLines(lead + s) == SkipEmptyLines(s)
  {
    hide SkipEmptyLines;
    if lead == [] {
      assert lead + s == s;
    } else if lead == [LF] + CRLF {
      assert lead + s == [LF] + (CRLF + s);
      SkipEmptyLine(CRLF, s);
      SkipEmptyLine([LF], CRLF + s);
    } else {
      SkipEmptyLine(lead, s);
    }
  }

  lemma ScanPeerHead(lead: bytes, text: bytes, end: bytes, ps: seq<PeerField>, hs: Headers, close: bytes, rest: bytes)
    requires PeerLead(lead) && Plain(text) && |text| >= 2 && IsEnd(end) && SpellsAll(ps, hs) && IsEnd(close)
    ensures var head := lead + PeerHead(text, end, ps, close);
            HeadEnd(head + rest, 0) == if Closes(LastEnd(end, ps), close) then |head| else HeadEnd(head + rest, |head|)
  {
    hide HeadEnd, Spells, PeerLines, Closes, LastEnd, Plain, IsEnd, BehindLine;
    var more := PeerLines(ps) + close;
    var s := lead + PeerHead(text, end, ps, close) + rest;
    ScanLead(lead, s);
    assert s[|lead|..] == text + end + more + rest;
    PastEndedLine(s, |lead|, text, end, more);
    ScanPeerLines(s, |lead| + |text + end|, end, ps, hs, close);
  }

  lemma PeerFirstLine(lead: bytes, text: bytes, end: bytes, ps: seq<PeerField>, hs: Headers, close: bytes, more: bytes)
    requires PeerLead(lead) && Plain(text) && |text| >= 2 && IsEnd(end) && SpellsAll(ps, hs) && IsEnd(close)
    ensures var s := SkipEmptyLines(lead + PeerHead(text, end, ps, close) + more);
            && StripEol(s[..LineLen(s)]) == text
            && ParseFields(s[LineLen(s)..], MAX_FIELDS) == Ok(hs)
  {
    hide ParseFields, Spells, PeerLines, IsEnd, HeadLine, StripEol;
    var s := text + end + (PeerLines(ps) + close + more);
    assert lead + PeerHead(text, end, ps, close) + more == lead + s;
    assert s[0] == text[0];
    SkipPeerLead(lead, s);
    EndedLine(text, end);
    HeadLineLen(text + end, s);
    assert s[|text + end|..] == PeerLines(ps) + close + more;
    PeerFieldsParse(ps, hs, close, more, MAX_FIELDS);
  }

  /** Where the head of a message ends for the parser: behind the empty line; or, if that is not
      recognized, somewhere in what follows. */
  function SeenEnd(head: bytes, rest: bytes, closes: bool): (e: nat)
    ensures |head| <= e <= |head + rest|
    ensures e == |head| <==> closes || rest == []
  {
    if closes then |head| else HeadEnd(head + rest, |head|)
  }

  function StartText(h: RequestHead): bytes { h.verb + [SP] + (h.target + [SP] + VersionText(h.version)) }

  lemma StartTextIsPlain(h: RequestHead)
    requires Token(h.verb) && Target(h.target) && (h.version.Http10? || h.version.Http11?)
    ensures Plain(StartText(h)) && |StartText(h)| >= 2
    ensures ParseRequestLine(StartText(h)) == Some(h.(headers := []))
  {
    RequestTextBytes(h.verb, h.target, h.version);
    RequestTextParses(h.verb, h.target, h.version);
  }

  /** A request is parsed by what its head says, in whatever way that is written. The one thing that
      matters is whether the empty line is recognized: CRLF behind a line that ends in a line feed
      alone is not, and the head then takes bytes of the body. */
  lemma PeerRequest(lead: bytes, h: RequestHead, end: bytes, ps: seq<PeerField>, close: bytes, rest: bytes)
    requires PeerLead(lead) && Token(h.verb) && Target(h.target) && (h.version.Http10? || h.version.Http11?)
    requires SpellsAll(ps, h.headers) && IsEnd(end) && IsEnd(close)
    ensures var head := lead + PeerHead(StartText(h), end, ps, close);
            var e := SeenEnd(head, rest, Closes(LastEnd(end, ps), close));
            && (e == |head| ==> (head + rest)[e..] == rest)
            && ParseRequest(head + rest) ==
                 match RequestFraming(h.headers)
                 case Err(error) => Err(error)
                 case Ok(f) => if CutShort(f, (head + rest)[e..]) then Err(Io) else Ok(Parsed(h, f, e))
  {
    hide HeadEnd, SpellsAll, RequestFraming, CutShort, ParseFields, PeerHead, StartText, Closes, LastEnd, Plain;
    var head := lead + PeerHead(StartText(h), end, ps, close);
    var e := SeenEnd(head, rest, Closes(LastEnd(end, ps), close));
    StartTextIsPlain(h);
    ScanPeerHead(lead, StartText(h), end, ps, h.headers, close, rest);
    var more := (head + rest)[|head|..e];
    assert (head + rest)[..e] == head + more;
    PeerFirstLine(lead, StartText(h), end, ps, h.headers, close, more);
    PeerHeadNotEmpty(lead, StartText(h), end, ps, close);
  }

  lemma PeerHeadNotEmpty(lead: bytes, text: bytes, end: bytes, ps: seq<PeerField>, close: bytes)
    requires |text| >= 2
    ensures |lead + PeerHead(text, end, ps, close)| > 0
  {
  }

  function StatusText(h: ResponseHead, reason: bytes): bytes
  {
    VersionText(h.version) + [SP] + Numeral(h.code, 10) + [SP] + reason
  }

  lemma StatusTextIsPlain(h: ResponseHead, reason: bytes)
    requires Text(reason) && 100 <= h.code <= 999 && (h.version.Http10? || h.version.Http11?)
    ensures Plain(StatusText(h, reason)) && |StatusText(h, reason)| >= 2
    ensures ParseStatusLine(StatusText(h, reason)) == Some(h.(headers := []))
  {
    CutStatusText(h.version, h.code, reason, 0);
    StatusTextParses(h.version, h.code, reason);
  }

  /** The same for a response. */
  lemma PeerResponse(lead: bytes, h: ResponseHead, reason: bytes, end: bytes, ps: seq<PeerField>, close: bytes,
                     rest: bytes)
    requires PeerLead(lead) && Text(reason) && 100 <= h.code <= 999 && (h.version.Http10? || h.version.Http11?)
    requires SpellsAll(ps, h.headers) && IsEnd(end) && IsEnd(close)
    ensures var head := lead + PeerHead(StatusText(h, reason), end, ps, close);
            var e := SeenEnd(head, rest, Closes(LastEnd(end, ps), close));
            && (e == |head| ==> (head + rest)[e..] == rest)
            && ParseResponse(head + rest) ==
                 match ResponseFraming(h.headers)
                 case Err(error) => Err(error)
                 case Ok(f) => if CutShort(f, (head + rest)[e..]) then Err(Io) else Ok(Parsed(h, f, e))
  {
    hide HeadEnd, SpellsAll, ResponseFraming, CutShort, ParseFields, PeerHead, StatusText, Closes, LastEnd, Plain;
    var head := lead + PeerHead(StatusText(h, reason), end, ps, close);
    var e := SeenEnd(head, rest, Closes(LastEnd(end, ps), close));
    StatusTextIsPlain(h, reason);
    ScanPeerHead(lead, StatusText(h, reason), end, ps, h.headers, close, rest);
    var more := (head + rest)[|head|..e];
    assert (head + rest)[..e] == head + more;
    PeerFirstLine(lead, StatusText(h, reason), end, ps, h.headers, close, more);
    PeerHeadNotEmpty(lead, StatusText(h, reason), end, ps, close);
  }

  // ----- more empty lines -----

  /** One more empty line in front ends the head before it begins: the request is refused. */
  lemma TooManyEmptyLines(lead: bytes, line: bytes, s: bytes)
    requires PeerLead(lead) && IsEnd(line) && !PeerLead(lead + line)
    ensures ParseRequest(lead + line + s) == Err(IncompleteRequest)
  {
    hide HeadEnd, SkipEmptyLines, EndsHead, PeerLead, IsEnd;
    var all := lead + line + s;
    ScanLead(lead, all);
    assert all[|lead|..] == line + s;
    ScanOneLine(all, |lead|, line);
    assert all[..|lead| + |line|] == lead + line;
    EmptyLinesEnd(lead, line);
    OnlyEmptyLines(lead, line);
    NothingToParse(lead + line);
  }

  lemma NothingToParse(buf: bytes)
    requires SkipEmptyLines(buf) == []
    ensures ParseRequestHead(buf) == Err(IncompleteRequest)
  {
    hide SkipEmptyLines;
    assert IndexOf([], SP) == 0;
  }

  lemma EmptyLinesEnd(lead: bytes, line: bytes)
    requires PeerLead(lead) && IsEnd(line) && !PeerLead(lead + line)
    ensures EndsHead(lead + line)
  {
    var buf := lead + line;
    assert lead == [] ==> buf == line;
    assert lead == [LF] && line == CRLF ==> buf == [LF] + CRLF;
    if line == [LF] {
      assert buf[|buf| - 2..] == [buf[|buf| - 2], LF];
    } else {
      assert buf[|buf| - 4..] == lead[|lead| - 2..] + CRLF;
    }
  }

  lemma OnlyEmptyLines(lead: bytes, line: bytes)
    requires PeerLead(lead) && IsEnd(line)
    ensures SkipEmptyLines(lead + line) == []
  {
    SkipPeerLead(lead, line);
    SkipEmptyLine(line, []);
    assert line + [] == line;
  }

  // ----- whatever is accepted -----

  lemma TrimIsTrimmed(s: bytes)
    ensures Trimmed(Trim(s))
  {
    var a := TrimLeftSplits(s);
    var b := TrimRightSplits(TrimLeft(s));
    assert Trim(s) != [] ==> Trim(s)[0] == TrimLeft(s)[0];
  }

  lemma AcceptedField(line: bytes)
    requires ParseField(line).Some?
    ensures GoodField(ParseField(line).value)
  {
    var i := IndexOf(line, COLON);
    TrimIsTrimmed(line[i + 1..]);
    var name := line[..i];
    forall k | 0 <= k < |name|
      ensures TokenByte(Lower(name)[k])
    {
      assert TokenByte(name[k]);
    }
  }

  lemma {:induction false} AcceptedFields(s: bytes, room: nat)
    requires ParseFields(s, room).Ok?
    ensures var hs := ParseFields(s, room).value;
            |hs| <= room && forall i :: 0 <= i < |hs| ==> GoodField(hs[i])
    decreases |s|
  {
    hide ParseField, GoodField, StripEol;
    var n := LineLen(s);
    if n != 0 && s[n - 1] == LF && StripEol(s[..n]) != [] {
      AcceptedField(StripEol(s[..n]));
      AcceptedFields(s[n..], room - 1);
    }
  }

  /** A request is accepted only with a method and a target in the proper bytes, a version the code
      knows, at most 64 well-formed fields and a framing; and written again, its head is read back. */
  lemma AcceptedRequest(s: bytes)
    requires ParseRequest(s).Ok?
    ensures var p := ParseRequest(s).value;
            && Token(p.head.verb) && Target(p.head.target) && (p.head.version.Http10? || p.head.version.Http11?)
            && |p.head.headers| <= 64 && GoodFields(p.head.headers) && RequestFraming(p.head.headers) == Ok(p.framing)
            && ParseRequestHead(RequestText(p.head, p.head.headers)) == Ok(p.head)
  {
    hide HeadEnd, ParseFields, GoodField, Token, Target, SkipEmptyLines, RequestFraming;
    var h, e := ParseRequest(s).value.head, HeadEnd(s, 0);
    var lines := SkipEmptyLines(s[..e]);
    AcceptedFields(lines[LineLen(lines)..], MAX_FIELDS);
    AcceptedStart(StripEol(lines[..LineLen(lines)]));
    RequestHeadRoundTrip([], h);
    assert [] + RequestText(h, h.headers) == RequestText(h, h.headers);
  }

  lemma AcceptedStart(line: bytes)
    requires ParseRequestLine(line).Some?
    ensures var h := ParseRequestLine(line).value;
            Token(h.verb) && Target(h.target) && (h.version.Http10? || h.version.Http11?)
  {
  }

  /** The same for a response, with any reason phrase. */
  lemma AcceptedResponse(s: bytes, reason: bytes)
    requires ParseResponse(s).Ok? && Text(reason)
    ensures var p := ParseResponse(s).value;
            && 100 <= p.head.code <= 999 && (p.head.version.Http10? || p.head.version.Http11?)
            && |p.head.headers| <= 64 && GoodFields(p.head.headers) && ResponseFraming(p.head.headers) == Ok(p.framing)
            && var line := StatusLine(p.head.version, p.head.code, reason);
            && ParseResponseHead(HeadText(line, p.head.headers)) == Ok(p.head)
  {
    hide HeadEnd, ParseFields, GoodField, SkipEmptyLines, ResponseFraming, Text;
    var h, e := ParseResponse(s).value.head, HeadEnd(s, 0);
    var lines := SkipEmptyLines(s[..e]);
    AcceptedFields(lines[LineLen(lines)..], MAX_FIELDS);
    AcceptedStatus(StripEol(lines[..LineLen(lines)]));
    ResponseHeadRoundTrip([], h, reason);
    var text := HeadText(StatusLine(h.version, h.code, reason), h.headers);
    assert [] + text == text;
  }

  lemma AcceptedStatus(line: bytes)
    requires ParseStatusLine(line).Some?
    ensures var h := ParseStatusLine(line).value;
            100 <= h.code <= 999 && (h.version.Http10? || h.version.Http11?)
  {
    var d := line[9..12];
    assert d[..2][..1][..0] == [] && d[..2][..1] == d[..1];
    assert IsDigit(d[0], 10) && IsDigit(d[1], 10) && IsDigit(d[2], 10);
    assert Value(d[..2], 10) == Value(d[..1], 10) * 10 + DigitValue(d[1]).value;
  }

  /** What the fields say of the body (section 6.3 of RFC 9112): a transfer coding comes first, and must
      be chunked; then the lengths, which must be one number; a response with neither has no body, or
      runs to the end of a connection that it closes. */
  lemma FramingMeans(hs: Headers, n: nat)
    ensures var codings := Values(hs, TRANSFER_ENCODING);
            var chunked := codings != [] && exists hi :: MemberAt(codings[0], 0, hi, CHUNKED);
            var f := RequestFraming(hs);
            && (f == Ok(InChunks) <==> chunked)
            && (f == Err(InvalidTransferEncoding) <==> codings != [] && !chunked)
            && (f == Ok(Sized(n)) <==> && codings == [] && (exists v :: Given(hs, CONTENT_LENGTH, v))
                                       && forall v :: Given(hs, CONTENT_LENGTH, v) ==> Denotes(v, n))
            && (f == Ok(NoBody) <==> codings == [] && forall v :: !Given(hs, CONTENT_LENGTH, v))
            && (f.Err? ==> f.error.InvalidTransferEncoding? || f.error.InvalidHeader?)
            && ResponseFraming(hs) == if f == Ok(NoBody) && SaidIn(hs, CONNECTION, CLOSE) then Ok(UntilClose) else f
  {
    hide MemberAt, Given, Denotes, Coding, DeclaredLength, HasOption, SaidIn;
    CodingMeans(hs);
    DeclaredMeans(hs, n);
    OptionsAreTrimmed();
    HasOptionMeans(hs, CLOSE);
    NoCodingMeans(hs);
  }

  lemma NoCodingMeans(hs: Headers)
    ensures Coding(hs) == None <==> Values(hs, TRANSFER_ENCODING) == []
  {
  }
}
