/** `parse_response` and `write_response` of `src/response.rs`. */
module Responses {
  import opened Bytes
  import opened Streams
  import opened Head
  import opened Content
  import opened Bodies
  import opened Framing
  import opened Requests

  // ----- parsing -----

  function ParseResponse(s: bytes): (r: Result<Parsed<ResponseHead>, ParseError>)
    ensures r.Ok? ==> 0 < r.value.start <= |s|
  {
    var e := HeadEnd(s, 0);
    if e == 0 then Err(IncompleteRequest)
    else
      match ParseResponseHead(s[..e])
      case Err(error) => Err(error)
      case Ok(head) =>
        match ResponseFraming(head.headers)
        case Err(error) => Err(error)
        case Ok(f) => if CutShort(f, s[e..]) then Err(Io) else Ok(Parsed(head, f, e))
  }

  ghost predicate ResponseFrom(r: Result<Incoming<ResponseHead>, ParseError>, s: bytes, stream: ByteStream, p: nat)
    reads stream, if r.Ok? then {r.value.body} else {}
  {
    match ParseResponse(s)
    case Err(error) => r == Err(error)
    case Ok(m) =>
      && r.Ok? && r.value.head == m.head && r.value.body.inner.Some?
      && BodyIs(r.value.body.inner.value, m.framing, stream, s[m.start..], p + m.start)
  }

  method ReceiveResponse(stream: ByteStream) returns (r: Result<Incoming<ResponseHead>, ParseError>)
    requires stream.Valid()
    modifies stream
    ensures stream.Valid() && old(stream.pos) <= stream.pos
    ensures ResponseFrom(r, old(stream.Rest()), stream, old(stream.pos))
    ensures r.Ok? ==> fresh(r.value.body) && r.value.body.inner.Some?
    ensures r.Ok? ==> fresh(r.value.body.inner.value.Frame() - {stream})
    ensures r.Ok? ==> r.value.body !in r.value.body.inner.value.Frame()
  {
    hide HeadEnd, ParseResponseHead, ResponseFraming;
    ghost var s := stream.Rest();
    var buf := ReadHead(stream);
    if buf == [] {
      return Err(IncompleteRequest);
    }
    var head := ParseResponseHead(buf);
    if head.Err? {
      return Err(head.error);
    }
    var framing := ResponseFraming(head.value.headers);
    if framing.Err? {
      return Err(framing.error);
    }
    assert stream.Rest() == s[HeadEnd(s, 0)..];
    var body := TakeBody(framing.value, stream);
    r := if body == None then Err(Io) else Ok(Incoming(head.value, body.value));
  }

  // ----- writing -----

  /** A status code with its canonical reason phrase. */
  datatype Status = Status(code: nat, reason: bytes)

  /** What a service answers. The reason phrase is the canonical one of the status code. */
  datatype Reply = Reply(code: nat, reason: bytes, version: Version, headers: Headers, upgrade: bool)

  datatype Response = Response(reply: Reply, body: BodyValue)

  datatype Outcome = Close | KeepAlive | Upgrade

  /** The encoding, before the HTTP/1.0 clean-up of the fields. */
  function PickResponse(r: Reply, len: Option<nat>): Choice
  {
    var hs, declared := r.headers, DeclaredLength(r.headers);
    if Coding(hs) == Some(true) && r.version.Http11? then Chosen(Chunked, hs)
    else if declared.Length? then
      if len.Some? && len.value != declared.n then Refused else Chosen(FixedLength(declared.n), hs)
    else if len.Some? then
      Chosen(FixedLength(len.value), Set(hs, CONTENT_LENGTH, Numeral(len.value, 10)))
    else if !HasOption(hs, CLOSE) && r.version.Http11? then
      Chosen(Chunked, Set(hs, TRANSFER_ENCODING, CHUNKED))
    else
      Chosen(CloseDelimited, if HasOption(hs, CLOSE) then hs else Set(hs, CONNECTION, CLOSE))
  }

  /** The encoding a response is sent with, and the fields as sent. */
  function ChooseResponse(r: Reply, len: Option<nat>): Choice
  {
    var c := PickResponse(r, len);
    if c.Chosen? && r.version.Http10? && Coding(r.headers) == Some(true)
    then c.(headers := Remove(c.headers, TRANSFER_ENCODING))
    else c
  }

  /** The same for a response. One without a length runs to the end of the connection, and says so, if
      it is to be the last or goes to an HTTP/1.0 client; it is refused only for a wrong length. */
  lemma SentLengthIsTrue(r: Reply, len: Option<nat>)
    requires len.Some? ==> len.value <= U64_MAX
    ensures var c, declared := ChooseResponse(r, len), DeclaredLength(r.headers);
            var chunked := r.version.Http11? && Coding(r.headers) == Some(true);
            var unknown := !chunked && len == None && !declared.Length?;
            && (c.Refused? <==> !chunked && declared.Length? && len.Some? && len.value != declared.n)
            && (c.Chosen? ==>
                  if unknown && (!r.version.Http11? || HasOption(r.headers, CLOSE))
                  then c.encoding == CloseDelimited && HasOption(c.headers, CLOSE)
                  else if chunked || unknown
                  then c.encoding == Chunked && r.version.Http11? && Coding(c.headers) == Some(true)
                  else c.encoding.FixedLength? && DeclaredLength(c.headers) == Length(c.encoding.n)
                       && (len.Some? ==> len.value == c.encoding.n))
  {
    hide Set, Remove, Numeral, Coding, DeclaredLength, HasOption;
    if len.Some? { SetLength(r.headers, len.value); }
    SetChunked(r.headers);
    SetClose(r.headers);
    var p := PickResponse(r, len);
    if p.Chosen? { LookupsAfterRemove(p.headers, TRANSFER_ENCODING); }
  }

  function OutcomeOf(r: Reply, e: Encoding, hs: Headers): Outcome
  {
    if r.upgrade then Upgrade
    else if e.CloseDelimited? || HasOption(hs, CLOSE) then Close
    else KeepAlive
  }

  function ResponseText(r: Reply, hs: Headers): bytes
  {
    HeadText(StatusLine(r.version, r.code, r.reason), hs)
  }

  function ResponseWire(r: Response, writeBody: bool): Written
  {
    match ChooseResponse(r.reply, r.body.Len())
    case Refused => Written([], false)
    case Chosen(e, hs) =>
      if writeBody
      then Written(ResponseText(r.reply, hs) + Payload(e, r.body).GetOr([]), Payload(e, r.body).Some?)
      else Written(ResponseText(r.reply, hs), true)
  }

  method SendResponse(r: Reply, body: Body, out: BufWriter, writeBody: bool) returns (o: Option<Outcome>)
    requires body.inner.Some? && body.inner.value.Valid()
    requires body !in body.inner.value.Frame() && out !in body.inner.value.Frame()
    modifies body, body.inner.value.Frame(), out
    ensures var res := Response(r, old(body.inner.value.View()));
            var w := ResponseWire(res, writeBody);
            var c := ChooseResponse(r, res.body.Len());
            && out.Written() == old(out.Written()) + w.out
            && o == if w.ok then Some(OutcomeOf(r, c.encoding, c.headers)) else None
  {
    hide Payload, BodyInner.View, FieldLines, StatusLine, ChooseResponse, OutcomeOf;
    ghost var content := body.inner.value.View();
    var len := body.Length();
    var choice := ChooseResponse(r, len);
    if choice.Refused? {
      return None;
    }
    out.WriteAll(StatusLine(r.version, r.code, r.reason));
    WriteFields(choice.headers, out);
    out.WriteAll(CRLF);
    assert out.Written() == old(out.Written()) + ResponseText(r, choice.headers);
    if writeBody {
      var ok := WritePayload(choice.encoding, body, out);
      if !ok {
        return None;
      }
    }
    o := Some(OutcomeOf(r, choice.encoding, choice.headers));
  }

  // ----- agreement -----

  /** No transfer coding, or one that the writer strips or replaces; and, when the body runs to the
      end of the connection, no malformed length. */
  predicate FramableResponse(r: Reply, len: Option<nat>)
  {
    var coding, known := Coding(r.headers), DeclaredLength(r.headers).Length? || len.Some?;
    if r.version.Http11? && (coding == Some(true) || (!known && !HasOption(r.headers, CLOSE))) then true
    else
      && (coding == None || (r.version.Http10? && coding == Some(true)))
      && (known || DeclaredLength(r.headers).Absent?)
  }

  /** The parser picks the framing that the writer chose if and only if the response is framable. */
  lemma ResponseFramingAgreement(r: Reply, len: Option<nat>)
    requires len.Some? ==> len.value <= U64_MAX
    requires ChooseResponse(r, len).Chosen?
    ensures var c := ChooseResponse(r, len);
            var f := ResponseFraming(c.headers);
            (f.Ok? && Agrees(c.encoding, f.value)) <==> FramableResponse(r, len)
  {
    hide Coding, DeclaredLength, HasOption, Set, Remove, Numeral;
    var hs := r.headers;
    if len.Some? {
      SetLength(hs, len.value);
      LookupsAfterSet(hs, CONTENT_LENGTH, Numeral(len.value, 10));
    }
    SetChunked(hs);
    SetClose(hs);
    LookupsAfterSet(hs, CONNECTION, CLOSE);
    LookupsAfterRemove(PickResponse(r, len).headers, TRANSFER_ENCODING);
  }

  /** A response that runs to the end of the connection says `connection: close` in its head, so
      the outcome is to close exactly when the written head says so. */
  lemma CloseIsWritten(r: Reply, len: Option<nat>)
    requires ChooseResponse(r, len).Chosen? && !r.upgrade
    ensures var c := ChooseResponse(r, len);
            OutcomeOf(r, c.encoding, c.headers).Close? <==> HasOption(c.headers, CLOSE)
  {
    SetClose(r.headers);
    LookupsAfterRemove(PickResponse(r, len).headers, TRANSFER_ENCODING);
  }

  function ResponseChoice(r: Response): (c: Choice)
  {
    ChooseResponse(r.reply, r.body.Len())
  }

  /** A response whose head is written and can be parsed. */
  predicate GoodResponseHead(r: Response)
  {
    && 100 <= r.reply.code <= 999 && Text(r.reply.reason)
    && (r.reply.version.Http10? || r.reply.version.Http11?)
    && ResponseChoice(r).Chosen? && GoodFields(ResponseChoice(r).headers)
  }

  /** A response that is written in full and that a parser can accept. */
  predicate GoodResponse(r: Response)
  {
    && GoodResponseHead(r)
    && (r.body.Len().Some? ==> r.body.Len().value <= U64_MAX)
    && FramableResponse(r.reply, r.body.Len())
    && Faithful(ResponseChoice(r).encoding, r.body)
  }

  /** The body is what the writer sends of it: see `Framing.DeliveredIsBody`. */
  predicate IntactResponse(r: Response)
  {
    var c := ResponseChoice(r);
    c.Chosen? && Intact(c.encoding, r.body)
  }

  /** Parsing a written response and reading its body gives both back and leaves what followed; a
      close-delimited body takes that along too. */
  lemma ResponseRoundTrip(lead: bytes, r: Response, tail: bytes)
    requires IsLead(lead) && GoodResponse(r)
    ensures ResponseWire(r, true).ok
    ensures var c := ResponseChoice(r);
            var s := lead + ResponseWire(r, true).out + tail;
            var p := ParseResponse(s);
            && p.Ok? && p.value.head == ResponseHead(r.reply.code, r.reply.version, c.headers)
            && Agrees(c.encoding, p.value.framing)
            && var t := FullRead(p.value.framing, s[p.value.start..]);
            && t.data == Delivered(c.encoding, r.body) + (if c.encoding.CloseDelimited? then tail else [])
            && (IntactResponse(r) ==> BytesView(r.body) == Some(Delivered(c.encoding, r.body)))
            && s[p.value.start..][t.used..] ==
                 (if c.encoding.CloseDelimited? then [] else LeftOver(c.encoding, r.body) + tail)
  {
    hide ParseResponse, Payload, Delivered, FullRead, LeftOver, ChooseResponse, GoodResponse, ResponseFraming,
         ResponseWire, Intact, Faithful, CutShort;
    GoodIsFaithful(r);
    var c := ResponseChoice(r);
    var f := ResponseFraming(c.headers).value;
    PayloadRoundTrip(c.encoding, r.body, f, tail);
    WireParses(lead, r, tail);
  }

  lemma GoodIsFaithful(r: Response)
    requires GoodResponse(r)
    ensures var c := ResponseChoice(r);
            && GoodResponseHead(r) && c.Chosen? && Faithful(c.encoding, r.body)
            && ResponseFraming(c.headers).Ok? && Agrees(c.encoding, ResponseFraming(c.headers).value)
  {
    hide Faithful, ResponseFraming, ChooseResponse, GoodFields, Text, FramableResponse;
    ResponseFramingAgreement(r.reply, r.body.Len());
  }

  /** The parse of a written response: the head, the framing, and the payload behind it. */
  lemma WireParses(lead: bytes, r: Response, tail: bytes)
    requires IsLead(lead) && GoodResponseHead(r)
    requires var c := ResponseChoice(r);
             && ResponseFraming(c.headers).Ok? && Payload(c.encoding, r.body).Some?
             && !CutShort(ResponseFraming(c.headers).value, Payload(c.encoding, r.body).value + tail)
    ensures var c := ResponseChoice(r);
            var w := ResponseWire(r, true);
            var p := ParseResponse(lead + w.out + tail);
            && w.ok && p.Ok? && p.value.head == ResponseHead(r.reply.code, r.reply.version, c.headers)
            && p.value.framing == ResponseFraming(c.headers).value
            && (lead + w.out + tail)[p.value.start..] == Payload(c.encoding, r.body).value + tail
  {
    var c := ResponseChoice(r);
    var text, payload := ResponseText(r.reply, c.headers), Payload(c.encoding, r.body).value;
    assert c.Chosen? && ResponseWire(r, true) == Written(text + payload, true);
    hide ParseResponse, Payload, ChooseResponse, ResponseFraming, ResponseText, GoodResponseHead, CutShort,
         ResponseWire;
    Regroup(lead, text, payload, tail);
    ResponseHeadParses(lead, r, ResponseFraming(c.headers).value, payload + tail);
  }

  lemma ResponseHeadReads(lead: bytes, r: Response, rest: bytes)
    requires IsLead(lead) && GoodResponseHead(r)
    ensures var hs := ResponseChoice(r).headers;
            var head := lead + ResponseText(r.reply, hs);
            && HeadEnd(head + rest, 0) == |head| > 0 && (head + rest)[..|head|] == head && (head + rest)[|head|..] == rest
            && ParseResponseHead(head) == Ok(ResponseHead(r.reply.code, r.reply.version, hs))
  {
    hide HeadEnd, ParseResponseHead, FieldLines, GoodField, ChooseResponse, Text;
    var start := StatusLine(r.reply.version, r.reply.code, r.reply.reason);
    StatusLineParses(r.reply.version, r.reply.code, r.reply.reason);
    HeadEndOfHead(lead, start, ResponseChoice(r).headers, rest);
    ResponseHeadRoundTrip(lead, ResponseHead(r.reply.code, r.reply.version, ResponseChoice(r).headers), r.reply.reason);
  }

  lemma ResponseHeadParses(lead: bytes, r: Response, f: Framing, rest: bytes)
    requires IsLead(lead) && GoodResponseHead(r)
    requires ResponseFraming(ResponseChoice(r).headers) == Ok(f) && !CutShort(f, rest)
    ensures var hs := ResponseChoice(r).headers;
            var head := lead + ResponseText(r.reply, hs);
            ParseResponse(head + rest) == Ok(Parsed(ResponseHead(r.reply.code, r.reply.version, hs), f, |head|))
  {
    hide HeadEnd, ParseResponseHead, ResponseFraming, ResponseText, GoodFields, ChooseResponse, Text, CutShort;
    ResponseHeadReads(lead, r, rest);
  }

  /** Whatever follows a written response head, with or without its body: if the parser accepts it,
      then as that head. */
  lemma HeadIsRead(lead: bytes, r: Response, writeBody: bool, tail: bytes)
    requires IsLead(lead) && GoodResponseHead(r)
    ensures var p := ParseResponse(lead + ResponseWire(r, writeBody).out + tail);
            p.Ok? ==> p.value.head == ResponseHead(r.reply.code, r.reply.version, ResponseChoice(r).headers)
  {
    hide HeadEnd, ParseResponseHead, ResponseFraming, ResponseText, GoodFields, ChooseResponse, Payload, Text;
    var text := ResponseText(r.reply, ResponseChoice(r).headers);
    var rest := if writeBody then Payload(ResponseChoice(r).encoding, r.body).GetOr([]) else [];
    assert ResponseWire(r, writeBody).out == text + rest;
    Regroup(lead, text, rest, tail);
    ResponseHeadReads(lead, r, rest + tail);
  }

  /** The same for a response head cut at any byte: it is accepted once it has the status code. */
  lemma CutResponse(r: Reply, k: nat)
    requires 100 <= r.code <= 999 && Text(r.reason) && GoodFields(r.headers) && (r.version.Http10? || r.version.Http11?)
    requires k < |ResponseText(r, r.headers)|
    ensures var n := |StatusLine(r.version, r.code, r.reason)|;
            var fields := r.headers[..WholeFields(r.headers, Behind(n, k))];
            var f := ResponseFraming(fields);
            var p := ParseResponse(ResponseText(r, r.headers)[..k]);
            && (p.Ok? <==> 12 <= k && f.Ok? && !(f.value.Sized? && 0 < f.value.n < 1024))
            && (p.Ok? ==> p.value == Parsed(ResponseHead(r.code, r.version, fields), f.value, k))
            && (k < 12 ==> p == Err(IncompleteRequest))
  {
    hide HeadEnd, ParseResponseHead, FieldLines, ResponseFraming, GoodField, StatusLine, WholeFields, HeadText;
    var h, s := ResponseHead(r.code, r.version, r.headers), ResponseText(r, r.headers)[..k];
    StatusLineParses(r.version, r.code, r.reason);
    HeadEndOfCut(StatusLine(r.version, r.code, r.reason), r.headers, k);
    assert s == s[..k] && s[k..] == [];
    if k > 0 { ParseCutResponse(h, r.reason, k); }
  }
}
