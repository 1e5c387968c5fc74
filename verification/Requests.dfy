/** `parse_request` and `write_request` of `src/request.rs`. */
module Requests {
  import opened Bytes
  import opened Streams
  import opened Head
  import opened Content
  import opened Bodies
  import opened Framing

  const GET: bytes := Ascii("GET")
  const HEAD: bytes := Ascii("HEAD")
  const CONNECT: bytes := Ascii("CONNECT")

  // ----- parsing -----

  /** A parsed message as a value: the head, the framing, and where the body starts in the input. */
  datatype Parsed<H> = Parsed(head: H, framing: Framing, start: nat)

  function ParseRequest(s: bytes): (r: Result<Parsed<RequestHead>, ParseError>)
    ensures r.Ok? ==> 0 < r.value.start <= |s|
  {
    var e := HeadEnd(s, 0);
    if e == 0 then Err(ConnectionClosed)
    else
      match ParseRequestHead(s[..e])
      case Err(error) => Err(error)
      case Ok(head) =>
        match RequestFraming(head.headers)
        case Err(error) => Err(error)
        case Ok(f) => if CutShort(f, s[e..]) then Err(Io) else Ok(Parsed(head, f, e))
  }

  datatype Incoming<H> = Incoming(head: H, body: Body)

  /** What parsing returns, `s` being the input and `p` its position in the stream. */
  ghost predicate RequestFrom(r: Result<Incoming<RequestHead>, ParseError>, s: bytes, stream: ByteStream, p: nat)
    reads stream, if r.Ok? then {r.value.body} else {}
  {
    match ParseRequest(s)
    case Err(error) => r == Err(error)
    case Ok(m) =>
      && r.Ok? && r.value.head == m.head && r.value.body.inner.Some?
      && BodyIs(r.value.body.inner.value, m.framing, stream, s[m.start..], p + m.start)
  }

  method ReceiveRequest(stream: ByteStream) returns (r: Result<Incoming<RequestHead>, ParseError>)
    requires stream.Valid()
    modifies stream
    ensures stream.Valid() && old(stream.pos) <= stream.pos
    ensures RequestFrom(r, old(stream.Rest()), stream, old(stream.pos))
    ensures r.Ok? ==> fresh(r.value.body) && r.value.body.inner.Some?
    ensures r.Ok? ==> fresh(r.value.body.inner.value.Frame() - {stream})
    ensures r.Ok? ==> r.value.body !in r.value.body.inner.value.Frame()
  {
    hide HeadEnd, ParseRequestHead, RequestFraming;
    ghost var s := stream.Rest();
    var buf := ReadHead(stream);
    if buf == [] {
      return Err(ConnectionClosed);
    }
    var head := ParseRequestHead(buf);
    if head.Err? {
      return Err(head.error);
    }
    var framing := RequestFraming(head.value.headers);
    if framing.Err? {
      return Err(framing.error);
    }
    assert stream.Rest() == s[HeadEnd(s, 0)..];
    var body := TakeBody(framing.value, stream);
    r := if body == None then Err(Io) else Ok(Incoming(head.value, body.value));
  }

  // ----- writing -----

  datatype Request = Request(head: RequestHead, body: BodyValue)

  datatype Choice = Refused | Chosen(encoding: Encoding, headers: Headers)

  /** The encoding a request is sent with, and the fields as sent. */
  function ChooseRequest(h: RequestHead, len: Option<nat>): Choice
  {
    var hs, declared := h.headers, DeclaredLength(h.headers);
    if !h.version.Http10? && !h.version.Http11? then Refused
    else if Coding(hs) == Some(true) && h.version.Http11? then Chosen(Chunked, hs)
    else if declared.Length? then
      if len.Some? && len.value != declared.n then Refused else Chosen(FixedLength(declared.n), hs)
    else if len.Some? then
      Chosen(FixedLength(len.value), Set(hs, CONTENT_LENGTH, Numeral(len.value, 10)))
    else if h.verb != GET && h.verb != HEAD && h.version.Http11? then
      Chosen(Chunked, Set(hs, TRANSFER_ENCODING, CHUNKED))
    else Refused
  }

  /** A length that is sent is the only one declared, and that of the body where it is known; chunks go
      out only if they are asked for or nothing else is known, and only in HTTP/1.1. A request is refused
      if it declares another length, or if it is of a kind that cannot say where it ends. */
  lemma SentLengthIsTrue(h: RequestHead, len: Option<nat>)
    requires len.Some? ==> len.value <= U64_MAX
    ensures var c, declared := ChooseRequest(h, len), DeclaredLength(h.headers);
            var chunked := h.version.Http11? && Coding(h.headers) == Some(true);
            && (c.Refused? <==>
                  || !(h.version.Http10? || h.version.Http11?)
                  || (!chunked && declared.Length? && len.Some? && len.value != declared.n)
                  || (!chunked && !declared.Length? && len == None
                      && (h.version.Http10? || h.verb == GET || h.verb == HEAD)))
            && (c.Chosen? ==>
                  if chunked || (len == None && !declared.Length?)
                  then c.encoding == Chunked && h.version.Http11? && Coding(c.headers) == Some(true)
                  else c.encoding.FixedLength? && DeclaredLength(c.headers) == Length(c.encoding.n)
                       && (len.Some? ==> len.value == c.encoding.n))
  {
    hide Set, Numeral, Coding, DeclaredLength;
    if len.Some? { SetLength(h.headers, len.value); }
    SetChunked(h.headers);
  }

  /** What was written, and whether the writer succeeded. */
  datatype Written = Written(out: bytes, ok: bool)

  function RequestText(h: RequestHead, hs: Headers): bytes
  {
    HeadText(RequestLine(h.verb, h.target, h.version), hs)
  }

  function RequestWire(r: Request): Written
  {
    match ChooseRequest(r.head, r.body.Len())
    case Refused => Written([], false)
    case Chosen(e, hs) =>
      Written(RequestText(r.head, hs) + Payload(e, r.body).GetOr([]), Payload(e, r.body).Some?)
  }

  method SendRequest(h: RequestHead, body: Body, out: BufWriter) returns (ok: bool)
    requires body.inner.Some? && body.inner.value.Valid()
    requires body !in body.inner.value.Frame() && out !in body.inner.value.Frame()
    modifies body, body.inner.value.Frame(), out
    ensures var w := RequestWire(Request(h, old(body.inner.value.View())));
            ok == w.ok && out.Written() == old(out.Written()) + w.out
  {
    hide Payload, BodyInner.View, FieldLines, RequestLine, ChooseRequest;
    ghost var content := body.inner.value.View();
    var len := body.Length();
    var choice := ChooseRequest(h, len);
    if choice.Refused? {
      return false;
    }
    out.WriteAll(RequestLine(h.verb, h.target, h.version));
    WriteFields(choice.headers, out);
    out.WriteAll(CRLF);
    assert out.Written() == old(out.Written()) + RequestText(h, choice.headers);
    ok := WritePayload(choice.encoding, body, out);
  }

  // ----- agreement -----

  /** No transfer coding; or HTTP/1.1 with `chunked`, or with no length that would keep another coding. */
  predicate FramableRequest(h: RequestHead, len: Option<nat>)
  {
    var coding := Coding(h.headers);
    coding == None
    || (h.version.Http11? && (coding == Some(true) || (len == None && !DeclaredLength(h.headers).Length?)))
  }

  /** The parser picks the framing that the writer chose if and only if the request is framable. */
  lemma RequestFramingAgreement(h: RequestHead, len: Option<nat>)
    requires len.Some? ==> len.value <= U64_MAX
    requires ChooseRequest(h, len).Chosen?
    ensures var c := ChooseRequest(h, len);
            var f := RequestFraming(c.headers);
            (f.Ok? && Agrees(c.encoding, f.value)) <==> FramableRequest(h, len)
  {
    var hs, declared := h.headers, DeclaredLength(h.headers);
    if len.Some? {
      SetLength(hs, len.value);
      LookupsAfterSet(hs, CONTENT_LENGTH, Numeral(len.value, 10));
    }
    SetChunked(hs);
  }

  /** The family that is not framable is not empty: HTTP/1.0 with `transfer-encoding: chunked` is
      sent with a length, and read in chunks. */
  lemma ChunkedHttp10RequestDisagrees()
    ensures var h := RequestHead(GET, [47], Http10, [Field(TRANSFER_ENCODING, CHUNKED)]);
            var c := ChooseRequest(h, Some(3));
            c.Chosen? && c.encoding == FixedLength(3) && RequestFraming(c.headers) == Ok(InChunks)
  {
    var hs := [Field(TRANSFER_ENCODING, CHUNKED)];
    SetChunked([]);
    assert Set([], TRANSFER_ENCODING, CHUNKED) == hs;
    assert hs[1..] == [];
    assert Values(hs, CONTENT_LENGTH) == [];
    LookupsAfterSet(hs, CONTENT_LENGTH, Numeral(3, 10));
  }

  /** A request that is written in full and that a parser can accept. */
  predicate GoodRequest(r: Request)
  {
    && (r.body.Len().Some? ==> r.body.Len().value <= U64_MAX)
    && Token(r.head.verb) && Target(r.head.target)
    && var c := ChooseRequest(r.head, r.body.Len());
    && c.Chosen? && GoodFields(c.headers)
    && FramableRequest(r.head, r.body.Len())
    && Faithful(c.encoding, r.body)
  }

  /** The head as the server receives it, the body, and what the reader leaves of the message. */
  function SentHead(r: Request): RequestHead
  {
    match ChooseRequest(r.head, r.body.Len())
    case Refused => r.head
    case Chosen(_, hs) => r.head.(headers := hs)
  }

  function SentBody(r: Request): bytes
  {
    match ChooseRequest(r.head, r.body.Len())
    case Refused => []
    case Chosen(e, _) => Delivered(e, r.body)
  }

  function RequestLeftOver(r: Request): bytes
  {
    match ChooseRequest(r.head, r.body.Len())
    case Refused => []
    case Chosen(e, _) => LeftOver(e, r.body)
  }

  predicate SentInChunks(r: Request)
  {
    var c := ChooseRequest(r.head, r.body.Len());
    c.Chosen? && c.encoding.Chunked?
  }

  /** The body is what the writer sends of it: see `Framing.DeliveredIsBody`. */
  predicate IntactRequest(r: Request)
  {
    var c := ChooseRequest(r.head, r.body.Len());
    c.Chosen? && Intact(c.encoding, r.body)
  }

  /** Parsing a written request and reading its body gives both back and leaves what followed. */
  lemma RequestRoundTrip(lead: bytes, r: Request, tail: bytes)
    requires IsLead(lead) && GoodRequest(r)
    ensures RequestWire(r).ok
    ensures var s := lead + RequestWire(r).out + tail;
            var p := ParseRequest(s);
            && p.Ok? && p.value.head == SentHead(r)
            && var t := FullRead(p.value.framing, s[p.value.start..]);
            && t.data == SentBody(r)
            && (IntactRequest(r) ==> BytesView(r.body) == Some(t.data))
            && s[p.value.start..][t.used..] == RequestLeftOver(r) + tail
  {
    hide ParseRequest, Payload, Delivered, FullRead, LeftOver, ChooseRequest, FramableRequest, RequestFraming,
         RequestText, CutShort, Intact, Faithful;
    var c := ChooseRequest(r.head, r.body.Len());
    RequestFramingAgreement(r.head, r.body.Len());
    ChosenNeverClose(r.head, r.body.Len());
    var f := RequestFraming(c.headers).value;
    var text, payload := RequestText(r.head, c.headers), Payload(c.encoding, r.body).GetOr([]);
    PayloadRoundTrip(c.encoding, r.body, f, tail);
    SameText(r.head, c.headers);
    Regroup(lead, text, payload, tail);
    HeadParses(lead, SentHead(r), f, payload + tail);
  }

  lemma SameText(h: RequestHead, hs: Headers)
    ensures RequestText(h, hs) == RequestText(h.(headers := hs), hs)
  {
  }

  /** A written head followed by a body that is not cut short is parsed. */
  lemma HeadParses(lead: bytes, h: RequestHead, f: Framing, rest: bytes)
    requires IsLead(lead) && Token(h.verb) && Target(h.target) && GoodFields(h.headers)
    requires h.version.Http10? || h.version.Http11?
    requires RequestFraming(h.headers) == Ok(f) && !CutShort(f, rest)
    ensures var head := lead + RequestText(h, h.headers);
            ParseRequest(head + rest) == Ok(Parsed(h, f, |head|))
  {
    hide HeadEnd, ParseRequestHead, RequestFraming, FieldLines, GoodField;
    var start := RequestLine(h.verb, h.target, h.version);
    var head := lead + RequestText(h, h.headers);
    RequestLineParses(h.verb, h.target, h.version);
    HeadEndOfHead(lead, start, h.headers, rest);
    RequestHeadRoundTrip(lead, h);
    assert (head + rest)[..|head|] == head && (head + rest)[|head|..] == rest;
  }

  /** A framable request is read in chunks only if it was sent in chunks. */
  lemma SentFraming(lead: bytes, r: Request, tail: bytes)
    requires IsLead(lead) && GoodRequest(r)
    ensures var p := ParseRequest(lead + RequestWire(r).out + tail);
            && p.Ok? && !p.value.framing.UntilClose?
            && (p.value.framing.InChunks? ==> SentInChunks(r))
  {
    hide ParseRequestHead, CutShort, HeadEnd, GoodField, RequestWire, FramableRequest, Faithful, FullRead,
         ChooseRequest, SentBody, RequestLeftOver;
    RequestRoundTrip(lead, r, tail);
    RequestFramingAgreement(r.head, r.body.Len());
    ChosenNeverClose(r.head, r.body.Len());
  }

  lemma ChosenNeverClose(h: RequestHead, len: Option<nat>)
    ensures ChooseRequest(h, len).Chosen? ==>
              !ChooseRequest(h, len).encoding.CloseDelimited? && (h.version.Http10? || h.version.Http11?)
  {
  }

  /** The parser does not look at whether a head was complete. A written head cut at any byte is
      accepted as a request with the fields whose lines are complete, if and only if the start line
      lacks no more than its line end, and those fields ask for no small body and are not refused. */
  lemma CutRequest(h: RequestHead, k: nat)
    requires Token(h.verb) && Target(h.target) && GoodFields(h.headers) && (h.version.Http10? || h.version.Http11?)
    requires k < |RequestText(h, h.headers)|
    ensures var n := |RequestLine(h.verb, h.target, h.version)|;
            var fields := h.headers[..WholeFields(h.headers, Behind(n, k))];
            var f := RequestFraming(fields);
            var p := ParseRequest(RequestText(h, h.headers)[..k]);
            && (p.Ok? <==> n - 2 <= k && f.Ok? && !(f.value.Sized? && 0 < f.value.n < 1024))
            && (p.Ok? ==> p.value == Parsed(h.(headers := fields), f.value, k))
            && (k < n - 2 ==> p == Err(if k == 0 then ConnectionClosed else IncompleteRequest))
  {
    hide HeadEnd, ParseRequestHead, FieldLines, RequestFraming, GoodField, RequestLine, WholeFields, HeadText;
    var s := RequestText(h, h.headers)[..k];
    RequestLineParses(h.verb, h.target, h.version);
    HeadEndOfCut(RequestLine(h.verb, h.target, h.version), h.headers, k);
    assert s == s[..k] && s[k..] == [];
    if k > 0 { ParseCutRequest(h, k); }
  }
}
