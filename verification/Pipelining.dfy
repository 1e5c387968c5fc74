/** Whole connections: pipelined requests, and the server's answers to them. */
module Pipelining {
  import opened Bytes
  import opened Head
  import opened ChunkedCodec
  import opened Content
  import opened Framing
  import opened Requests
  import opened Responses
  import opened Serving

  // ----- requests -----

  datatype Received = Received(head: RequestHead, data: bytes)
  datatype Session = Session(received: seq<Received>, error: ParseError)

  /** Parsing requests, each with its body read to the end, until the parser fails. */
  function ReceiveAll(s: bytes): Session
    decreases |s|
  {
    match ParseRequest(s)
    case Err(error) => Session([], error)
    case Ok(p) =>
      var t := FullRead(p.framing, s[p.start..]);
      var rest := ReceiveAll(s[p.start..][t.used..]);
      Session([Received(p.head, t.data)] + rest.received, rest.error)
  }

  /** Trailer lines are sent, which a reader leaves behind. */
  predicate LeavesTrailers(e: Encoding, c: BodyValue) { e.Chunked? && TrailersOf([], ChunksView(c)) != [] }

  predicate TrailersAreFields(c: BodyValue)
  {
    var ts := TrailersOf([], ChunksView(c));
    forall k :: 0 <= k < |ts| ==> GoodField(ts[k])
  }

  predicate SendsTrailers(r: Request)
  {
    var c := ChooseRequest(r.head, r.body.Len());
    c.Chosen? && LeavesTrailers(c.encoding, r.body)
  }

  predicate PlainRequest(r: Request) { GoodRequest(r) && !SendsTrailers(r) }

  function WireAll(reqs: seq<Request>): bytes
  {
    if reqs == [] then [] else RequestWire(reqs[0]).out + WireAll(reqs[1..])
  }

  /** The heads as sent, and the bodies. */
  function Sent(reqs: seq<Request>): seq<Received>
  {
    if reqs == [] then [] else [Received(SentHead(reqs[0]), SentBody(reqs[0]))] + Sent(reqs[1..])
  }

  lemma {:induction false} SentAt(reqs: seq<Request>, j: nat)
    requires j < |reqs|
    ensures |Sent(reqs)| == |reqs| && Sent(reqs)[j] == Received(SentHead(reqs[j]), SentBody(reqs[j]))
    ensures IntactRequest(reqs[j]) ==> BytesView(reqs[j].body) == Some(Sent(reqs)[j].data)
  {
    hide SentHead, SentBody, IntactRequest;
    SentLength(reqs);
    IntactIsSent(reqs[j]);
    if j > 0 { SentAt(reqs[1..], j - 1); }
  }

  lemma {:induction false} SentLength(reqs: seq<Request>)
    ensures |Sent(reqs)| == |reqs|
  {
    if reqs != [] { SentLength(reqs[1..]); }
  }

  lemma IntactIsSent(r: Request)
    ensures IntactRequest(r) ==> BytesView(r.body) == Some(SentBody(r))
  {
    hide ChooseRequest, Delivered, Intact;
    if IntactRequest(r) { IntactIsDelivered(ChooseRequest(r.head, r.body.Len()).encoding, r.body); }
  }

  /** What the last message leaves behind. */
  function LastLeftOver(lead: bytes, reqs: seq<Request>): bytes
  {
    if reqs == [] then lead else RequestLeftOver(reqs[|reqs| - 1])
  }

  /** The first request with trailers. */
  function FirstTrailers(reqs: seq<Request>): (i: nat)
    ensures i <= |reqs| && forall j :: 0 <= j < i ==> !SendsTrailers(reqs[j])
    ensures i < |reqs| ==> SendsTrailers(reqs[i])
  {
    if reqs == [] || SendsTrailers(reqs[0]) then 0 else 1 + FirstTrailers(reqs[1..])
  }

  lemma LeftOverIsLead(e: Encoding, c: BodyValue)
    requires !LeavesTrailers(e, c)
    ensures IsLead(LeftOver(e, c))
    ensures LeftOver(e, c) == if e.Chunked? then CRLF else []
  {
    assert FieldLines([]) + CRLF == CRLF;
  }

  /** A field line is no request line. */
  lemma FieldIsNoRequest(f: Field)
    requires GoodField(f)
    ensures ParseRequestLine(f.name + [COLON, SP] + f.value) == None
  {
    var verb := f.name + [COLON];
    assert forall k :: 0 <= k < |f.name| ==> TokenByte(f.name[k]);
    assert f.name + [COLON, SP] + f.value == verb + [SP] + f.value;
    SplitAtSpace(verb, f.value);
    assert verb[|f.name|] == COLON;
  }

  lemma FieldHeadIsInvalid(f: Field, more: bytes)
    requires GoodField(f)
    ensures ParseRequestHead(FieldLine(f) + more) == Err(ParseError.Invalid)
  {
    hide FieldLine, HeadLine, StripEol, ParseRequestLine, ParseFields, GoodField;
    var s := FieldLine(f) + more;
    FieldLineIsHeadLine(f);
    HeadLineLen(FieldLine(f), s);
    FirstByte(f);
    assert SkipEmptyLines(s) == s;
    FieldIsNoRequest(f);
  }

  lemma FirstFieldLine(ts: Headers, tail: bytes)
    requires ts != []
    ensures FieldLines(ts) + CRLF + tail == FieldLine(ts[0]) + (FieldLines(ts[1..]) + CRLF) + tail
  {
    hide FieldLine;
    assert FieldLines(ts) == FieldLine(ts[0]) + FieldLines(ts[1..]);
  }

  lemma ScanTrailers(ts: Headers, tail: bytes)
    requires ts != [] && forall k :: 0 <= k < |ts| ==> GoodField(ts[k])
    ensures var lines := FieldLine(ts[0]) + (FieldLines(ts[1..]) + CRLF);
            HeadEnd(lines + tail, 0) == |lines| && (lines + tail)[..|lines|] == lines
  {
    hide HeadEnd, FieldLine, FieldLines, HeadLine, GoodField;
    var line, more := FieldLine(ts[0]), FieldLines(ts[1..]) + CRLF;
    var s := line + more + tail;
    FieldLineIsHeadLine(ts[0]);
    assert s[0..] == s;
    PastLine(s, 0, line, more);
    HeadEndOfFields(s, |line|, ts[1..]);
  }

  /** Trailers left in front of the next message make it malformed. */
  lemma TrailersAreNoRequest(ts: Headers, tail: bytes)
    requires ts != [] && forall k :: 0 <= k < |ts| ==> GoodField(ts[k])
    ensures ParseRequest(FieldLines(ts) + CRLF + tail) == Err(ParseError.Invalid)
  {
    hide HeadEnd, FieldLine, FieldLines, ParseRequestHead, RequestFraming, GoodField;
    FirstFieldLine(ts, tail);
    FirstByte(ts[0]);
    ScanTrailers(ts, tail);
    FieldHeadIsInvalid(ts[0], FieldLines(ts[1..]) + CRLF);
  }

  lemma FirstByte(f: Field)
    requires GoodField(f)
    ensures FieldLine(f) != [] && FieldLine(f)[0] != CR && FieldLine(f)[0] != LF
  {
    assert TokenByte(f.name[0]);
  }

  lemma NothingToParse(lead: bytes)
    requires IsLead(lead)
    ensures ParseRequest(lead) == Err(if lead == [] then ConnectionClosed else IncompleteRequest)
    ensures ParseResponse(lead) == Err(IncompleteRequest)
  {
    if lead == CRLF {
      assert CRLF[0..] == CRLF && CRLF[..2] == CRLF && CRLF[2..] == [];
      LineLenOfLine(CRLF, []);
      assert CRLF + [] == CRLF;
      assert SkipEmptyLines(CRLF) == [];
      assert StripEol([]) == [];
    }
  }

  /** All requests and their bodies up to the first one with trailers, which are then taken for a
      request; or all, and the end of the connection, which an empty line left over turns into an
      incomplete request. */
  function SessionOf(lead: bytes, reqs: seq<Request>): Session
  {
    var i := FirstTrailers(reqs);
    if i < |reqs| then Session(Sent(reqs[..i + 1]), ParseError.Invalid)
    else Session(Sent(reqs), if LastLeftOver(lead, reqs) == [] then ConnectionClosed else IncompleteRequest)
  }

  lemma SessionStep(lead: bytes, reqs: seq<Request>)
    requires reqs != []
    ensures var first, rest := Received(SentHead(reqs[0]), SentBody(reqs[0])), SessionOf(RequestLeftOver(reqs[0]), reqs[1..]);
            SessionOf(lead, reqs) == if SendsTrailers(reqs[0]) then Session([first], ParseError.Invalid)
                                     else Session([first] + rest.received, rest.error)
  {
    hide SentHead, SentBody, SendsTrailers, RequestLeftOver, Sent;
    var r, i := reqs[0], FirstTrailers(reqs);
    if SendsTrailers(r) {
      assert reqs[..1] == [r] + [];
      MoreSent(r, []);
      NothingSent();
    } else if i < |reqs| {
      TakeOneMore(reqs, i + 1);
      MoreSent(r, reqs[1..][..i]);
    } else {
      assert reqs == [r] + reqs[1..];
      MoreSent(r, reqs[1..]);
    }
  }

  lemma NothingSent()
    ensures Sent([]) == []
  {
  }

  /** Pipelined requests are received one by one, heads and bodies, in order: the empty line behind
      a chunked body is absorbed by the next head, but trailers are not. */
  lemma {:induction false} PipelinedRoundTrip(lead: bytes, reqs: seq<Request>)
    requires IsLead(lead)
    requires forall i :: 0 <= i < |reqs| ==> GoodRequest(reqs[i]) && TrailersAreFields(reqs[i].body)
    ensures ReceiveAll(lead + WireAll(reqs)) == SessionOf(lead, reqs)
    decreases reqs
  {
    hide ParseRequest, FullRead, GoodRequest, SentHead, SentBody, RequestLeftOver, RequestWire, SendsTrailers,
         TrailersAreFields, SessionOf, ReceiveAll;
    if reqs == [] {
      assert lead + WireAll(reqs) == lead;
      ReceiveNothing(lead);
    } else {
      var r, tail := reqs[0], WireAll(reqs[1..]);
      assert GoodRequest(r) && TrailersAreFields(r.body);
      assert lead + WireAll(reqs) == lead + RequestWire(r).out + tail;
      ReceiveFirst(lead, r, tail);
      SessionStep(lead, reqs);
      if SendsTrailers(r) {
        TrailersEnd(r, tail);
      } else {
        PlainLeftOver(r);
        PipelinedRoundTrip(RequestLeftOver(r), reqs[1..]);
      }
    }
  }

  lemma ReceiveNothing(lead: bytes)
    requires IsLead(lead)
    ensures ReceiveAll(lead) == SessionOf(lead, [])
  {
    hide ParseRequest;
    NothingToParse(lead);
  }

  lemma ReceiveFirst(lead: bytes, r: Request, tail: bytes)
    requires IsLead(lead) && GoodRequest(r)
    ensures var rest := ReceiveAll(RequestLeftOver(r) + tail);
            ReceiveAll(lead + RequestWire(r).out + tail)
            == Session([Received(SentHead(r), SentBody(r))] + rest.received, rest.error)
  {
    hide ParseRequest, FullRead, GoodRequest, SentHead, SentBody, RequestLeftOver, RequestWire, IntactRequest;
    RequestRoundTrip(lead, r, tail);
  }

  lemma TrailersEnd(r: Request, tail: bytes)
    requires GoodRequest(r) && TrailersAreFields(r.body) && SendsTrailers(r)
    ensures ReceiveAll(RequestLeftOver(r) + tail) == Session([], ParseError.Invalid)
  {
    hide ParseRequest, FullRead, GoodRequest, ChooseRequest, ChunksView, TrailersOf, FieldLines, GoodField;
    TrailersAreNoRequest(TrailersOf([], ChunksView(r.body)), tail);
  }

  lemma MoreSent(r: Request, reqs: seq<Request>)
    ensures Sent([r] + reqs) == [Received(SentHead(r), SentBody(r))] + Sent(reqs)
  {
    assert ([r] + reqs)[1..] == reqs;
  }

  /** A pipeline is received in full, heads and bodies, if and only if no request before the last one
      has trailers; and the bodies are the clients' own, where those are intact. */
  lemma PipelineIsReceived(lead: bytes, reqs: seq<Request>)
    requires IsLead(lead)
    requires forall i :: 0 <= i < |reqs| ==> GoodRequest(reqs[i]) && TrailersAreFields(reqs[i].body)
    ensures ReceiveAll(lead + WireAll(reqs)).received == Sent(reqs)
            <==> forall j :: 0 <= j < |reqs| - 1 ==> !SendsTrailers(reqs[j])
    ensures forall j :: 0 <= j < |reqs| ==>
              && |Sent(reqs)| == |reqs| && Sent(reqs)[j].head == SentHead(reqs[j])
              && (IntactRequest(reqs[j]) ==> BytesView(reqs[j].body) == Some(Sent(reqs)[j].data))
  {
    hide ReceiveAll, WireAll, GoodRequest, SentHead, SentBody, SendsTrailers, Sent, IntactRequest,
         TrailersAreFields, LastLeftOver;
    PipelinedRoundTrip(lead, reqs);
    var i := FirstTrailers(reqs);
    SentLength(reqs);
    if i < |reqs| { SentLength(reqs[..i + 1]); assert i == |reqs| - 1 ==> reqs[..i + 1] == reqs; }
    forall j | 0 <= j < |reqs|
      ensures Sent(reqs)[j].head == SentHead(reqs[j])
      ensures IntactRequest(reqs[j]) ==> BytesView(reqs[j].body) == Some(Sent(reqs)[j].data)
    {
      SentAt(reqs, j);
    }
  }

  lemma PlainLeftOver(r: Request)
    requires PlainRequest(r)
    ensures IsLead(RequestLeftOver(r))
    ensures RequestLeftOver(r) == if SentInChunks(r) then CRLF else []
  {
    LeftOverIsLead(ChooseRequest(r.head, r.body.Len()).encoding, r.body);
  }

  // ----- answers -----

  /** Parsing responses, each with its body read to the end, until the parser fails. */
  function ReadResponses(s: bytes): seq<(nat, bytes)>
    decreases |s|
  {
    match ParseResponse(s)
    case Err(_) => []
    case Ok(p) =>
      var t := FullRead(p.framing, s[p.start..]);
      [(p.head.code, t.data)] + ReadResponses(s[p.start..][t.used..])
  }

  predicate PlainResponse(r: Response)
  {
    GoodResponse(r) && !r.reply.upgrade && !LeavesTrailers(ResponseChoice(r).encoding, r.body)
  }

  /** The service's answer can be written and parsed: no upgrade and no trailers. */
  predicate PlainAnswer(h: RequestHead, data: bytes, app: App, i: nat)
  {
    app.call(h, data).Some? && PlainResponse(FixUp(h, app.call(h, data).value, app, i))
  }

  /** What the service is given of the body. */
  function GivenBody(r: Request, app: App): bytes
  {
    if app.wantsBody(SentHead(r)) then SentBody(r) else []
  }

  /** A plain request without expectation, HEAD or CONNECT, whose body the service reads if it is
      chunked, and which it answers plainly as the i-th one. */
  predicate ServedRequest(r: Request, app: App, i: nat)
  {
    && PlainRequest(r)
    && var h := SentHead(r);
    && !ExpectsContinue(h.headers) && h.verb != HEAD && h.verb != CONNECT
    && (SentInChunks(r) ==> app.wantsBody(h))
    && PlainAnswer(h, GivenBody(r, app), app, i)
  }

  /** The statuses and bodies that the service gives, up to and including the first closing one. */
  function Expected(reqs: seq<Request>, app: App, i: nat): seq<(nat, bytes)>
  {
    if reqs == [] then []
    else
      var h := SentHead(reqs[0]);
      var res := app.call(h, GivenBody(reqs[0], app));
      if res.None? then []
      else
        var fixed := FixUp(h, res.value, app, i);
        var c := ResponseChoice(fixed);
        if c.Refused? then []
        else
          [(fixed.reply.code, Delivered(c.encoding, fixed.body))]
          + if ServerEnds(h, OutcomeOf(fixed.reply, c.encoding, c.headers)) then [] else Expected(reqs[1..], app, i + 1)
  }

  /** What the loop does with one request of a pipeline, and where it goes on. */
  lemma ServeOne(lead: bytes, r: Request, tail: bytes, app: App, i: nat)
    requires IsLead(lead) && ServedRequest(r, app, i)
    ensures var h := SentHead(r);
            var data := GivenBody(r, app);
            var es := Respond(h, data, app, i);
            Serve(lead + RequestWire(r).out + tail, app, i)
            == [Got(h, data), Called(h, data)] + es + if es[|es| - 1].Done? then [] else Serve(RequestLeftOver(r) + tail, app, i + 1)
  {
    hide ParseRequest, GoodRequest, SentHead, SentBody, RequestLeftOver, RequestWire, Respond, Serve, FullRead,
         DropUsed, PlainAnswer, SentInChunks, SendsTrailers, IntactRequest;
    var s := lead + RequestWire(r).out + tail;
    RequestRoundTrip(lead, r, tail);
    SentFraming(lead, r, tail);
    var p := ParseRequest(s).value;
    ServeStep(s, app, i);
    DropIsRead(p.framing, s[p.start..]);
  }

  /** Dropping a body that is not chunked moves the connection as far as reading it. */
  lemma DropIsRead(f: Framing, s: bytes)
    ensures !f.InChunks? ==> DropUsed(f, s) == FullRead(f, s).used
  {
  }

  /** What answering one plain request writes, and whether it ends the loop. */
  lemma RespondPlainly(h: RequestHead, data: bytes, app: App, i: nat)
    requires PlainAnswer(h, data, app, i) && (h.version.Http10? || h.version.Http11?)
    requires h.verb != HEAD && h.verb != CONNECT
    ensures var es := Respond(h, data, app, i);
            var fixed := FixUp(h, app.call(h, data).value, app, i);
            var c := ResponseChoice(fixed);
            && c.Chosen? && PlainResponse(fixed)
            && Output(es) == ResponseWire(fixed, true).out
            && (es[|es| - 1].Done? <==> ServerEnds(h, OutcomeOf(fixed.reply, c.encoding, c.headers)))
            && (c.encoding.CloseDelimited? ==> es[|es| - 1].Done?)
  {
    hide Respond, FixUp, ResponseWire, ChooseResponse, HasOption, Output, DemandsClose, GoodResponse;
    var es := Respond(h, data, app, i);
    var fixed := FixUp(h, app.call(h, data).value, app, i);
    WireIsWritten(fixed);
    PlainEvents(h, data, app, i, app.call(h, data).value);
    if |es| == 2 {
      assert es == [es[0]] + [es[1]];
      OutputAppend([es[0]], [es[1]]);
      OutputOne(es[1]);
    } else {
      assert es == [es[0]];
    }
    OutputOne(es[0]);
  }

  /** The events of an answer that is written in full and upgrades nothing. */
  lemma PlainEvents(h: RequestHead, data: bytes, app: App, i: nat, res: Response)
    requires h.verb != HEAD && h.verb != CONNECT && app.call(h, data) == Some(res)
    requires var fixed := FixUp(h, res, app, i);
             ResponseWire(fixed, true).ok && !fixed.reply.upgrade
    ensures var fixed := FixUp(h, res, app, i);
            var c := ResponseChoice(fixed);
            var outcome := OutcomeOf(fixed.reply, c.encoding, c.headers);
            Respond(h, data, app, i)
            == [Answer(h, res, fixed, ResponseWire(fixed, true).out, outcome)]
               + if ServerEnds(h, outcome) then [Done(Closing)] else []
  {
    hide FixUp, ResponseWire, ChooseResponse, HasOption, DemandsClose;
  }

  lemma WireIsWritten(r: Response)
    requires GoodResponse(r)
    ensures ResponseWire(r, true).ok && ResponseChoice(r).Chosen?
  {
    hide FullRead, LeftOver, Delivered, ResponseWire, ParseResponse, Faithful, FramableResponse, Coding,
         DeclaredLength, HasOption, IntactResponse, GoodFields, Text;
    ResponseRoundTrip([], r, []);
  }

  lemma HeadComesBack(r: Response)
    requires GoodResponse(r)
    ensures var p := ParseResponse(ResponseWire(r, true).out);
            p.Ok? && p.value.head == ResponseHead(r.reply.code, r.reply.version, ResponseChoice(r).headers)
  {
    hide FullRead, LeftOver, Delivered, ResponseWire, ParseResponse, GoodResponse, IntactResponse, ChooseResponse;
    ResponseRoundTrip([], r, []);
    assert [] + ResponseWire(r, true).out + [] == ResponseWire(r, true).out;
  }

  lemma SentVersion(r: Request)
    requires GoodRequest(r)
    ensures SentHead(r).version.Http10? || SentHead(r).version.Http11?
  {
    ChosenNeverClose(r.head, r.body.Len());
  }

  lemma RoundOutput(h: RequestHead, data: bytes, es: seq<Event>, rest: seq<Event>)
    ensures Output([Got(h, data), Called(h, data)] + es + rest) == Output(es) + Output(rest)
  {
    hide Output;
    var first := [Got(h, data), Called(h, data)];
    OutputOne(Got(h, data));
    OutputOne(Called(h, data));
    OutputAppend([Got(h, data)], [Called(h, data)]);
    assert first == [Got(h, data)] + [Called(h, data)];
    assert Output(first) == [];
    OutputAppend(first, es);
    OutputAppend(first + es, rest);
    assert [] + Output(es) == Output(es);
  }

  lemma ReadNothing(lead: bytes)
    requires IsLead(lead)
    ensures ReadResponses(lead + []) == []
  {
    NothingToParse(lead);
    assert lead + [] == lead;
  }

  lemma ReadStep(s: bytes, head: ResponseHead, data: bytes, rest: bytes)
    requires Reads(s, head, data, rest)
    ensures ReadResponses(s) == [(head.code, data)] + ReadResponses(rest)
  {
  }

  /** What reading one message off `s` gives: status and body, and what is left. */
  predicate Reads(s: bytes, head: ResponseHead, data: bytes, rest: bytes)
  {
    && var p := ParseResponse(s);
    && p.Ok? && p.value.head == head
    && var t := FullRead(p.value.framing, s[p.value.start..]);
    t.data == data && s[p.value.start..][t.used..] == rest
  }

  /** Reading one response off the output; nothing follows one that runs to the end. */
  lemma ReadOne(left: bytes, r: Response, tail: bytes)
    requires IsLead(left) && GoodResponse(r) && ResponseChoice(r).Chosen?
    requires ResponseChoice(r).encoding.CloseDelimited? ==> tail == []
    ensures var c := ResponseChoice(r);
            Reads(left + ResponseWire(r, true).out + tail, ResponseHead(r.reply.code, r.reply.version, c.headers),
                  Delivered(c.encoding, r.body), LeftOver(c.encoding, r.body) + tail)
  {
    hide ParseResponse, FullRead, GoodResponse, ResponseWire, Delivered, ChooseResponse, FieldLines,
         TrailersOf, ChunksView, IntactResponse;
    var e := ResponseChoice(r).encoding;
    ResponseRoundTrip(left, r, tail);
    assert e.CloseDelimited? ==> Delivered(e, r.body) + tail == Delivered(e, r.body) && LeftOver(e, r.body) + tail == [];
    assert !e.CloseDelimited? ==> Delivered(e, r.body) + [] == Delivered(e, r.body);
  }

  /** The exchange at the front of a pipeline, as the client reads it. */
  lemma OneExchange(lead: bytes, left: bytes, r: Request, tail: bytes, app: App, i: nat)
    requires IsLead(lead) && IsLead(left) && ServedRequest(r, app, i)
    ensures var h := SentHead(r);
            var data := GivenBody(r, app);
            app.call(h, data).Some? &&
            var fixed := FixUp(h, app.call(h, data).value, app, i);
            var c := ResponseChoice(fixed);
            && c.Chosen? && IsLead(LeftOver(c.encoding, fixed.body)) && !fixed.reply.upgrade
            && Reads(left + Output(Serve(lead + RequestWire(r).out + tail, app, i)),
                     ResponseHead(fixed.reply.code, fixed.reply.version, c.headers), Delivered(c.encoding, fixed.body),
                     LeftOver(c.encoding, fixed.body)
                     + if ServerEnds(h, OutcomeOf(fixed.reply, c.encoding, c.headers)) then []
                       else Output(Serve(RequestLeftOver(r) + tail, app, i + 1)))
  {
    hide GoodRequest, SentHead, SentBody, RequestLeftOver, RequestWire, SendsTrailers, LeavesTrailers, Respond,
         FixUp, ResponseWire, GoodResponse, ChooseResponse, Delivered, LeftOver, ServerEnds, OutcomeOf, Serve,
         Output, SentInChunks, Reads;
    var h := SentHead(r);
    var data := GivenBody(r, app);
    var es := Respond(h, data, app, i);
    SentVersion(r);
    ServeOne(lead, r, tail, app, i);
    RespondPlainly(h, data, app, i);
    var rest := if es[|es| - 1].Done? then [] else Serve(RequestLeftOver(r) + tail, app, i + 1);
    var fixed := FixUp(h, app.call(h, data).value, app, i);
    RoundOutput(h, data, es, rest);
    OutputNone();
    assert left + (ResponseWire(fixed, true).out + Output(rest)) == left + ResponseWire(fixed, true).out + Output(rest);
    ReadOne(left, fixed, Output(rest));
    LeftOverIsLead(ResponseChoice(fixed).encoding, fixed.body);
  }

  lemma {:induction false} ServedInOrder(lead: bytes, left: bytes, reqs: seq<Request>, app: App, i: nat)
    requires IsLead(lead) && IsLead(left)
    requires forall k :: 0 <= k < |reqs| ==> ServedRequest(reqs[k], app, i + k)
    ensures ReadResponses(left + Output(Serve(lead + WireAll(reqs), app, i))) == Expected(reqs, app, i)
    decreases reqs
  {
    hide ServedRequest, GivenBody, IsLead, SentHead, SentBody, RequestLeftOver, RequestWire, FixUp,
         ChooseResponse, Delivered, LeftOver, ServerEnds, OutcomeOf, Serve, Output, ReadResponses, Reads;
    if reqs == [] {
      ServedNothing(lead, left, app, i);
      assert lead + WireAll(reqs) == lead;
    } else {
      var r, tail := reqs[0], WireAll(reqs[1..]);
      assert lead + WireAll(reqs) == lead + RequestWire(r).out + tail;
      assert ServedRequest(r, app, i + 0);
      OneExchange(lead, left, r, tail, app, i);
      ServedLeftOver(r, app, i);
      ServedRest(reqs, app, i);
      var h := SentHead(r);
      var fixed := FixUp(h, app.call(h, GivenBody(r, app)).value, app, i);
      var c := ResponseChoice(fixed);
      var behind := LeftOver(c.encoding, fixed.body);
      var more := if ServerEnds(h, OutcomeOf(fixed.reply, c.encoding, c.headers)) then []
                  else Output(Serve(RequestLeftOver(r) + tail, app, i + 1));
      ReadStep(left + Output(Serve(lead + RequestWire(r).out + tail, app, i)),
               ResponseHead(fixed.reply.code, fixed.reply.version, c.headers), Delivered(c.encoding, fixed.body), behind + more);
      ReadNothing(behind);
      ServedInOrder(RequestLeftOver(r), behind, reqs[1..], app, i + 1);
    }
  }

  lemma ServedRest(reqs: seq<Request>, app: App, i: nat)
    requires reqs != [] && forall k :: 0 <= k < |reqs| ==> ServedRequest(reqs[k], app, i + k)
    ensures forall k :: 0 <= k < |reqs[1..]| ==> ServedRequest(reqs[1..][k], app, i + 1 + k)
  {
    hide ServedRequest;
    forall k | 0 <= k < |reqs[1..]| ensures ServedRequest(reqs[1..][k], app, i + 1 + k) {
      assert ServedRequest(reqs[k + 1], app, i + (k + 1));
    }
  }

  /** Neither body of an exchange has an error or can be over-read. */
  predicate IntactExchange(r: Request, app: App, i: nat)
  {
    var h := SentHead(r);
    var res := app.call(h, GivenBody(r, app));
    (app.wantsBody(h) ==> IntactRequest(r)) && res.Some? && IntactResponse(FixUp(h, res.value, app, i))
  }

  /** The statuses and bodies that the service gives, being given the bodies of the requests. */
  function Given(reqs: seq<Request>, app: App, i: nat): seq<(nat, bytes)>
  {
    if reqs == [] then []
    else
      var h := SentHead(reqs[0]);
      var res := app.call(h, if app.wantsBody(h) then BytesView(reqs[0].body).GetOr([]) else []);
      if res.None? then []
      else
        var fixed := FixUp(h, res.value, app, i);
        var c := ResponseChoice(fixed);
        if c.Refused? then []
        else
          [(res.value.reply.code, BytesView(res.value.body).GetOr([]))]
          + if ServerEnds(h, OutcomeOf(fixed.reply, c.encoding, c.headers)) then [] else Given(reqs[1..], app, i + 1)
  }

  lemma IntactBodies(r: Request, app: App, i: nat)
    requires IntactExchange(r, app, i)
    ensures var h := SentHead(r);
            && GivenBody(r, app) == (if app.wantsBody(h) then BytesView(r.body).GetOr([]) else [])
            && var res := app.call(h, GivenBody(r, app)).value;
            var fixed := FixUp(h, res, app, i);
            && ResponseChoice(fixed).Chosen? && fixed.reply.code == res.reply.code
            && BytesView(res.body) == Some(Delivered(ResponseChoice(fixed).encoding, fixed.body))
  {
    hide ChooseResponse, Delivered, Intact, Set, SentHead, SentBody, IntactRequest;
    IntactIsSent(r);
    var h := SentHead(r);
    var res := app.call(h, GivenBody(r, app)).value;
    var fixed := FixUp(h, res, app, i);
    IntactIsDelivered(ResponseChoice(fixed).encoding, fixed.body);
  }

  lemma {:induction false} ExpectedIsGiven(reqs: seq<Request>, app: App, i: nat)
    requires forall k :: 0 <= k < |reqs| ==> IntactExchange(reqs[k], app, i + k)
    ensures Expected(reqs, app, i) == Given(reqs, app, i)
    decreases reqs
  {
    hide IntactExchange, FixUp, ChooseResponse, Delivered, BytesView, ServerEnds, OutcomeOf, SentHead, GivenBody;
    if reqs != [] {
      assert IntactExchange(reqs[0], app, i + 0);
      IntactBodies(reqs[0], app, i);
      forall k | 0 <= k < |reqs[1..]| ensures IntactExchange(reqs[1..][k], app, i + 1 + k) {
        assert IntactExchange(reqs[k + 1], app, i + (k + 1));
      }
      ExpectedIsGiven(reqs[1..], app, i + 1);
    }
  }

  /** End to end: the client that reads the server's output gets, in request order, the statuses and
      bodies that the service gave to the requests it was sent, up to and including the first
      response that closes. Of a body with an error, or longer than it says, that is what the writer
      sends; any other is given and got as it is. */
  lemma EndToEnd(lead: bytes, left: bytes, reqs: seq<Request>, app: App, i: nat)
    requires IsLead(lead) && IsLead(left)
    requires forall k :: 0 <= k < |reqs| ==> ServedRequest(reqs[k], app, i + k)
    ensures var got := ReadResponses(left + Output(Serve(lead + WireAll(reqs), app, i)));
            && got == Expected(reqs, app, i)
            && ((forall k :: 0 <= k < |reqs| ==> IntactExchange(reqs[k], app, i + k)) ==> got == Given(reqs, app, i))
  {
    hide ServedRequest, IntactExchange, Expected, Given, Serve, Output, ReadResponses, WireAll;
    ServedInOrder(lead, left, reqs, app, i);
    if forall k :: 0 <= k < |reqs| ==> IntactExchange(reqs[k], app, i + k) { ExpectedIsGiven(reqs, app, i); }
  }

  lemma ServedLeftOver(r: Request, app: App, i: nat)
    requires ServedRequest(r, app, i)
    ensures IsLead(RequestLeftOver(r))
  {
    PlainLeftOver(r);
  }

  lemma ServeNothing(lead: bytes, app: App, i: nat)
    requires IsLead(lead)
    ensures exists end :: Serve(lead, app, i) == [Done(end)]
  {
    hide ParseRequest;
    NothingToParse(lead);
    assert Serve(lead, app, i) == [Done(if lead == [] then PeerClosed else BadRequest(IncompleteRequest))];
  }

  lemma ServedNothing(lead: bytes, left: bytes, app: App, i: nat)
    requires IsLead(lead) && IsLead(left)
    ensures ReadResponses(left + Output(Serve(lead, app, i))) == []
  {
    hide Serve, Output, ReadResponses;
    ServeNothing(lead, app, i);
    var end :| Serve(lead, app, i) == [Done(end)];
    OutputOne(Done(end));
    ReadNothing(left);
  }

  /** The server answers a request without waiting for the next: what it writes on the first ones
      is the beginning of what it writes on all, so a client may read each answer before it sends
      on. */
  lemma {:induction false} AnswersDoNotWait(lead: bytes, reqs: seq<Request>, n: nat, app: App, i: nat)
    requires IsLead(lead) && n <= |reqs|
    requires forall k :: 0 <= k < |reqs| ==> ServedRequest(reqs[k], app, i + k)
    ensures Output(Serve(lead + WireAll(reqs[..n]), app, i)) <= Output(Serve(lead + WireAll(reqs), app, i))
    decreases reqs
  {
    hide ServedRequest, GivenBody, IsLead, SentHead, RequestLeftOver, RequestWire, Respond, Serve, Output;
    if n == 0 {
      ServeNothing(lead, app, i);
      var end :| Serve(lead, app, i) == [Done(end)];
      OutputOne(Done(end));
      assert lead + WireAll(reqs[..0]) == lead;
    } else {
      var r := reqs[0];
      assert ServedRequest(r, app, i + 0);
      assert reqs[..n][1..] == reqs[1..][..n - 1] && reqs[..n][0] == r;
      ServeFirst(lead, r, WireAll(reqs[1..][..n - 1]), app, i);
      ServeFirst(lead, r, WireAll(reqs[1..]), app, i);
      assert lead + WireAll(reqs[..n]) == lead + RequestWire(r).out + WireAll(reqs[1..][..n - 1]);
      assert lead + WireAll(reqs) == lead + RequestWire(r).out + WireAll(reqs[1..]);
      ServedLeftOver(r, app, i);
      ServedRest(reqs, app, i);
      AnswersDoNotWait(RequestLeftOver(r), reqs[1..], n - 1, app, i + 1);
    }
  }

  lemma ServeFirst(lead: bytes, r: Request, tail: bytes, app: App, i: nat)
    requires IsLead(lead) && ServedRequest(r, app, i)
    ensures var es := Respond(SentHead(r), GivenBody(r, app), app, i);
            Output(Serve(lead + RequestWire(r).out + tail, app, i))
            == Output(es) + if es[|es| - 1].Done? then [] else Output(Serve(RequestLeftOver(r) + tail, app, i + 1))
  {
    hide ServedRequest, GivenBody, IsLead, SentHead, RequestLeftOver, RequestWire, Respond, Serve, Output;
    var h, data := SentHead(r), GivenBody(r, app);
    var es := Respond(h, data, app, i);
    ServeOne(lead, r, tail, app, i);
    RoundOutput(h, data, es, if es[|es| - 1].Done? then [] else Serve(RequestLeftOver(r) + tail, app, i + 1));
    OutputNone();
  }

  // ----- a service to which this applies -----

  const OK_TEXT: bytes := Ascii("OK")

  /** The body received, passed on: without a length if it came in chunks. */
  function EchoBody(h: RequestHead, data: bytes): BodyValue
  {
    if Coding(h.headers) != Some(true) then Buffered(data)
    else Iter(if data == [] then [] else [Data(data)])
  }

  /** The service of the client's tests: status 200 and the body received. */
  function Echo(clock: nat -> bytes): App
  {
    App(h => Status(100, OK_TEXT), h => true,
        (h, data) => Some(Response(Reply(200, OK_TEXT, Http11, [], false), EchoBody(h, data))),
        clock, value => true)
  }

  lemma {:induction false} SetGoodField(hs: Headers, f: Field)
    requires GoodField(f) && forall i :: 0 <= i < |hs| ==> GoodField(hs[i])
    ensures |Set(hs, f.name, f.value)| <= |hs| + 1
    ensures forall i :: 0 <= i < |Set(hs, f.name, f.value)| ==> GoodField(Set(hs, f.name, f.value)[i])
    decreases hs
  {
    hide GoodField;
    if hs != [] {
      if hs[0].name == f.name { RemoveGoodField(hs[1..], f.name); } else { SetGoodField(hs[1..], f); }
    }
  }

  lemma {:induction false} RemoveGoodField(hs: Headers, name: bytes)
    requires forall i :: 0 <= i < |hs| ==> GoodField(hs[i])
    ensures |Remove(hs, name)| <= |hs|
    ensures forall i :: 0 <= i < |Remove(hs, name)| ==> GoodField(Remove(hs, name)[i])
    decreases hs
  {
    hide GoodField;
    if hs != [] { RemoveGoodField(hs[1..], name); }
  }

  lemma KnownFields(now: bytes, n: nat)
    requires Text(now) && Trimmed(now)
    ensures GoodField(Field(CONNECTION, CLOSE)) && GoodField(Field(DATE, now))
    ensures GoodField(Field(CONTENT_LENGTH, Numeral(n, 10))) && GoodField(Field(TRANSFER_ENCODING, CHUNKED))
  {
    NameIsGood(CONNECTION);
    NameIsGood(DATE);
    NameIsGood(CONTENT_LENGTH);
    NameIsGood(TRANSFER_ENCODING);
    var digits := Numeral(n, 10);
    assert forall k :: 0 <= k < |digits| ==> IsDigit(digits[k], 10);
  }

  lemma NameIsGood(name: bytes)
    requires name != [] && forall i :: 0 <= i < |name| ==> 97 <= name[i] <= 122 || name[i] == 45
    ensures Token(name) && Lower(name) == name
  {
  }

  /** What the loop makes of the echo service's response, and how it is sent. */
  lemma EchoResponse(h: RequestHead, data: bytes, clock: nat -> bytes, i: nat)
    ensures var fixed := FixUp(h, Echo(clock).call(h, data).value, Echo(clock), i);
            var hs := fixed.reply.headers;
            && fixed.reply.code == 200 && fixed.reply.reason == OK_TEXT && fixed.reply.version == h.version
            && !fixed.reply.upgrade && fixed.body == EchoBody(h, data)
            && Coding(hs) == None && DeclaredLength(hs).Absent?
            && ResponseChoice(fixed) ==
                 if fixed.body.Buffered? then Chosen(FixedLength(|data|), Set(hs, CONTENT_LENGTH, Numeral(|data|, 10)))
                 else if h.version.Http11? && !HasOption(hs, CLOSE) then Chosen(Chunked, Set(hs, TRANSFER_ENCODING, CHUNKED))
                 else Chosen(CloseDelimited, if HasOption(hs, CLOSE) then hs else Set(hs, CONNECTION, CLOSE))
  {
    hide Numeral, HasOption, DeclaredLength, Coding, HasDate, Set, Values;
    var hs := if h.version.Http10? && !AsksToPersist10(h) then Set([], CONNECTION, CLOSE) else [];
    NothingDeclared();
    LookupsAfterSet([], CONNECTION, CLOSE);
    LookupsAfterSet(hs, DATE, clock(i));
  }

  lemma NothingDeclared()
    ensures Coding([]) == None && DeclaredLength([]).Absent?
    ensures !HasOption([], CLOSE)
  {
  }

  lemma EchoFields(h: RequestHead, data: bytes, clock: nat -> bytes, i: nat)
    requires Text(clock(i)) && Trimmed(clock(i))
    ensures var c := ResponseChoice(FixUp(h, Echo(clock).call(h, data).value, Echo(clock), i));
            c.Chosen? && GoodFields(c.headers)
  {
    hide GoodField, Numeral, HasOption, DeclaredLength, Coding, HasDate, Set, ChooseResponse, Text, Trimmed;
    var hs := if h.version.Http10? && !AsksToPersist10(h) then Set([], CONNECTION, CLOSE) else [];
    EchoResponse(h, data, clock, i);
    KnownFields(clock(i), |data|);
    SetGoodField([], Field(CONNECTION, CLOSE));
    SetGoodField(hs, Field(DATE, clock(i)));
    var fixed := FixUp(h, Echo(clock).call(h, data).value, Echo(clock), i);
    SetGoodField(fixed.reply.headers, Field(CONTENT_LENGTH, Numeral(|data|, 10)));
    SetGoodField(fixed.reply.headers, Field(TRANSFER_ENCODING, CHUNKED));
    SetGoodField(fixed.reply.headers, Field(CONNECTION, CLOSE));
  }

  /** The views of the echoed body. */
  lemma EchoViews(h: RequestHead, data: bytes)
    requires |data| <= U64_MAX
    ensures var c := EchoBody(h, data);
            && BytesView(c) == Some(data) && ReaderView(c) == data && TrailersOf([], ChunksView(c)) == []
            && c.ErrorFree() && (c.Iter? ==> ChunksOf(ChunksView(c)) == if data == [] then [] else [data])
  {
    var c := EchoBody(h, data);
    if data != [] {
      assert [Data(data)][1..] == [] && DataBefore([]) == [] && BeforeError([]) == [] && ChunksOf([]) == [];
      assert data + [] == data;
    }
  }

  lemma OneChunk(data: bytes)
    ensures Concat(if data == [] then [] else [data]) == data
  {
    assert data + [] == data && [data][1..] == [];
  }

  /** The echo service answers plainly, whatever it is asked. */
  lemma EchoIsPlain(h: RequestHead, data: bytes, clock: nat -> bytes, i: nat)
    requires h.version.Http10? || h.version.Http11?
    requires |data| <= U64_MAX && Text(clock(i)) && Trimmed(clock(i))
    ensures PlainAnswer(h, data, Echo(clock), i)
    ensures IntactResponse(FixUp(h, Echo(clock).call(h, data).value, Echo(clock), i))
  {
    hide GoodFields, FixUp, Coding, DeclaredLength, HasOption, ChooseResponse, BytesView, ReaderView,
         ChunksView, ChunksOf, TrailersOf;
    EchoResponse(h, data, clock, i);
    EchoFields(h, data, clock, i);
    EchoViews(h, data);
  }

  /** A request to the echo service. */
  predicate EchoRequest(r: Request)
  {
    && PlainRequest(r) && |SentBody(r)| <= U64_MAX
    && var h := SentHead(r);
    h.version.Http11? && !ExpectsContinue(h.headers) && h.verb != HEAD && h.verb != CONNECT
  }

  predicate AsksToClose(r: Request) { HasOption(SentHead(r).headers, CLOSE) }

  function Echoed(reqs: seq<Request>): seq<(nat, bytes)>
  {
    if reqs == [] then [] else [(200, SentBody(reqs[0]))] + Echoed(reqs[1..])
  }

  /** The echo service's response does not say close, so the loop ends only if the request does. */
  lemma EchoKeepsAlive(h: RequestHead, data: bytes, clock: nat -> bytes, i: nat)
    requires h.version.Http11? && |data| <= U64_MAX
    ensures var fixed := FixUp(h, Echo(clock).call(h, data).value, Echo(clock), i);
            var c := ResponseChoice(fixed);
            && c.Chosen? && fixed.reply.code == 200 && Delivered(c.encoding, fixed.body) == data
            && OutcomeOf(fixed.reply, c.encoding, c.headers) == KeepAlive
            && !HasOption(c.headers, CLOSE)
  {
    hide FixUp, Numeral, HasOption, DeclaredLength, Coding, Set, ChooseResponse, ReaderView, BytesView,
         ChunksView, ChunksOf, Concat;
    EchoResponse(h, data, clock, i);
    EchoViews(h, data);
    OneChunk(data);
    NothingDeclared();
    SaysCloseItself(h, Echo(clock).call(h, data).value, Echo(clock), i);
  }

  lemma {:induction false} EchoExpected(reqs: seq<Request>, clock: nat -> bytes, i: nat)
    requires forall k :: 0 <= k < |reqs| ==> EchoRequest(reqs[k]) && !AsksToClose(reqs[k])
    ensures Expected(reqs, Echo(clock), i) == Echoed(reqs)
    decreases reqs
  {
    hide FixUp, ChooseResponse, Delivered, OutcomeOf, SentHead, SentBody, PlainRequest, ExpectsContinue, HasOption;
    if reqs != [] {
      assert EchoRequest(reqs[0]) && !AsksToClose(reqs[0]);
      EchoKeepsAlive(SentHead(reqs[0]), SentBody(reqs[0]), clock, i);
      EchoExpected(reqs[1..], clock, i + 1);
    }
  }

  lemma EchoIsServed(r: Request, clock: nat -> bytes, i: nat)
    requires EchoRequest(r) && Text(clock(i)) && Trimmed(clock(i))
    ensures ServedRequest(r, Echo(clock), i)
  {
    hide PlainAnswer, PlainRequest, SentHead, SentBody, SentInChunks, ExpectsContinue, HasOption;
    EchoIsPlain(SentHead(r), SentBody(r), clock, i);
  }

  lemma {:induction false} EchoedAt(reqs: seq<Request>, j: nat)
    requires j < |reqs|
    ensures |Echoed(reqs)| == |reqs| && Echoed(reqs)[j] == (200, SentBody(reqs[j]))
  {
    hide SentBody;
    if j > 0 { EchoedAt(reqs[1..], j - 1); } else if |reqs| > 1 { EchoedAt(reqs[1..], 0); }
  }

  /** The client of an echo server gets back the bodies that it sent, all of them, in order: of an
      intact body the body itself, and of another what was sent of it. */
  lemma EchoRoundTrip(reqs: seq<Request>, clock: nat -> bytes)
    requires forall k :: 0 <= k < |reqs| ==> EchoRequest(reqs[k]) && !AsksToClose(reqs[k])
    requires forall i: nat :: Text(clock(i)) && Trimmed(clock(i))
    ensures var got := ReadResponses(Output(Serve(WireAll(reqs), Echo(clock), 0)));
            && got == Echoed(reqs)
            && forall j :: 0 <= j < |reqs| ==>
                 && |got| == |reqs| && got[j] == (200, SentBody(reqs[j]))
                 && (IntactRequest(reqs[j]) ==> BytesView(reqs[j].body) == Some(got[j].1))
  {
    hide Serve, Output, ReadResponses, WireAll, Expected, Echoed, EchoRequest, ServedRequest, IntactExchange,
         IntactRequest, SentBody, AsksToClose, BytesView;
    forall k | 0 <= k < |reqs|
      ensures ServedRequest(reqs[k], Echo(clock), 0 + k)
    {
      EchoIsServed(reqs[k], clock, k);
    }
    EndToEnd([], [], reqs, Echo(clock), 0);
    EchoExpected(reqs, clock, 0);
    assert [] + WireAll(reqs) == WireAll(reqs);
    var out := Output(Serve(WireAll(reqs), Echo(clock), 0));
    assert [] + out == out;
    forall j | 0 <= j < |reqs|
      ensures |Echoed(reqs)| == |reqs| && Echoed(reqs)[j] == (200, SentBody(reqs[j]))
      ensures IntactRequest(reqs[j]) ==> BytesView(reqs[j].body) == Some(Echoed(reqs)[j].1)
    {
      EchoedAt(reqs, j);
      IntactIsSent(reqs[j]);
    }
  }

  lemma ClosingRun(r: Request, clock: nat -> bytes, tail: bytes)
    requires EchoRequest(r) && AsksToClose(r) && Text(clock(0)) && Trimmed(clock(0))
    ensures var h, data := SentHead(r), SentBody(r);
            var res := Echo(clock).call(h, data).value;
            var fixed := FixUp(h, res, Echo(clock), 0);
            && Serve(RequestWire(r).out + tail, Echo(clock), 0)
            == [Got(h, data), Called(h, data), Answer(h, res, fixed, ResponseWire(fixed, true).out, KeepAlive), Done(Closing)]
            && GoodResponseHead(fixed)
  {
    hide Serve, Respond, SentHead, SentBody, RequestWire, PlainRequest, FixUp, ChooseResponse, ResponseWire,
         HasOption, ExpectsContinue, ServedRequest, GoodResponse, GoodResponseHead, Delivered, RequestLeftOver, IntactResponse;
    var h, data := SentHead(r), SentBody(r);
    var res := Echo(clock).call(h, data).value;
    var fixed := FixUp(h, res, Echo(clock), 0);
    EchoIsServed(r, clock, 0);
    EchoIsPlain(h, data, clock, 0);
    ServeOne([], r, tail, Echo(clock), 0);
    assert [] + RequestWire(r).out + tail == RequestWire(r).out + tail;
    EchoKeepsAlive(h, data, clock, 0);
    WireIsWritten(fixed);
    GoodIsFaithful(fixed);
    FixUpKeeps(h, res, Echo(clock), 0);
    PlainEvents(h, data, Echo(clock), 0, res);
  }

  lemma EchoIsKept(h: RequestHead, data: bytes, clock: nat -> bytes, i: nat)
    requires h.version.Http11? && |data| <= U64_MAX && Text(clock(i)) && Trimmed(clock(i))
    ensures var fixed := FixUp(h, Echo(clock).call(h, data).value, Echo(clock), i);
            var p := ParseResponse(ResponseWire(fixed, true).out);
            p.Ok? && ClientOutcome(p.value.head) == ClientKeepAlive
  {
    hide FixUp, ChooseResponse, ResponseWire, HasOption, ParseResponse, GoodResponse, Delivered,
         LeavesTrailers, IntactResponse;
    var fixed := FixUp(h, Echo(clock).call(h, data).value, Echo(clock), i);
    EchoIsPlain(h, data, clock, i);
    EchoKeepsAlive(h, data, clock, i);
    HeadComesBack(fixed);
  }

  /** When a request to the echo server asks to close, the server answers and closes, while the client
      that sent it keeps the connection. */
  lemma ClosedButKept(r: Request, clock: nat -> bytes, tail: bytes)
    requires EchoRequest(r) && AsksToClose(r) && Text(clock(0)) && Trimmed(clock(0))
    ensures var es := Serve(RequestWire(r).out + tail, Echo(clock), 0);
            && |es| == 4 && es[0].Got? && es[1].Called? && es[2].Answer? && es[3] == Done(Closing)
            && GoodResponseHead(es[2].res) && !es[2].said.reply.upgrade && es[2].said.reply.code != 101
            && ClosesUnsaid(es[2].head, es[2].said)
            && var p := ParseResponse(es[2].wire);
            p.Ok? && ClientOutcome(p.value.head) == ClientKeepAlive
  {
    hide Serve, SentHead, SentBody, RequestWire, PlainRequest, FixUp, ResponseWire, HasOption, ExpectsContinue,
         ParseResponse, ClientOutcome;
    ClosingRun(r, clock, tail);
    EchoIsKept(SentHead(r), SentBody(r), clock, 0);
    NothingDeclared();
  }

  const CLOSING: RequestHead := RequestHead(GET, [47], Http11, [Field(CONNECTION, CLOSE)])

  lemma ClosingFields()
    ensures var hs := Set(CLOSING.headers, CONTENT_LENGTH, Numeral(0, 10));
            && GoodFields(hs) && HasOption(hs, CLOSE) && !ExpectsContinue(hs)
            && Coding(CLOSING.headers) == None && DeclaredLength(CLOSING.headers).Absent?
  {
    hide Numeral, HasOption, GoodField, Coding, DeclaredLength, Set;
    var hs := CLOSING.headers;
    SetOnNothing(CONNECTION, CLOSE);
    NothingDeclared();
    LookupsAfterSet([], CONNECTION, CLOSE);
    LookupsAfterSet(hs, CONTENT_LENGTH, Numeral(0, 10));
    ValuesOfSet([], CONNECTION, CLOSE, EXPECT);
    ValuesOfSet(hs, CONTENT_LENGTH, Numeral(0, 10), EXPECT);
    SetClose([]);
    KnownFields([], 0);
    SetGoodField([], Field(CONNECTION, CLOSE));
    SetGoodField(hs, Field(CONTENT_LENGTH, Numeral(0, 10)));
  }

  /** Such a request: `GET / HTTP/1.1` with `connection: close`. */
  lemma ClosingRequest()
    ensures EchoRequest(Request(CLOSING, Empty)) && AsksToClose(Request(CLOSING, Empty))
  {
    hide Numeral, HasOption, GoodFields, Coding, DeclaredLength, Set, ExpectsContinue;
    ClosingFields();
  }

  lemma SetOnNothing(name: bytes, value: bytes)
    ensures Set([], name, value) == [Field(name, value)]
  {
  }
}
