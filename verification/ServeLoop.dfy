/** The connection loop of `src/server.rs` with its objects: the read queue, the body that keeps a
    handle of it, and the buffered writer. */
module ServeLoop {
  import opened Bytes
  import opened Streams
  import opened Head
  import opened ChunkedCodec
  import opened Content
  import opened Bodies
  import opened Framing
  import opened Requests
  import opened Responses
  import opened Serving
  import P = QueueProtocol
  import RQ = ReadQueue

  // ----- the body of a request -----

  /** The ways a service leaves a body on the connection where the next request can be read. */
  datatype Usage = Discard | AsBytes | AsReader

  predicate Buffered(inner: BodyInner) { inner.Nothing? || inner.Whole? }

  /** However a body is used up, the connection ends up where the framing says: for a fixed length,
      exactly that many bytes behind the head (or at the end), on either side of the size up to
      which bodies are buffered. */
  method UseBody(body: Body, how: Usage, ghost f: Framing, ghost stream: ByteStream, ghost s: bytes, ghost p: nat)
    returns (data: bytes)
    requires stream.Valid() && p <= |stream.data| && s == stream.data[p..]
    requires body.inner.Some? && BodyIs(body.inner.value, f, stream, s, p)
    requires body !in body.inner.value.Frame()
    modifies body, body.inner.value.Frame(), stream
    ensures stream.Valid() && old(stream.pos) <= stream.pos
    ensures Buffered(old(body.inner.value)) ==> stream.pos == old(stream.pos)
    ensures data == Use(f, s, !how.Discard?).data
    ensures stream.pos == p + Use(f, s, !how.Discard?).used
  {
    ghost var inner := body.inner.value;
    BodyViews(inner, f, stream, s, p);
    match how {
      case Discard =>
        body.Drop();
        data := [];
      case AsBytes =>
        var r := body.IntoBytes();
        data := r.value;
      case AsReader =>
        var reader := body.IntoReader();
        data := ReadAll(reader);
    }
  }

  /** How much of the connection is used when a body is taken in chunks: of a body that is read from
      the connection by its length, all that the reads deliver. */
  ghost function ChunksUsed(f: Framing, src: Source): nat
    requires src.Valid()
  {
    if f.Sized? && f.n >= SMALL then |Concat(ReaderChunks(src, Some(f.n)))| else FullRead(f, src.Rest()).used
  }

  /** Taken as chunks, a body leaves the connection behind all that was read. */
  method TakeChunks(body: Body, ghost f: Framing, ghost stream: ByteStream, ghost s: bytes, ghost p: nat)
    returns (items: seq<Item>)
    requires stream.Valid() && p <= |stream.data| && s == stream.data[p..]
    requires body.inner.Some? && BodyIs(body.inner.value, f, stream, s, p)
    requires body !in body.inner.value.Frame()
    modifies body, body.inner.value.Frame(), stream
    ensures stream.Valid() && old(body.inner.value.Valid()) && items == ChunksView(old(body.inner.value.View()))
    ensures stream.pos == p + ChunksUsed(f, Source(stream.data, stream.burst, p))
  {
    ghost var inner := body.inner.value;
    BodyViews(inner, f, stream, s, p);
    ghost var src := Source(stream.data, stream.burst, p);
    OverReadBound(src, if f.Sized? then Some(f.n) else None);
    var chunks := body.IntoChunks();
    items := CollectChunks(chunks);
  }

  /** Taking a fixed-length body in chunks uses at least the body, and less than one read more; and
      when anything follows the body, there is a pattern of short reads with which it takes some of
      that: the beginning of the next request is lost. */
  lemma ChunksTakeTheNext(src: Source, n: nat) returns (burst: nat -> nat)
    requires src.Valid() && SMALL <= n < |src.Rest()|
    ensures n == FullRead(Sized(n), src.Rest()).used <= ChunksUsed(Sized(n), src) < n + READ_SIZE
    ensures n < ChunksUsed(Sized(n), src.(burst := burst))
  {
    OverReadBound(src, Some(n));
    burst := p => if p + 1 < src.pos + n then 1 else 2;
    OverReadHappens(src.(burst := burst), n);
  }

  method ReadAll(reader: BodyReader) returns (data: bytes)
    requires reader.Valid()
    modifies reader.Frame()
    ensures reader.Valid() && reader.AtEnd() && reader.End() == old(reader.End())
    ensures SameOrigin(old(reader.inner), reader.inner)
    ensures data == old(reader.Remaining())
  {
    var sink := new BufWriter();
    reader.CopyTo(sink);
    data := sink.sent + sink.buffered;
  }

  /** The body of a framing as a value, and where it ends. */
  lemma BodyViews(inner: BodyInner, f: Framing, stream: ByteStream, s: bytes, p: nat)
    requires stream.Valid() && p <= |stream.data| && s == stream.data[p..]
    requires BodyIs(inner, f, stream, s, p)
    ensures inner.Valid()
    ensures BytesView(inner.View()) == Some(FullRead(f, s).data) && ReaderView(inner.View()) == FullRead(f, s).data
    ensures inner.Stream? || inner.Items? ==> inner.End() == p + FullRead(f, s).used && inner.Here() == stream.pos == p
    ensures inner.Nothing? || inner.Whole? ==> stream.pos == p + FullRead(f, s).used
    ensures inner.Items? <==> f.InChunks?
    ensures DropUsed(f, s) == if f.InChunks? then 0 else FullRead(f, s).used
  {
    if f.InChunks? {
      var cs := DecodeAll(s).chunks;
      assert stream.Rest() == s;
      DataItemsData(cs);
      ReadItemsData(DataItems(cs));
      NoErrorFirst(cs);
    }
  }

  lemma NoErrorFirst(chunks: seq<bytes>)
    ensures Failed !in DataItems(chunks) && !ErrorFirst(DataItems(chunks))
  {
    ErrorFirstIsError(DataItems(chunks));
  }

  // ----- the response -----

  lemma RespondUnfolds(h: RequestHead, data: bytes, app: App, i: nat, res: Response)
    requires app.call(h, data) == Some(res)
    ensures var fixed := FixUp(h, res, app, i);
            var w := ResponseWire(fixed, WritesBody(h, fixed.reply.code));
            var c := ResponseChoice(fixed);
            var es := Respond(h, data, app, i);
            && Output(es) == w.out
            && es[|es| - 1] ==
                 if !w.ok then Done(WriteFailed)
                 else
                   var outcome := OutcomeOf(fixed.reply, c.encoding, c.headers);
                   if outcome.Upgrade? then Done(Upgraded)
                   else if ServerEnds(h, outcome) then Done(Closing)
                   else Answer(h, res, fixed, w.out, outcome)
  {
    hide FixUp, ResponseWire, WritesBody, OutcomeOf, DemandsClose, ChooseResponse;
    var es := Respond(h, data, app, i);
    assert es[1..] == [] || (es[1..] == [es[1]] && es[1..][1..] == []);
    assert Output(es[1..]) == [];
    assert Output(es) == Wire(es[0]) + [];
  }

  /** Calls the service and writes its response; None when the loop goes on, with all flushed. */
  method Reply(h: RequestHead, data: bytes, app: App, ghost i: nat, now: bytes, out: BufWriter)
    returns (end: Option<End>, ghost asked: seq<(RequestHead, bytes)>)
    requires now == app.clock(i)
    modifies out
    ensures var es := Respond(h, data, app, i);
            && out.Written() == old(out.Written()) + Output(es)
            && end == if es[|es| - 1].Done? then Some(es[|es| - 1].end) else None
    ensures end == None ==> out.buffered == []
    ensures asked == [(h, data)]
  {
    hide Respond, Output, ResponseWire, OutcomeOf, ChooseResponse, DemandsClose, Set, HasOption, HasDate;
    var called := app.call(h, data);
    asked := [(h, data)];
    if called == None {
      RespondFails(h, data, app, i);
      return Some(ServiceFailed), asked;
    }
    var res := called.value;
    RespondUnfolds(h, data, app, i, res);
    var headers := res.reply.headers;
    if h.version.Http10? && !AsksToPersist10(h) {
      headers := Set(headers, CONNECTION, CLOSE);
    }
    if !HasDate(headers, app.isDate) {
      headers := Set(headers, DATE, now);
    }
    var reply := res.reply.(version := h.version, headers := headers);
    assert FixUp(h, res, app, i) == res.(reply := reply);
    var body := new Body.FromContent(res.body);
    var outcome := SendResponse(reply, body, out, WritesBody(h, reply.code));
    if outcome == None {
      return Some(WriteFailed), asked;
    }
    match outcome.value {
      case KeepAlive =>
        if DemandsClose(h) {
          return Some(Closing), asked;
        }
        out.Flush();
        end := None;
      case Close =>
        end := Some(Closing);
      case Upgrade =>
        end := Some(Upgraded);
    }
  }

  lemma RespondFails(h: RequestHead, data: bytes, app: App, i: nat)
    requires app.call(h, data) == None
    ensures Respond(h, data, app, i) == [Done(ServiceFailed)] && Output([Done(ServiceFailed)]) == []
  {
    assert [Done(ServiceFailed)][1..] == [];
  }

  /** The response to an expectation, flushed. */
  method SendStatus(status: Status, out: BufWriter)
    modifies out
    ensures out.Written() == old(out.Written()) + StatusWire(status)
    ensures out.buffered == []
  {
    var body := new Body(Nothing);
    var _ := SendResponse(Responses.Reply(status.code, status.reason, Http11, [], false), body, out, true);
    out.Flush();
  }

  // ----- the read queue of the loop -----

  /** It is the turn of the last handle: all before it are dropped. */
  ghost predicate Turn(q: RQ.ReadQueue, h: RQ.QueuedReader, n: nat)
    reads q, q.Repr(), h
  {
    && q.Valid() && !q.state.Gone? && |q.handles| == n + 1 && q.handles[n] == h
    && h.Usable() && P.Front(q.Abs().phases) == n
  }

  lemma TurnIsReady(q: RQ.ReadQueue, h: RQ.QueuedReader, n: nat)
    requires Turn(q, h, n)
    ensures h.In(q, n) && !RQ.MustWait(q.Abs(), n)
  {
    var s := q.Abs();
    assert P.Inv(s) && s.phases[n] == h.Phase();
    assert P.Lacking(s.phases[n]) ==> s.full[n - 1];
  }

  /** The handle through which a request was parsed, still held by the body or already dropped. */
  ghost predicate Parsing(q: RQ.ReadQueue, h: RQ.QueuedReader, n: nat)
    reads q, q.Repr(), h
  {
    && q.Valid() && !q.state.Gone? && n < |q.handles| && q.handles[n] == h
    && (h.inner.Some? ==> h.inner == Some(RQ.Current(q.reader)))
    && P.Front(q.Abs().phases) == if h.inner.Some? then n else n + 1
  }

  method DropHandle(q: RQ.ReadQueue, h: RQ.QueuedReader, ghost n: nat)
    requires h.In(q, n) && h.inner.Some? && !RQ.MustWait(q.Abs(), n) && P.Front(q.Abs().phases) == n
    modifies h, q.Channels()
    ensures q.Valid() && h.inner == None && P.Front(q.Abs().phases) == n + 1
    ensures q.Abs().phases == old(q.Abs()).phases[n := P.Dropped]
  {
    hide P.Inv;
    h.Shape(q, n);
    FrontAfterDrop(q.Abs(), n);
    var _ := h.Drop(q, n);
  }

  lemma FrontAfterDrop(s: P.State, n: nat)
    requires P.Inv(s) && P.Front(s.phases) == n < |s.phases|
    ensures P.Front(s.phases[n := P.Dropped]) == n + 1
  {
    var t := s.phases[n := P.Dropped];
    assert n + 1 < |t| ==> P.Lacking(t[n + 1]);
    P.FrontIs(t, n + 1);
  }

  lemma FrontAfterReceive(s: P.State, n: nat)
    requires P.WellShaped(s) && P.Front(s.phases) == n < |s.phases|
    ensures P.Front(RQ.AfterReceive(s, n).phases) == n
  {
    P.FrontIs(RQ.AfterReceive(s, n).phases, n);
  }

  ghost predicate FreshBody(body: Body)
    reads body
  {
    body.inner.Some? && body !in body.inner.value.Frame()
  }

  /** `parse_request` on the last handle. */
  method ParseThrough(q: RQ.ReadQueue, h: RQ.QueuedReader, ghost n: nat)
    returns (r: Result<Incoming<RequestHead>, ParseError>)
    requires Turn(q, h, n) && q.reader.Valid()
    modifies h, q.Channels(), q.reader
    ensures q.reader.Valid() && h.In(q, n) && P.Front(q.Abs().phases) == n
    ensures h.inner == Some(RQ.Current(q.reader))
    ensures RequestFrom(r, old(q.reader.Rest()), q.reader, old(q.reader.pos))
    ensures r.Ok? ==> FreshBody(r.value.body) && fresh(r.value.body) && fresh(r.value.body.inner.value.Frame() - {q.reader})
  {
    hide P.Inv, ParseRequest, RequestFrom, RQ.ReadQueue.Wired, RQ.ReadQueue.Phases, RQ.ReadQueue.Full,
         RQ.ReadQueue.Took;
    TurnIsReady(q, h, n);
    h.Shape(q, n);
    FrontAfterReceive(q.Abs(), n);
    var got := h.Receive(q, n);
    var stream := got.value;
    ghost var mid := q.Abs();
    ghost var from := stream.pos;
    assert stream as object !in q.Links();
    r := ReceiveRequest(stream);
    assert q.Abs().(pos := from) == mid;
    h.Record(q, n, from);
  }

  /** The handle of a request that does not parse, or whose body was buffered, is dropped as
      parsing ends; otherwise the body keeps it. */
  method ParseNext(q: RQ.ReadQueue, h: RQ.QueuedReader, ghost n: nat)
    returns (r: Result<Incoming<RequestHead>, ParseError>)
    requires Turn(q, h, n) && q.reader.Valid()
    modifies h, q.Channels(), q.reader
    ensures q.reader.Valid() && Parsing(q, h, n)
    ensures RequestFrom(r, old(q.reader.Rest()), q.reader, old(q.reader.pos))
    ensures r.Ok? ==> FreshBody(r.value.body) && fresh(r.value.body) && fresh(r.value.body.inner.value.Frame() - {q.reader})
    ensures h.inner == None <==> r.Err? || Buffered(r.value.body.inner.value)
  {
    hide P.Inv, ParseRequest, RequestFrom, RQ.ReadQueue.Wired, RQ.ReadQueue.Phases, RQ.ReadQueue.Full,
         RQ.ReadQueue.Took;
    r := ParseThrough(q, h, n);
    if r.Err? || Buffered(r.value.body.inner.value) {
      h.Shape(q, n);
      DropHandle(q, h, n);
    }
  }

  lemma FrontAfterEnqueue(s: P.State)
    requires P.Inv(s) && s.tail.Next?
    ensures P.Enabled(s, P.Enqueue) && P.Front(P.Apply(s, P.Enqueue).phases) == P.Front(s.phases)
    ensures P.Apply(s, P.Enqueue).phases == s.phases + [P.Waiting]
  {
    P.FrontIs(P.Apply(s, P.Enqueue).phases, P.Front(s.phases));
  }

  lemma SomeHandleMeansNext(q: RQ.ReadQueue)
    requires q.Valid() && |q.handles| > 0 && !q.state.Gone?
    ensures q.Abs().tail.Next? && q.state.Next?
  {
  }

  /** `read_queue.enqueue()` while the last request may still be read. */
  method EnqueueNext(q: RQ.ReadQueue, h: RQ.QueuedReader, ghost n: nat) returns (next: RQ.QueuedReader)
    requires Parsing(q, h, n) && |q.handles| == n + 1
    modifies q
    ensures Parsing(q, h, n) && next.Usable()
    ensures q.handles == old(q.handles) + [next] && q.channels == old(q.channels) + [next.next]
    ensures fresh(next) && fresh(next.next)
  {
    hide P.Inv, RQ.ReadQueue.Wired;
    SomeHandleMeansNext(q);
    FrontAfterEnqueue(q.Abs());
    next := q.Enqueue();
  }

  /** The handle of a body that was read from position `from` on is dropped with it. */
  method ReleaseHandle(q: RQ.ReadQueue, h: RQ.QueuedReader, ghost n: nat, ghost from: nat)
    requires q.Wired() && q.reader.Valid() && n < |q.handles| && q.handles[n] == h
    requires from <= q.reader.pos && P.Inv(q.Abs().(pos := from)) && h.inner == Some(RQ.Current(q.reader))
    requires P.Front(q.Abs().phases) == n
    modifies h, q.Channels()
    ensures q.Valid() && P.Front(q.Abs().phases) == n + 1
  {
    hide P.Inv;
    h.Record(q, n, from);
    DropHandle(q, h, n);
  }

  /** The service is through with the body, and the handle goes with it. */
  method FinishBody(q: RQ.ReadQueue, h: RQ.QueuedReader, ghost n: nat, body: Body, how: Usage,
                    ghost f: Framing, ghost s: bytes, ghost p: nat)
    returns (data: bytes)
    requires Parsing(q, h, n) && q.reader.Valid() && p <= |q.reader.data| && s == q.reader.data[p..]
    requires FreshBody(body) && BodyIs(body.inner.value, f, q.reader, s, p)
    requires h.inner == None <==> Buffered(body.inner.value)
    modifies h, q.Channels(), q.reader, body, body.inner.value.Frame()
    ensures q.Valid() && q.reader.Valid() && P.Front(q.Abs().phases) == n + 1
    ensures data == Use(f, s, !how.Discard?).data
    ensures q.reader.pos == p + Use(f, s, !how.Discard?).used
  {
    hide P.Inv, P.Front, Use, BodyIs, RQ.ReadQueue.Wired, RQ.ReadQueue.Phases, RQ.ReadQueue.Full, RQ.ReadQueue.Took;
    ghost var before := q.Abs();
    ghost var from := q.reader.pos;
    assert q.reader as object !in q.Links();
    data := UseBody(body, how, f, q.reader, s, p);
    assert q.Abs().(pos := from) == before;
    if h.inner != None {
      ReleaseHandle(q, h, n, from);
    }
  }

  // ----- the loop -----

  /** The run of `serve` on `s` leaves the trace `t` and ends with `end`. */
  ghost predicate Runs(s: bytes, app: App, i: nat, t: Trace, end: End)
  {
    var es := Serving.Serve(s, app, i);
    es != [] && es[|es| - 1] == Done(end) && TraceOf(es) == t
  }

  /** Whatever the run does on the input `rest`, on `s` it does after the trace `t`. */
  ghost predicate Leads(s: bytes, app: App, i: nat, t: Trace, rest: bytes, j: nat)
  {
    forall more, end :: Runs(rest, app, j, more, end) ==> Runs(s, app, i, Join(t, more), end)
  }

  lemma RunsOnError(s: bytes, app: App, i: nat)
    requires ParseRequest(s).Err?
    ensures var e := ParseRequest(s).error;
            Runs(s, app, i, Trace(1, [], []), if e.ConnectionClosed? then PeerClosed else BadRequest(e))
  {
    hide ParseRequest, Output, Requested, Asked;
    var es := Serving.Serve(s, app, i);
    OutputOne(es[0]);
    OneEvent(es[0]);
    NothingAsked(es);
    assert es == [es[0]];
  }

  lemma DeclinedStep(s: bytes, app: App, i: nat)
    requires ParseRequest(s).Ok? && Declines(ParseRequest(s).value.head, app)
    ensures var p := ParseRequest(s).value;
            var body := s[p.start..];
            Serving.Serve(s, app, i) == [Got(p.head, []), Declined(p.head, StatusWire(app.shouldContinue(p.head)))]
                                        + Serving.Serve(body[DropUsed(p.framing, body)..], app, i)
  {
    hide ParseRequest, StatusWire, DropUsed, Declines;
  }

  lemma DeclinedOutput(h: RequestHead, wire: bytes)
    ensures var round := [Got(h, []), Declined(h, wire)];
            Output(round) == wire && Asked(round) == []
  {
    hide Output, Asked;
    OutputOne(Got(h, []));
    OutputOne(Declined(h, wire));
    OutputAppend([Got(h, [])], [Declined(h, wire)]);
    assert [Got(h, []), Declined(h, wire)] == [Got(h, [])] + [Declined(h, wire)];
    NothingAsked([Got(h, []), Declined(h, wire)]);
  }

  lemma DeclinedLeads(s: bytes, app: App, i: nat)
    requires ParseRequest(s).Ok? && Declines(ParseRequest(s).value.head, app)
    ensures var p := ParseRequest(s).value;
            var body := s[p.start..];
            Leads(s, app, i, Trace(1, StatusWire(app.shouldContinue(p.head)), []),
                  body[Use(p.framing, body, false).used..], i)
  {
    hide ParseRequest, StatusWire, DropUsed, Declines, TraceOf, Requested, InterimsInPlace, Answered,
         Serving.Serve, Output, Asked;
    var p := ParseRequest(s).value;
    var body := s[p.start..];
    var rest := body[DropUsed(p.framing, body)..];
    var wire := StatusWire(app.shouldContinue(p.head));
    var round := [Got(p.head, []), Declined(p.head, wire)];
    DeclinedStep(s, app, i);
    DeclinedOutput(p.head, wire);
    DeclinesExpectation(p.head, app);
    DeclinedRound(p.head, wire);
    JoinTraces(round, p.head, Serving.Serve(rest, app, i));
    FirstThen(s, app, i, round, Trace(1, wire, []), rest, i);
  }

  /** A run on `s` that is a round and then the run on `rest`. */
  lemma FirstThen(s: bytes, app: App, i: nat, round: seq<Event>, t: Trace, rest: bytes, j: nat)
    requires var es := Serving.Serve(rest, app, j);
             Serving.Serve(s, app, i) == round + es && (es != [] ==> TraceOf(round + es) == Join(t, TraceOf(es)))
    ensures Leads(s, app, i, t, rest, j)
  {
    hide Serving.Serve, TraceOf, Join;
  }

  /** What is written before the service's answer. */
  function InterimText(h: RequestHead, app: App): bytes
  {
    if ExpectsContinue(h.headers) then StatusWire(app.shouldContinue(h)) else []
  }

  lemma OpeningOutput(h: RequestHead, data: bytes, app: App)
    ensures Output(Opening(h, data, app)) == InterimText(h, app)
  {
    hide StatusWire, Output;
    var es := Opening(h, data, app);
    var interim := es[1..|es| - 1];
    OutputOne(Got(h, data));
    OutputOne(Called(h, data));
    OutputNone();
    if interim != [] { OutputOne(interim[0]); assert interim == [interim[0]]; }
    OutputAppend([Got(h, data)] + interim, [Called(h, data)]);
    OutputAppend([Got(h, data)], interim);
    assert es == [Got(h, data)] + interim + [Called(h, data)];
  }

  lemma AnsweredLeads(s: bytes, app: App, i: nat)
    requires ParseRequest(s).Ok? && !Declines(ParseRequest(s).value.head, app)
    ensures var p := ParseRequest(s).value;
            var body := s[p.start..];
            var t := Use(p.framing, body, app.wantsBody(p.head));
            var es := Respond(p.head, t.data, app, i);
            var trace := Trace(1, InterimText(p.head, app) + Output(es), [(p.head, t.data)]);
            if es[|es| - 1].Done? then Runs(s, app, i, trace, es[|es| - 1].end)
            else Leads(s, app, i, trace, body[t.used..], i + 1)
  {
    hide ParseRequest, Respond, Opening, Use, Declines, InterimText, TraceOf, Requested, Answered,
         InterimsInPlace, Asked;
    var p := ParseRequest(s).value;
    var body := s[p.start..];
    var t := Use(p.framing, body, app.wantsBody(p.head));
    var es := Respond(p.head, t.data, app, i);
    ServeStep(s, app, i);
    OpeningOutput(p.head, t.data, app);
    OutputAppend(Opening(p.head, t.data, app), es);
    RoundDiscipline(p.head, t.data, app, i);
    RoundAsks(p.head, t.data, app, i);
    RespondComes(p.head, t.data, app, i);
    var round := Opening(p.head, t.data, app) + es;
    var rest := if es[|es| - 1].Done? then [] else Serving.Serve(body[t.used..], app, i + 1);
    JoinTraces(round, p.head, rest);
    hide Serving.Serve, Output;
    if es[|es| - 1].Done? {
      assert round + [] == round;
    } else {
      FirstThen(s, app, i, round, Trace(1, InterimText(p.head, app) + Output(es), [(p.head, t.data)]), body[t.used..], i + 1);
    }
  }

  lemma RespondComes(h: RequestHead, data: bytes, app: App, i: nat)
    ensures var es := Respond(h, data, app, i); !NoRequest(es[|es| - 1])
  {
  }

  /** The connection is handed to an upgrade handler only when no handle lives and the reader is
      nowhere: what the handler gets is the only access left. */
  method InvokeHandler(q: RQ.ReadQueue, out: BufWriter)
    requires q.Valid() && P.WellShaped(q.Abs()) && P.Places(q.Abs()) == {}
    requires forall k :: 0 <= k < |q.handles| ==> q.handles[k].inner == None
    modifies out
    ensures out.buffered == [] && out.Written() == old(out.Written())
  {
    out.Flush();
  }

  lemma NothingLeft(q: RQ.ReadQueue)
    requires q.Valid() && q.state.Gone? && q.handles != [] && q.handles[|q.handles| - 1].inner == None
    ensures P.WellShaped(q.Abs()) && P.Places(q.Abs()) == {}
    ensures forall k :: 0 <= k < |q.handles| ==> q.handles[k].inner == None
  {
    hide P.Places, P.Front, RQ.ReadQueue.Wired;
    var s := q.Abs();
    assert forall k :: 0 <= k < |q.handles| ==> s.phases[k] == q.handles[k].Phase();
    P.NowhereAtTheEnd(s);
  }

  method Upgrade(q: RQ.ReadQueue, h: RQ.QueuedReader, ghost n: nat, out: BufWriter)
    requires Turn(q, h, n)
    modifies q.Repr() - {q.reader}, out
    ensures out.buffered == [] && out.Written() == old(out.Written())
    ensures q.Repr() == old(q.Repr())
  {
    hide P.Inv, P.Places, P.Front, RQ.ReadQueue.Wired, RQ.ReadQueue.Phases, RQ.ReadQueue.Full, RQ.ReadQueue.Took;
    TurnIsReady(q, h, n);
    DropHandle(q, h, n);
    q.DropQueue();
    NothingLeft(q);
    InvokeHandler(q, out);
  }

  /** A request was parsed through handle `n`, and the next handle waits behind it. */
  ghost predicate InRound(q: RQ.ReadQueue, h: RQ.QueuedReader, next: RQ.QueuedReader, n: nat, body: Body)
    reads q, q.Repr(), h, next, body
  {
    && Parsing(q, h, n) && q.reader.Valid()
    && |q.handles| == n + 2 && q.handles[n + 1] == next && next.Usable()
    && FreshBody(body) && (h.inner == None <==> Buffered(body.inner.value))
  }

  method FinishRequest(q: RQ.ReadQueue, h: RQ.QueuedReader, next: RQ.QueuedReader, ghost n: nat, body: Body, how: Usage,
                       ghost f: Framing, ghost s: bytes, ghost p: nat)
    returns (data: bytes)
    requires InRound(q, h, next, n, body) && p <= |q.reader.data| && s == q.reader.data[p..]
    requires BodyIs(body.inner.value, f, q.reader, s, p)
    modifies h, q.Channels(), q.reader, body, body.inner.value.Frame()
    ensures Turn(q, next, n + 1) && q.reader.Valid()
    ensures data == Use(f, s, !how.Discard?).data
    ensures q.reader.Rest() == s[Use(f, s, !how.Discard?).used..]
  {
    assert h.index == n && next.index == n + 1;
    hide P.Inv, P.Front, Use, BodyIs, RQ.ReadQueue.Wired, RQ.ReadQueue.Phases, RQ.ReadQueue.Full, RQ.ReadQueue.Took;
    data := FinishBody(q, h, n, body, how, f, s, p);
  }

  /** `parse_request` and the `enqueue` that follows it. */
  method NextRequest(q: RQ.ReadQueue, h: RQ.QueuedReader, ghost n: nat)
    returns (r: Result<Incoming<RequestHead>, ParseError>, next: RQ.QueuedReader)
    requires Turn(q, h, n) && q.reader.Valid()
    modifies q.Repr()
    ensures q.reader.Valid() && fresh(q.Repr() - old(q.Repr()))
    ensures RequestFrom(r, old(q.reader.Rest()), q.reader, old(q.reader.pos))
    ensures r.Ok? ==> InRound(q, h, next, n, r.value.body)
    ensures r.Ok? ==> fresh(r.value.body) && fresh(r.value.body.inner.value.Frame() - {q.reader})
  {
    hide P.Inv, RequestFrom, RQ.ReadQueue.Wired;
    next := h;
    r := ParseNext(q, h, n);
    if r.Ok? {
      next := EnqueueNext(q, h, n);
    }
  }

  /** What a round leaves: the end of the run, or the turn of the next handle with all flushed. */
  ghost predicate Concluded(end: Option<End>, q: RQ.ReadQueue, next: RQ.QueuedReader, n: nat, app: App, s: bytes,
                            i: nat, t: Trace, j: nat, out: BufWriter)
    requires q.reader.Valid()
    reads q, q.Repr(), q.reader, next, out
  {
    match end
    case Some(e) => Runs(s, app, i, t, e)
    case None =>
      && Turn(q, next, n + 1) && out.buffered == []
      && Leads(s, app, i, t, q.reader.Rest(), j) && |q.reader.Rest()| < |s|
  }

  /** The request was not asked to continue: it gets the status, and its body is dropped. */
  method Decline(q: RQ.ReadQueue, h: RQ.QueuedReader, next: RQ.QueuedReader, ghost n: nat, body: Body,
                 app: App, ghost i: nat, ghost s: bytes, ghost p: Parsed<RequestHead>, ghost from: nat, out: BufWriter)
    requires InRound(q, h, next, n, body) && from <= |q.reader.data| && s == q.reader.data[from..]
    requires ParseRequest(s) == Ok(p) && 0 < p.start <= |s| && Declines(p.head, app) && out.buffered == []
    requires BodyIs(body.inner.value, p.framing, q.reader, s[p.start..], from + p.start)
    modifies h, q.Channels(), q.reader, body, body.inner.value.Frame()
    ensures q.reader.Valid()
    ensures Concluded(None, q, next, n, app, s, i, Trace(1, StatusWire(app.shouldContinue(p.head)), []), i, out)
  {
    hide P.Inv, P.Front, RQ.ReadQueue.Wired, RQ.ReadQueue.Abs, Turn, Use, BodyIs, ParseRequest, Leads;
    ghost var rest := s[p.start..];
    DeclinedLeads(s, app, i);
    assert rest == q.reader.data[from + p.start..];
    var _ := FinishRequest(q, h, next, n, body, Discard, p.framing, rest, from + p.start);
  }

  /** The service is called, and its response written. */
  method AnswerRequest(q: RQ.ReadQueue, h: RQ.QueuedReader, next: RQ.QueuedReader, ghost n: nat, head: RequestHead, body: Body,
                 app: App, i: nat, ghost s: bytes, ghost p: Parsed<RequestHead>, ghost from: nat, out: BufWriter)
    returns (end: Option<End>, ghost wrote: bytes, ghost asked: seq<(RequestHead, bytes)>)
    requires InRound(q, h, next, n, body) && from <= |q.reader.data| && s == q.reader.data[from..]
    requires ParseRequest(s) == Ok(p) && 0 < p.start <= |s| && p.head == head && !Declines(head, app)
    requires BodyIs(body.inner.value, p.framing, q.reader, s[p.start..], from + p.start)
    modifies q.Repr(), body, body.inner.value.Frame(), out
    ensures q.reader.Valid() && q.Repr() == old(q.Repr())
    ensures out.Written() == old(out.Written()) + wrote
    ensures Concluded(end, q, next, n, app, s, i, Trace(1, InterimText(head, app) + wrote, asked), i + 1, out)
  {
    hide P.Inv, P.Front, RQ.ReadQueue.Wired, RQ.ReadQueue.Abs, Turn, Use, BodyIs, ParseRequest, Leads, Runs,
         Respond, Output, InterimText, Declines;
    ghost var rest := s[p.start..];
    AnsweredLeads(s, app, i);
    assert rest == q.reader.data[from + p.start..];
    var data := FinishRequest(q, h, next, n, body, if app.wantsBody(head) then AsBytes else Discard,
                              p.framing, rest, from + p.start);
    end, asked := Reply(head, data, app, i, app.clock(i), out);
    wrote := Output(Respond(head, data, app, i));
    if end == Some(Upgraded) {
      Upgrade(q, next, n + 1, out);
    }
  }

  /** The expectation, the service and the response. */
  method HandleRequest(q: RQ.ReadQueue, h: RQ.QueuedReader, next: RQ.QueuedReader, ghost n: nat, head: RequestHead, body: Body,
                       app: App, i: nat, ghost s: bytes, ghost p: Parsed<RequestHead>, ghost from: nat, out: BufWriter)
    returns (end: Option<End>, i': nat, ghost t: Trace)
    requires InRound(q, h, next, n, body) && from <= |q.reader.data| && s == q.reader.data[from..]
    requires ParseRequest(s) == Ok(p) && 0 < p.start <= |s| && p.head == head && out.buffered == []
    requires BodyIs(body.inner.value, p.framing, q.reader, s[p.start..], from + p.start)
    modifies q.Repr(), body, body.inner.value.Frame(), out
    ensures q.reader.Valid() && q.Repr() == old(q.Repr())
    ensures out.Written() == old(out.Written()) + t.wrote && t.waits == 1
    ensures Concluded(end, q, next, n, app, s, i, t, i', out)
  {
    hide P.Inv, P.Front, RQ.ReadQueue.Wired, RQ.ReadQueue.Abs, Turn, Use, BodyIs, ParseRequest, Leads, Runs,
         StatusWire, Output, Concluded;
    ghost var interim := InterimText(head, app);
    if ExpectsContinue(head.headers) {
      var status := app.shouldContinue(head);
      SendStatus(status, out);
      if status.code != 100 {
        Decline(q, h, next, n, body, app, i, s, p, from, out);
        return None, i, Trace(1, StatusWire(status), []);
      }
    }
    ghost var answer, asked;
    end, answer, asked := AnswerRequest(q, h, next, n, head, body, app, i, s, p, from, out);
    i' := i + 1;
    assert old(out.Written()) + interim + answer == old(out.Written()) + (interim + answer);
    t := Trace(1, interim + answer, asked);
  }

  /** One round of the loop: a request, and what is done about it. */
  method Round(q: RQ.ReadQueue, h: RQ.QueuedReader, ghost n: nat, app: App, answered: nat, out: BufWriter)
    returns (end: Option<End>, next: RQ.QueuedReader, answered': nat, ghost t: Trace)
    requires Turn(q, h, n) && q.reader.Valid() && out.buffered == []
    modifies q.Repr(), out
    ensures q.reader.Valid() && forall o :: o in q.Repr() ==> o in old(q.Repr()) || fresh(o)
    ensures out.Written() == old(out.Written()) + t.wrote && t.waits == 1
    ensures Concluded(end, q, next, n, app, old(q.reader.Rest()), answered, t, answered', out)
  {
    hide P.Inv, P.Front, RQ.ReadQueue.Wired, RQ.ReadQueue.Abs, Turn, Use, BodyIs, ParseRequest, Leads, InRound,
         Runs, Concluded;
    ghost var s, from := q.reader.Rest(), q.reader.pos;
    var r;
    r, next := NextRequest(q, h, n);
    if r.Err? {
      RunsOnError(s, app, answered);
      end, answered' := Some(if r.error.ConnectionClosed? then PeerClosed else BadRequest(r.error)), answered;
      t := Trace(1, [], []);
      RunConcludes(end.value, q, next, n, app, s, answered, t, answered, out);
    } else {
      ghost var p := ParseRequest(s).value;
      end, answered', t :=
        HandleRequest(q, h, next, n, r.value.head, r.value.body, app, answered, s, p, from, out);
    }
  }

  lemma RunConcludes(end: End, q: RQ.ReadQueue, next: RQ.QueuedReader, n: nat, app: App, s: bytes,
                     i: nat, t: Trace, j: nat, out: BufWriter)
    requires q.reader.Valid() && Runs(s, app, i, t, end)
    ensures Concluded(Some(end), q, next, n, app, s, i, t, j, out)
  {
  }

  /** `serve`. Its output, what it asks the service, and its end are those of the run that the input
      determines; each time it waits for a request, nothing is left in the output buffer, and all is
      flushed at the end. */
  method Serve(stream: ByteStream, app: App, out: BufWriter)
    returns (end: End, ghost unflushed: seq<nat>, ghost asked: seq<(RequestHead, bytes)>)
    requires stream.Valid() && stream.pos == 0 && out.Written() == []
    modifies stream, out
    ensures Runs(stream.data, app, 0, Trace(|unflushed|, out.Written(), asked), end) && out.buffered == []
    ensures forall k :: 0 <= k < |unflushed| ==> unflushed[k] == 0
  {
    hide P.Inv, P.Front, P.Init, RQ.ReadQueue.Valid, RQ.ReadQueue.Wired, RQ.ReadQueue.Abs, RQ.ReadQueue.Links,
         RQ.ReadQueue.Repr, Runs, Leads, Turn, Serving.Serve, TraceOf, Concluded;
    var q, reader := Open(stream);
    ghost var n := 0;
    var answered := 0;
    var done: Option<End> := None;
    unflushed, asked := [], [];
    LeadsToItself(stream.Rest(), app);
    while done == None
      invariant stream.Valid() && q.reader == stream && forall o :: o in q.Repr() ==> o == stream || fresh(o)
      invariant done == None ==> Turn(q, reader, n) && out.buffered == []
      invariant done == None ==>
                  Leads(stream.data, app, 0, Trace(|unflushed|, out.Written(), asked), stream.Rest(), answered)
      invariant done.Some? ==> Runs(stream.data, app, 0, Trace(|unflushed|, out.Written(), asked), done.value)
      invariant forall k :: 0 <= k < |unflushed| ==> unflushed[k] == 0
      decreases done == None, |stream.Rest()|
    {
      ghost var before, rest, i := Trace(|unflushed|, out.Written(), asked), stream.Rest(), answered;
      ghost var t;
      unflushed := unflushed + [|out.buffered|];
      done, reader, answered, t := Round(q, reader, n, app, answered, out);
      GoesOn(done, q, reader, n, app, stream.data, before, rest, i, t, answered, out);
      asked := asked + t.asked;
      n := n + 1;
    }
    out.Flush();
    end := done.value;
  }

  /** The queue of a connection, and its first handle. */
  method Open(stream: ByteStream) returns (q: RQ.ReadQueue, h: RQ.QueuedReader)
    requires stream.Valid() && stream.pos == 0
    ensures q.reader == stream && Turn(q, h, 0) && forall o :: o in q.Repr() ==> o == stream || fresh(o)
  {
    hide P.Inv;
    q := new RQ.ReadQueue(stream);
    h := q.Enqueue();
    P.FrontIs(q.Abs().phases, 0);
  }

  lemma LeadsToItself(s: bytes, app: App)
    ensures Leads(s, app, 0, Trace(0, [], []), s, 0)
  {
    hide Runs;
    assert forall more: bytes :: [] + more == more;
    assert forall more: seq<(RequestHead, bytes)> :: [] + more == more;
  }

  /** The run so far, and a round more. */
  lemma GoesOn(end: Option<End>, q: RQ.ReadQueue, next: RQ.QueuedReader, n: nat, app: App, s: bytes,
               before: Trace, rest: bytes, i: nat, t: Trace, j: nat, out: BufWriter)
    requires q.reader.Valid() && Leads(s, app, 0, before, rest, i)
    requires Concluded(end, q, next, n, app, rest, i, t, j, out)
    ensures if end.Some? then Runs(s, app, 0, Join(before, t), end.value)
            else
              && Turn(q, next, n + 1) && out.buffered == [] && |q.reader.Rest()| < |rest|
              && Leads(s, app, 0, Join(before, t), q.reader.Rest(), j)
  {
    hide Runs, Turn;
    if end.None? {
      var rest' := q.reader.Rest();
      forall more, e | Runs(rest', app, j, more, e)
        ensures Runs(s, app, 0, Join(Join(before, t), more), e)
      {
        assert Runs(rest, app, i, Join(t, more), e);
        JoinIsAssociative(before, t, more);
      }
    }
  }

  lemma JoinIsAssociative(a: Trace, b: Trace, c: Trace)
    ensures Join(a, Join(b, c)) == Join(Join(a, b), c)
  {
    assert a.wrote + (b.wrote + c.wrote) == (a.wrote + b.wrote) + c.wrote;
    assert a.asked + (b.asked + c.asked) == (a.asked + b.asked) + c.asked;
  }
}
