/** The connection loop `serve` of `src/server.rs`, as a function from the input of a connection to
    the events of its run; and the client's side of the persistence decision, `src/client.rs`. */
module Serving {
  import opened Bytes
  import opened Head
  import opened Content
  import opened Framing
  import opened Requests
  import opened Responses

  /** What a server is given: the service, and the clock behind its `date` fields. The service is a
      function of the head and of the body bytes, and chooses by the head whether to read the body
      (to its end) or to drop it. */
  datatype App = App(
    shouldContinue: RequestHead -> Status,
    wantsBody: RequestHead -> bool,
    call: (RequestHead, bytes) -> Option<Response>,
    clock: nat -> bytes,
    isDate: bytes -> bool)

  datatype End = PeerClosed | BadRequest(error: ParseError) | ServiceFailed | WriteFailed | Closing | Upgraded

  datatype Event =
    | Got(head: RequestHead, data: bytes)
    | Interim(wire: bytes)
    | Called(head: RequestHead, data: bytes)
    | Declined(head: RequestHead, wire: bytes)
    | Answer(head: RequestHead, said: Response, res: Response, wire: bytes, outcome: Outcome)
    | Broken(wire: bytes)
    | Done(end: End)

  // ----- one request -----

  /** How far dropping an unread body moves the connection. */
  function DropUsed(f: Framing, s: bytes): (n: nat)
    ensures n <= |s|
  {
    if f.Sized? || f.UntilClose? then FullRead(f, s).used else 0
  }

  /** The body as the service takes it: read to its end, or dropped. */
  function Use(f: Framing, s: bytes, wants: bool): (t: Taken)
    ensures t.used <= |s|
  {
    if wants then FullRead(f, s) else Taken([], DropUsed(f, s))
  }

  predicate AsksToPersist10(h: RequestHead) { h.version.Http10? && HasOption(h.headers, KEEP_ALIVE) }

  predicate DemandsClose(h: RequestHead)
  {
    match h.version
    case Http09 => true
    case Http10 => !AsksToPersist10(h)
    case _ => HasOption(h.headers, CLOSE)
  }

  predicate HasDate(hs: Headers, isDate: bytes -> bool)
  {
    |Values(hs, DATE)| == 1 && isDate(Values(hs, DATE)[0])
  }

  /** The loop's corrections of the service's response. */
  function FixUp(h: RequestHead, res: Response, app: App, i: nat): Response
  {
    var hs := if h.version.Http10? && !AsksToPersist10(h) then Set(res.reply.headers, CONNECTION, CLOSE) else res.reply.headers;
    var dated := if HasDate(hs, app.isDate) then hs else Set(hs, DATE, app.clock(i));
    res.(reply := res.reply.(version := h.version, headers := dated))
  }

  predicate WritesBody(h: RequestHead, code: nat)
  {
    if h.verb == HEAD then false
    else if h.verb == CONNECT then 200 <= code <= 299
    else true
  }

  /** The bodiless response to an expectation. */
  function StatusWire(r: Status): bytes
  {
    ResponseWire(Response(Reply(r.code, r.reason, Http11, [], false), Empty), true).out
  }

  predicate Declines(h: RequestHead, app: App)
  {
    ExpectsContinue(h.headers) && app.shouldContinue(h).code != 100
  }

  function Opening(h: RequestHead, data: bytes, app: App): seq<Event>
  {
    [Got(h, data)]
    + (if ExpectsContinue(h.headers) then [Interim(StatusWire(app.shouldContinue(h)))] else [])
    + [Called(h, data)]
  }

  /** The events of answering one request, the last one telling whether the loop goes on. */
  function Respond(h: RequestHead, data: bytes, app: App, i: nat): (es: seq<Event>)
    ensures es != []
  {
    match app.call(h, data)
    case None => [Done(ServiceFailed)]
    case Some(res) =>
      var fixed := FixUp(h, res, app, i);
      var w := ResponseWire(fixed, WritesBody(h, fixed.reply.code));
      if !w.ok then [Broken(w.out), Done(WriteFailed)]
      else
        var c := ResponseChoice(fixed);
        var outcome := OutcomeOf(fixed.reply, c.encoding, c.headers);
        [Answer(h, res, fixed, w.out, outcome)]
        + match outcome
          case KeepAlive => if DemandsClose(h) then [Done(Closing)] else []
          case Close => [Done(Closing)]
          case Upgrade => [Done(Upgraded)]
  }

  /** The run of `serve` on the input `s`, having answered `i` requests. */
  function Serve(s: bytes, app: App, i: nat): seq<Event>
    decreases |s|
  {
    match ParseRequest(s)
    case Err(error) => [Done(if error.ConnectionClosed? then PeerClosed else BadRequest(error))]
    case Ok(p) =>
      var body := s[p.start..];
      if Declines(p.head, app) then
        [Got(p.head, []), Declined(p.head, StatusWire(app.shouldContinue(p.head)))]
        + Serve(body[DropUsed(p.framing, body)..], app, i)
      else
        var t := Use(p.framing, body, app.wantsBody(p.head));
        var es := Respond(p.head, t.data, app, i);
        Opening(p.head, t.data, app) + es
        + if es[|es| - 1].Done? then [] else Serve(body[t.used..], app, i + 1)
  }

  function Wire(e: Event): bytes
  {
    match e
    case Got(_, _) => []
    case Interim(wire) => wire
    case Called(_, _) => []
    case Declined(_, wire) => wire
    case Answer(_, _, _, wire, _) => wire
    case Broken(wire) => wire
    case Done(_) => []
  }

  /** Everything a run writes. */
  function Output(es: seq<Event>): bytes
  {
    if es == [] then [] else Wire(es[0]) + Output(es[1..])
  }

  lemma {:induction false} OutputAppend(a: seq<Event>, b: seq<Event>)
    ensures Output(a + b) == Output(a) + Output(b)
  {
    if a == [] {
      assert a + b == b;
    } else {
      assert (a + b)[1..] == a[1..] + b;
      OutputAppend(a[1..], b);
    }
  }

  lemma OutputNone()
    ensures Output([]) == []
  {
  }

  lemma OutputOne(e: Event)
    ensures Output([e]) == Wire(e)
  {
    assert [e][1..] == [];
  }

  // ----- runs -----

  /** The step of a run: its first events, and where it goes on. */
  lemma ServeStep(s: bytes, app: App, i: nat)
    requires ParseRequest(s).Ok? && !Declines(ParseRequest(s).value.head, app)
    ensures var p := ParseRequest(s).value;
            var t := Use(p.framing, s[p.start..], app.wantsBody(p.head));
            var es := Respond(p.head, t.data, app, i);
            Serve(s, app, i) == Opening(p.head, t.data, app) + es
                                + if es[|es| - 1].Done? then [] else Serve(s[p.start..][t.used..], app, i + 1)
  {
  }

  /** What answering one request may do. */
  lemma RespondShape(h: RequestHead, data: bytes, app: App, i: nat)
    ensures var es := Respond(h, data, app, i);
            && |es| <= 2
            && (forall j :: 0 <= j < |es| ==> !es[j].Got? && !es[j].Interim? && !es[j].Declined? && !es[j].Called?)
            && (es[|es| - 1].Done? || |es| == 1)
            && (es[0].Answer? || es[|es| - 1].Done?)
            && (es[0].Answer? ==> es[0].head == h && ResponseChoice(es[0].res).Chosen?)
            && (es[0].Answer? && |es| == 1 ==>
                  var c := ResponseChoice(es[0].res);
                  && es[0].outcome.KeepAlive? && !DemandsClose(h)
                  && !c.encoding.CloseDelimited? && !HasOption(c.headers, CLOSE))
  {
  }

  /** The response at `j` keeps the connection: nothing in it or in its request asks to close. */
  predicate Persists(e: Event)
    requires e.Answer?
  {
    && e.outcome.KeepAlive? && !DemandsClose(e.head)
    && var c := ResponseChoice(e.res);
    c.Chosen? && !c.encoding.CloseDelimited? && !HasOption(c.headers, CLOSE)
  }

  predicate OnlyLastMayClose(es: seq<Event>)
  {
    forall j, k :: 0 <= j < k < |es| && es[j].Answer? && es[k].Got? ==> Persists(es[j])
  }

  /** In every run, a request is parsed only after responses that keep the connection: every final
      response before it is fixed-length or chunked, says nothing of closing, and upgrades nothing. */
  lemma {:induction false} NothingAfterClose(s: bytes, app: App, i: nat)
    ensures OnlyLastMayClose(Serve(s, app, i))
    decreases |s|
  {
    hide ParseRequest, Respond, Declines, Persists;
    var p := ParseRequest(s);
    if p.Ok? {
      var body := s[p.value.start..];
      if Declines(p.value.head, app) {
        var n := DropUsed(p.value.framing, body);
        NothingAfterClose(body[n..], app, i);
        var es := [Got(p.value.head, []), Declined(p.value.head, StatusWire(app.shouldContinue(p.value.head)))];
        QuietPrefix(es, Serve(body[n..], app, i));
      } else {
        var t := Use(p.value.framing, body, app.wantsBody(p.value.head));
        var es := Respond(p.value.head, t.data, app, i);
        var opening := Opening(p.value.head, t.data, app);
        RespondPersists(p.value.head, t.data, app, i);
        if es[|es| - 1].Done? {
          assert forall k :: 0 < k < |opening + es| ==> !(opening + es)[k].Got?;
          assert opening + es + [] == opening + es;
        } else {
          NothingAfterClose(body[t.used..], app, i + 1);
          QuietPrefix(opening + es, Serve(body[t.used..], app, i + 1));
        }
      }
    }
  }

  lemma RespondPersists(h: RequestHead, data: bytes, app: App, i: nat)
    ensures var opening, es := Opening(h, data, app), Respond(h, data, app, i);
            && (forall k :: 0 < k < |opening| ==> !opening[k].Got?)
            && (forall k :: 0 <= k < |opening| ==> !opening[k].Answer?)
            && (forall k :: 0 <= k < |es| ==> !es[k].Got?)
            && (!es[|es| - 1].Done? ==> forall k :: 0 <= k < |es| && es[k].Answer? ==> Persists(es[k]))
  {
    RespondShape(h, data, app, i);
  }

  lemma QuietPrefix(a: seq<Event>, b: seq<Event>)
    requires OnlyLastMayClose(b)
    requires forall k :: 0 < k < |a| ==> !a[k].Got?
    requires forall k :: 0 <= k < |a| && a[k].Answer? ==> Persists(a[k])
    ensures OnlyLastMayClose(a + b)
  {
    hide Persists;
    var es := a + b;
    forall j, k | 0 <= j < k < |es| && es[j].Answer? && es[k].Got?
      ensures Persists(es[j])
    {
      if j < |a| { assert es[j] == a[j]; } else { assert es[j] == b[j - |a|] && es[k] == b[k - |a|]; }
    }
  }

  /** What the service was called with. */
  function Asked(es: seq<Event>): seq<(RequestHead, bytes)>
  {
    if es == [] then []
    else (if es[0].Called? then [(es[0].head, es[0].data)] else []) + Asked(es[1..])
  }

  lemma {:induction false} AskedAppend(a: seq<Event>, b: seq<Event>)
    ensures Asked(a + b) == Asked(a) + Asked(b)
  {
    if a == [] {
      assert a + b == b;
    } else {
      assert (a + b)[1..] == a[1..] + b;
      AskedAppend(a[1..], b);
    }
  }

  lemma {:induction false} NothingAsked(es: seq<Event>)
    requires forall k :: 0 <= k < |es| ==> !es[k].Called?
    ensures Asked(es) == []
  {
    if es != [] { NothingAsked(es[1..]); }
  }

  /** Each answered request is a call of the service, with the body as it was taken. */
  lemma RoundAsks(h: RequestHead, data: bytes, app: App, i: nat)
    ensures Asked(Opening(h, data, app) + Respond(h, data, app, i)) == [(h, data)]
  {
    RespondShape(h, data, app, i);
    hide Respond, StatusWire;
    var opening, es := Opening(h, data, app), Respond(h, data, app, i);
    var first := opening[..|opening| - 1];
    assert opening + es == first + ([Called(h, data)] + es);
    AskedAppend(first, [Called(h, data)] + es);
    AskedAppend([Called(h, data)], es);
    NothingAsked(first);
    NothingAsked(es);
    assert [Called(h, data)][1..] == [];
  }

  // ----- discipline -----

  /** The requests received, and the requests finally answered. */
  function Requested(es: seq<Event>): seq<RequestHead>
  {
    if es == [] then []
    else (if es[0].Got? then [es[0].head] else []) + Requested(es[1..])
  }

  function Answered(es: seq<Event>): seq<RequestHead>
  {
    if es == [] then []
    else (if es[0].Answer? || es[0].Declined? then [es[0].head] else []) + Answered(es[1..])
  }

  predicate EndsWell(es: seq<Event>)
  {
    es != [] && var e := es[|es| - 1]; e.Done? && (e.end.PeerClosed? || e.end.Closing? || e.end.Upgraded?)
  }

  /** How often a run waits for a request: for each that came, and once more when none did. */
  function Waits(es: seq<Event>): nat
  {
    |Requested(es)| + if es != [] && NoRequest(es[|es| - 1]) then 1 else 0
  }

  /** What a run does to the world: how often it waits, what it writes, and what it asks the service. */
  datatype Trace = Trace(waits: nat, wrote: bytes, asked: seq<(RequestHead, bytes)>)

  function TraceOf(es: seq<Event>): Trace { Trace(Waits(es), Output(es), Asked(es)) }

  function Join(a: Trace, b: Trace): Trace { Trace(a.waits + b.waits, a.wrote + b.wrote, a.asked + b.asked) }

  predicate NoRequest(e: Event) { e.Done? && (e.end.PeerClosed? || e.end.BadRequest?) }

  lemma {:induction false} RequestedAppend(a: seq<Event>, b: seq<Event>)
    ensures Requested(a + b) == Requested(a) + Requested(b)
    ensures Answered(a + b) == Answered(a) + Answered(b)
  {
    if a == [] {
      assert a + b == b;
    } else {
      var more := a[1..] + b;
      assert a + b == [a[0]] + more;
      OneMoreEvent(a[0], a[1..]);
      OneMoreEvent(a[0], more);
      assert a == [a[0]] + a[1..];
      hide Requested, Answered;
      RequestedAppend(a[1..], b);
    }
  }

  /** A round for one request, and the run that follows it. */
  lemma JoinTraces(round: seq<Event>, h: RequestHead, rest: seq<Event>)
    requires round != [] && Requested(round) == [h]
    requires rest == [] ==> !NoRequest(round[|round| - 1])
    ensures var first := Trace(1, Output(round), Asked(round));
            TraceOf(round + rest) == if rest == [] then first else Join(first, TraceOf(rest))
  {
    hide Requested, Answered, NoRequest, Output, Asked;
    RequestedAppend(round, rest);
    OutputAppend(round, rest);
    AskedAppend(round, rest);
    if rest == [] {
      assert round + rest == round;
    } else {
      assert (round + rest)[|round + rest| - 1] == rest[|rest| - 1];
    }
  }

  lemma OneMoreEvent(e: Event, es: seq<Event>)
    ensures Requested([e] + es) == (if e.Got? then [e.head] else []) + Requested(es)
    ensures Answered([e] + es) == (if e.Answer? || e.Declined? then [e.head] else []) + Answered(es)
  {
    assert ([e] + es)[1..] == es;
  }

  /** A request is directly followed by an interim or declining response exactly when it expects
      one; and an interim response directly by the call of the service. */
  predicate InterimsInPlace(es: seq<Event>)
  {
    && (forall j :: 0 <= j < |es| && es[j].Interim? ==>
          0 < j && es[j - 1].Got?
          && j + 1 < |es| && es[j + 1].Called?)
    && (forall j :: 0 <= j < |es| && es[j].Got? ==>
          j + 1 < |es| && (ExpectsContinue(es[j].head.headers) <==> es[j + 1].Interim? || es[j + 1].Declined?))
  }

  lemma InterimsAppend(a: seq<Event>, b: seq<Event>)
    requires InterimsInPlace(a) && InterimsInPlace(b)
    ensures InterimsInPlace(a + b)
  {
    var es := a + b;
    forall j | 0 <= j < |es| && es[j].Interim?
      ensures 0 < j && es[j - 1].Got?
      ensures j + 1 < |es| && es[j + 1].Called?
    {
      if j < |a| { assert a[j].Interim?; } else { assert b[j - |a|].Interim?; }
    }
    forall j | 0 <= j < |es| && es[j].Got?
      ensures j + 1 < |es| && (ExpectsContinue(es[j].head.headers) <==> es[j + 1].Interim? || es[j + 1].Declined?)
    {
      if j < |a| { assert a[j].Got?; } else { assert b[j - |a|].Got?; }
    }
  }

  lemma OneEvent(e: Event)
    ensures Requested([e]) == if e.Got? then [e.head] else []
    ensures Answered([e]) == if e.Answer? || e.Declined? then [e.head] else []
  {
    assert [e][1..] == [];
  }

  lemma {:induction false} NoneRequested(es: seq<Event>)
    requires forall k :: 0 <= k < |es| ==> !es[k].Got? && !es[k].Answer? && !es[k].Declined?
    ensures Requested(es) == [] == Answered(es)
  {
    if es != [] { NoneRequested(es[1..]); }
  }

  lemma FirstEventOnly(es: seq<Event>)
    requires es != []
    requires forall k :: 1 <= k < |es| ==> !es[k].Got? && !es[k].Answer? && !es[k].Declined?
    ensures Requested(es) == Requested([es[0]]) && Answered(es) == Answered([es[0]])
  {
    assert es == [es[0]] + es[1..];
    RequestedAppend([es[0]], es[1..]);
    NoneRequested(es[1..]);
  }

  lemma RoundInterims(h: RequestHead, data: bytes, app: App, i: nat)
    ensures InterimsInPlace(Opening(h, data, app) + Respond(h, data, app, i))
  {
    RespondShape(h, data, app, i);
    hide Respond;
    var opening, es := Opening(h, data, app), Respond(h, data, app, i);
    assert forall j :: 0 <= j < |es| ==> (opening + es)[|opening| + j] == es[j];
  }

  lemma RoundDiscipline(h: RequestHead, data: bytes, app: App, i: nat)
    ensures var es := Respond(h, data, app, i);
            var round := Opening(h, data, app) + es;
            && InterimsInPlace(round)
            && Requested(round) == [h]
            && (EndsWell(round) || !es[|es| - 1].Done? ==> Answered(round) == [h])
            && (Answered(round) == [] || Answered(round) == [h])
  {
    RoundInterims(h, data, app, i);
    RoundRequests(h, data, app, i);
    RespondFails(h, data, app, i);
    hide Respond, Opening, InterimsInPlace, Requested, Answered;
    var opening, es := Opening(h, data, app), Respond(h, data, app, i);
    assert (opening + es)[|opening + es| - 1] == es[|es| - 1];
  }

  lemma RoundRequests(h: RequestHead, data: bytes, app: App, i: nat)
    ensures var es := Respond(h, data, app, i);
            var round := Opening(h, data, app) + es;
            && Requested(round) == [h]
            && Answered(round) == if es[0].Answer? then [h] else []
  {
    RespondShape(h, data, app, i);
    RespondFails(h, data, app, i);
    hide Respond, Requested, Answered, StatusWire;
    var opening, es := Opening(h, data, app), Respond(h, data, app, i);
    RequestedAppend(opening, es);
    OneEvent(opening[0]);
    OneEvent(es[0]);
    FirstEventOnly(opening);
    FirstEventOnly(es);
  }

  lemma RespondFails(h: RequestHead, data: bytes, app: App, i: nat)
    ensures var es := Respond(h, data, app, i);
            !es[0].Answer? ==> es[|es| - 1].Done? && !EndsWell(es)
  {
  }

  /** Final responses leave in request order: one for each request of a run that ends well, and
      otherwise for all but the last. */
  lemma {:induction false} ResponsesInOrder(s: bytes, app: App, i: nat)
    ensures var es := Serve(s, app, i);
            && es != [] && es[|es| - 1].Done?
            && InterimsInPlace(es)
            && Answered(es) <= Requested(es)
            && |Requested(es)| <= |Answered(es)| + 1
            && (EndsWell(es) ==> Answered(es) == Requested(es))
    decreases |s|
  {
    hide ParseRequest, Respond, Declines, Opening, InterimsInPlace, Requested, Answered, Use, DropUsed;
    var p := ParseRequest(s);
    if p.Err? {
      DoneDiscipline(Serve(s, app, i));
    } else {
      var h, body := p.value.head, s[p.value.start..];
      if Declines(h, app) {
        var rest := Serve(body[DropUsed(p.value.framing, body)..], app, i);
        ResponsesInOrder(body[DropUsed(p.value.framing, body)..], app, i);
        DeclinesExpectation(h, app);
        DeclinedRound(h, StatusWire(app.shouldContinue(h)));
        JoinRounds([Got(h, []), Declined(h, StatusWire(app.shouldContinue(h)))], h, rest);
      } else {
        var t := Use(p.value.framing, body, app.wantsBody(h));
        var es := Respond(h, t.data, app, i);
        var round := Opening(h, t.data, app) + es;
        RoundDiscipline(h, t.data, app, i);
        if es[|es| - 1].Done? {
          assert round + [] == round;
        } else {
          ResponsesInOrder(body[t.used..], app, i + 1);
          JoinRounds(round, h, Serve(body[t.used..], app, i + 1));
        }
      }
    }
  }

  lemma DoneDiscipline(es: seq<Event>)
    requires |es| == 1 && es[0].Done?
    ensures InterimsInPlace(es) && Answered(es) == [] == Requested(es)
  {
    assert es[1..] == [];
  }

  lemma DeclinesExpectation(h: RequestHead, app: App)
    ensures Declines(h, app) ==> ExpectsContinue(h.headers)
  {
  }

  lemma DeclinedRound(h: RequestHead, wire: bytes)
    requires ExpectsContinue(h.headers)
    ensures var round := [Got(h, []), Declined(h, wire)];
            InterimsInPlace(round) && Requested(round) == [h] == Answered(round)
  {
    OneEvent(Got(h, []));
    OneEvent(Declined(h, wire));
    RequestedAppend([Got(h, [])], [Declined(h, wire)]);
    assert [Got(h, [])] + [Declined(h, wire)] == [Got(h, []), Declined(h, wire)];
  }

  lemma JoinRounds(round: seq<Event>, h: RequestHead, rest: seq<Event>)
    requires InterimsInPlace(round) && Requested(round) == [h] == Answered(round)
    requires rest != [] && InterimsInPlace(rest) && Answered(rest) <= Requested(rest)
    requires |Requested(rest)| <= |Answered(rest)| + 1
    requires EndsWell(rest) ==> Answered(rest) == Requested(rest)
    ensures var es := round + rest;
            && InterimsInPlace(es) && Answered(es) <= Requested(es)
            && |Requested(es)| <= |Answered(es)| + 1
            && (EndsWell(es) ==> Answered(es) == Requested(es))
  {
    InterimsAppend(round, rest);
    RequestedAppend(round, rest);
    hide InterimsInPlace, Requested, Answered;
    assert (round + rest)[|round + rest| - 1] == rest[|rest| - 1];
  }

  // ----- the client's decision -----

  datatype ConnectionOutcome = ClientClose | ClientKeepAlive | ClientUpgrade

  /** `send_request`: what becomes of the connection, by the head of the response. */
  function ClientOutcome(h: ResponseHead): ConnectionOutcome
  {
    if HasOption(h.headers, CLOSE) then ClientClose
    else if h.code == 101 then ClientUpgrade
    else ClientKeepAlive
  }

  /** Whether the loop ends after a response, given its outcome. */
  predicate ServerEnds(h: RequestHead, outcome: Outcome)
  {
    !outcome.KeepAlive? || DemandsClose(h)
  }

  /** A response that the loop has corrected says `connection: close` when the request, being
      HTTP/1.0, demands it. */
  lemma FixUpSaysClose(h: RequestHead, res: Response, app: App, i: nat)
    requires h.version.Http10? && DemandsClose(h)
    ensures HasOption(FixUp(h, res, app, i).reply.headers, CLOSE)
  {
    SetClose(res.reply.headers);
    LookupsAfterSet(Set(res.reply.headers, CONNECTION, CLOSE), DATE, app.clock(i));
  }

  /** A corrected response has the version of its request and a date, the service's own if that is
      one; nothing else is changed but the connection field of an HTTP/1.0 request's response. */
  lemma FixUpCorrects(h: RequestHead, res: Response, app: App, i: nat, name: bytes)
    ensures var fixed := FixUp(h, res, app, i).reply;
            && fixed.version == h.version
            && Values(fixed.headers, DATE) ==
                 (if HasDate(res.reply.headers, app.isDate) then Values(res.reply.headers, DATE) else [app.clock(i)])
            && (h.version.Http10? && !AsksToPersist10(h) ==> Values(fixed.headers, CONNECTION) == [CLOSE])
            && (name != DATE && (name != CONNECTION || !h.version.Http10? || AsksToPersist10(h)) ==>
                  Values(fixed.headers, name) == Values(res.reply.headers, name))
  {
    hide Values, Set;
    var hs := res.reply.headers;
    if h.version.Http10? && !AsksToPersist10(h) {
      ValuesOfSet(hs, CONNECTION, CLOSE, DATE);
      ValuesOfSet(hs, CONNECTION, CLOSE, CONNECTION);
      ValuesOfSet(hs, CONNECTION, CLOSE, name);
      hs := Set(hs, CONNECTION, CLOSE);
    }
    ValuesOfSet(hs, DATE, app.clock(i), DATE);
    ValuesOfSet(hs, DATE, app.clock(i), CONNECTION);
    ValuesOfSet(hs, DATE, app.clock(i), name);
  }

  lemma WrittenClose(r: Reply, len: Option<nat>)
    requires HasOption(r.headers, CLOSE) && ChooseResponse(r, len).Chosen?
    ensures HasOption(ChooseResponse(r, len).headers, CLOSE)
  {
    hide HasOption, Coding, DeclaredLength, Set, Remove, Numeral;
    if len.Some? { LookupsAfterSet(r.headers, CONTENT_LENGTH, Numeral(len.value, 10)); }
    LookupsAfterSet(r.headers, TRANSFER_ENCODING, CHUNKED);
    LookupsAfterRemove(PickResponse(r, len).headers, TRANSFER_ENCODING);
  }

  /** Nothing but what the service said makes an HTTP/1.1 response say `connection: close`. */
  lemma SaysCloseItself(h: RequestHead, res: Response, app: App, i: nat)
    requires h.version.Http11? && ResponseChoice(FixUp(h, res, app, i)).Chosen?
    ensures HasOption(ResponseChoice(FixUp(h, res, app, i)).headers, CLOSE) <==> HasOption(res.reply.headers, CLOSE)
  {
    hide HasOption, Coding, DeclaredLength, Set, Remove, Numeral, HasDate;
    LookupsAfterSet(res.reply.headers, DATE, app.clock(i));
    var fixed := FixUp(h, res, app, i);
    var r, len := fixed.reply, fixed.body.Len();
    if len.Some? { LookupsAfterSet(r.headers, CONTENT_LENGTH, Numeral(len.value, 10)); }
    LookupsAfterSet(r.headers, TRANSFER_ENCODING, CHUNKED);
  }

  /** The case in which server and client disagree: an HTTP/1.1 request asks to close, and the
      service's response does not say so. */
  predicate ClosesUnsaid(h: RequestHead, said: Response)
  {
    h.version.Http11? && HasOption(h.headers, CLOSE) && !HasOption(said.reply.headers, CLOSE)
  }

  /** Server and client agree on persistence, that is, the loop ends after the response exactly when
      the client that parses it (and whatever follows it) closes, if and only if it is not the case
      that an HTTP/1.1 request asked to close and the service did not say so: the client then keeps
      a connection that the server has left. No upgrade, and no status 101. */
  lemma PersistenceAgreement(lead: bytes, h: RequestHead, res: Response, app: App, i: nat, tail: bytes)
    requires IsLead(lead) && (h.version.Http10? || h.version.Http11?)
    requires GoodResponseHead(FixUp(h, res, app, i))
    requires !res.reply.upgrade && res.reply.code != 101
    ensures var fixed := FixUp(h, res, app, i);
            var c := ResponseChoice(fixed);
            var writes := WritesBody(h, fixed.reply.code);
            var p := ParseResponse(lead + ResponseWire(fixed, writes).out + tail);
            && (writes && GoodResponse(fixed) ==> p.Ok?)
            && (p.Ok? ==>
                  ((ServerEnds(h, OutcomeOf(fixed.reply, c.encoding, c.headers)) <==> ClientOutcome(p.value.head).ClientClose?)
                   <==> !ClosesUnsaid(h, res)))
  {
    hide GoodResponse, ParseResponse, HasOption, ChooseResponse, ResponseWire, FullRead, Set, Delivered,
         GoodFields, Text;
    var fixed := FixUp(h, res, app, i);
    var writes := WritesBody(h, fixed.reply.code);
    HeadIsRead(lead, fixed, writes, tail);
    if writes && GoodResponse(fixed) { ResponseRoundTrip(lead, fixed, tail); }
    CloseIsWritten(fixed.reply, fixed.body.Len());
    if h.version.Http11? {
      SaysCloseItself(h, res, app, i);
    } else if DemandsClose(h) {
      FixUpSaysClose(h, res, app, i);
      WrittenClose(fixed.reply, fixed.body.Len());
    }
  }

  /** An answer comes from the service, corrected; and is what the writer makes of it. */
  ghost predicate FromService(e: Event, app: App)
    requires e.Answer?
  {
    exists data, i :: FromServiceAs(e, app, data, i)
  }

  ghost predicate FromServiceAs(e: Event, app: App, data: bytes, i: nat)
    requires e.Answer?
  {
    && app.call(e.head, data) == Some(e.said) && e.res == FixUp(e.head, e.said, app, i)
    && e.wire == ResponseWire(e.res, WritesBody(e.head, e.res.reply.code)).out
    && var c := ResponseChoice(e.res);
    c.Chosen? && e.outcome == OutcomeOf(e.res.reply, c.encoding, c.headers)
  }

  /** The event that follows an answer tells whether the loop ended with it. */
  ghost predicate AnswersServed(es: seq<Event>, app: App)
  {
    forall j :: 0 <= j < |es| && es[j].Answer? ==>
      && FromService(es[j], app) && (es[j].head.version.Http10? || es[j].head.version.Http11?)
      && j + 1 < |es|
      && (es[j + 1] == Done(Upgraded) <==> es[j].outcome.Upgrade?)
      && (es[j + 1] == Done(Closing) <==> !es[j].outcome.Upgrade? && ServerEnds(es[j].head, es[j].outcome))
      && EndsOrWaits(es, j + 1)
  }

  /** At `j` the run ends with an answer; or the next request comes, or none. */
  predicate EndsOrWaits(es: seq<Event>, j: nat)
    requires j < |es|
  {
    if es[j] == Done(Upgraded) || es[j] == Done(Closing) then j + 1 == |es| else WaitsAt(es[j])
  }

  predicate WaitsAt(e: Event) { e.Got? || NoRequest(e) }

  lemma ParsedVersion(s: bytes)
    requires ParseRequest(s).Ok?
    ensures var v := ParseRequest(s).value.head.version; v.Http10? || v.Http11?
  {
  }

  lemma RespondServes(h: RequestHead, data: bytes, app: App, i: nat, rest: seq<Event>)
    requires h.version.Http10? || h.version.Http11?
    requires var es := Respond(h, data, app, i); if es[|es| - 1].Done? then rest == [] else rest != [] && AnswersServed(rest, app)
    requires rest != [] ==> WaitsAt(rest[0])
    ensures AnswersServed(Opening(h, data, app) + Respond(h, data, app, i) + rest, app)
  {
    hide OutcomeOf, FixUp, ResponseWire, DemandsClose, StatusWire, ChooseResponse;
    var opening, es := Opening(h, data, app), Respond(h, data, app, i);
    var all := opening + es + rest;
    forall j | 0 <= j < |all| && all[j].Answer?
      ensures FromService(all[j], app) && (all[j].head.version.Http10? || all[j].head.version.Http11?)
      ensures j + 1 < |all|
      ensures all[j + 1] == Done(Upgraded) <==> all[j].outcome.Upgrade?
      ensures all[j + 1] == Done(Closing) <==> !all[j].outcome.Upgrade? && ServerEnds(all[j].head, all[j].outcome)
      ensures EndsOrWaits(all, j + 1)
    {
      if j < |opening| + |es| {
        assert all[j] == es[0] && j == |opening|;
        AnswerIsFromService(h, data, app, i);
      } else {
        var k := j - |opening| - |es|;
        assert all[j] == rest[k] && all[j + 1] == rest[k + 1];
        assert EndsOrWaits(rest, k + 1);
      }
    }
  }

  lemma AnswerIsFromService(h: RequestHead, data: bytes, app: App, i: nat)
    ensures var e := Respond(h, data, app, i)[0]; e.Answer? ==> FromService(e, app)
  {
    var e := Respond(h, data, app, i)[0];
    if e.Answer? { assert FromServiceAs(e, app, data, i); }
  }

  lemma OpeningFirst(h: RequestHead, data: bytes, app: App)
    ensures Opening(h, data, app) != [] && Opening(h, data, app)[0].Got?
  {
  }

  lemma NoAnswers(first: seq<Event>, rest: seq<Event>, app: App)
    requires forall j :: 0 <= j < |first| ==> !first[j].Answer?
    requires rest == [] || AnswersServed(rest, app)
    ensures AnswersServed(first + rest, app) && (rest == [] ==> AnswersServed(first, app))
  {
    hide FromService, ServerEnds;
    var all := first + rest;
    forall j | 0 <= j < |all| && all[j].Answer?
      ensures FromService(all[j], app) && (all[j].head.version.Http10? || all[j].head.version.Http11?)
      ensures j + 1 < |all|
      ensures all[j + 1] == Done(Upgraded) <==> all[j].outcome.Upgrade?
      ensures all[j + 1] == Done(Closing) <==> !all[j].outcome.Upgrade? && ServerEnds(all[j].head, all[j].outcome)
      ensures EndsOrWaits(all, j + 1)
    {
      var k := j - |first|;
      assert all[j] == rest[k] && all[j + 1] == rest[k + 1];
      assert EndsOrWaits(rest, k + 1);
    }
  }

  lemma {:induction false} ServeServes(s: bytes, app: App, i: nat)
    ensures AnswersServed(Serve(s, app, i), app)
    ensures WaitsAt(Serve(s, app, i)[0])
    decreases |s|
  {
    hide ParseRequest, Declines, Respond, FromService, ServerEnds, Use, DropUsed, StatusWire, AnswersServed, Opening;
    var p := ParseRequest(s);
    if p.Err? {
      NoAnswers([Done(if p.error.ConnectionClosed? then PeerClosed else BadRequest(p.error))], [], app);
    } else {
      var h, body := p.value.head, s[p.value.start..];
      ParsedVersion(s);
      if Declines(h, app) {
        ServeServes(body[DropUsed(p.value.framing, body)..], app, i);
        NoAnswers([Got(h, []), Declined(h, StatusWire(app.shouldContinue(h)))],
                  Serve(body[DropUsed(p.value.framing, body)..], app, i), app);
      } else {
        OpeningFirst(h, Use(p.value.framing, body, app.wantsBody(h)).data, app);
        var t := Use(p.value.framing, body, app.wantsBody(h));
        var es := Respond(h, t.data, app, i);
        if es[|es| - 1].Done? {
          RespondServes(h, t.data, app, i, []);
        } else {
          ServeServes(body[t.used..], app, i + 1);
          RespondServes(h, t.data, app, i, Serve(body[t.used..], app, i + 1));
        }
      }
    }
  }

  /** Persistence over a run, also for responses without a body: after one that the client accepts
      (no upgrade, no status 101), the loop ends exactly when the client closes its connection, if
      and only if it is not the case that an HTTP/1.1 request asked to close and the service did not
      say so. So a connection that the client keeps is otherwise one that the server still serves. */
  lemma PersistenceOverRun(s: bytes, app: App, i: nat, j: nat, lead: bytes, tail: bytes)
    requires j < |Serve(s, app, i)| && Serve(s, app, i)[j].Answer? && IsLead(lead)
    requires var e := Serve(s, app, i)[j];
             GoodResponseHead(e.res) && !e.said.reply.upgrade && e.said.reply.code != 101
    ensures var es := Serve(s, app, i);
            var p := ParseResponse(lead + es[j].wire + tail);
            && j + 1 < |es|
            && (WritesBody(es[j].head, es[j].said.reply.code) && GoodResponse(es[j].res) ==> p.Ok?)
            && (p.Ok? ==>
                  ((es[j + 1] == Done(Closing) <==> ClientOutcome(p.value.head).ClientClose?)
                   <==> !ClosesUnsaid(es[j].head, es[j].said)))
  {
    hide Serve, ParseResponse, GoodResponse, GoodResponseHead, HasOption, ChooseResponse, ResponseWire, FixUp;
    var es := Serve(s, app, i);
    ServeServes(s, app, i);
    var data, k :| FromServiceAs(es[j], app, data, k);
    FixUpKeeps(es[j].head, es[j].said, app, k);
    PersistenceAgreement(lead, es[j].head, es[j].said, app, k, tail);
  }

  lemma FixUpKeeps(h: RequestHead, res: Response, app: App, i: nat)
    ensures var fixed := FixUp(h, res, app, i);
            fixed.reply.upgrade == res.reply.upgrade && fixed.reply.code == res.reply.code && fixed.body == res.body
  {
  }
}
