/** What becomes of a request that expects `100-continue` (section 10.1.1 of RFC 9110), said of the events
    of a run. */
module Expectations {
  import opened Bytes
  import opened Head
  import opened Content
  import opened Framing
  import opened Requests
  import opened Responses
  import opened Serving
  import opened Pipelining

  predicate Expects(h: RequestHead) { Values(h.headers, EXPECT) == [CONTINUE] }

  predicate ToldToContinue(h: RequestHead, app: App) { app.shouldContinue(h).code == 100 }

  /** What follows the call of the service: its answer, or the end if it fails or cannot be written. */
  ghost predicate FollowsCall(e: Event, h: RequestHead, data: bytes, app: App)
  {
    match app.call(h, data)
    case None => e == Done(ServiceFailed)
    case Some(res) => e.Broken? || (e.Answer? && e.head == h && e.said == res)
  }

  ghost predicate CallAt(es: seq<Event>, j: nat, h: RequestHead, data: bytes, app: App)
  {
    j + 1 < |es| && es[j] == Called(h, data) && FollowsCall(es[j + 1], h, data, app)
  }

  /** The response to the expectation of `h`. */
  ghost predicate StatusOf(wire: bytes, h: RequestHead, app: App) { wire == StatusWire(app.shouldContinue(h)) }

  /** The place of one event in a run. */
  ghost predicate Placed(es: seq<Event>, j: nat, app: App)
    requires j < |es|
  {
    match es[j]
    case Got(h, data) =>
      if !Expects(h) then CallAt(es, j + 1, h, data, app)
      else if ToldToContinue(h, app) then
        && j + 1 < |es| && es[j + 1].Interim? && StatusOf(es[j + 1].wire, h, app) && CallAt(es, j + 2, h, data, app)
      else
        && j + 2 < |es| && es[j + 1].Declined? && es[j + 1].head == h && StatusOf(es[j + 1].wire, h, app)
        && WaitsAt(es[j + 2])
    case Interim(_) => 0 < j && es[j - 1].Got? && Expects(es[j - 1].head) && ToldToContinue(es[j - 1].head, app)
    case Declined(h, _) => 0 < j && es[j - 1].Got? && Expects(h) && !ToldToContinue(h, app) && es[j - 1].head == h
    case Called(h, data) =>
      && 0 < j
      && (if Expects(h) then ToldToContinue(h, app) && 1 < j && es[j - 1].Interim? && es[j - 2] == Got(h, data)
          else es[j - 1] == Got(h, data))
    case _ => true
  }

  ghost predicate AllPlaced(es: seq<Event>, app: App)
  {
    forall j :: 0 <= j < |es| ==> Placed(es, j, app)
  }

  lemma PlacedBehind(round: seq<Event>, rest: seq<Event>, k: nat, app: App)
    requires k < |rest| && Placed(rest, k, app)
    ensures Placed(round + rest, |round| + k, app)
  {
    hide FollowsCall, StatusOf, Expects, ToldToContinue;
    var es := round + rest;
    assert forall m :: 0 <= m < |rest| ==> es[|round| + m] == rest[m];
  }

  lemma PlacedThen(round: seq<Event>, rest: seq<Event>, app: App)
    requires AllPlaced(rest, app) && forall j :: 0 <= j < |round| ==> Placed(round + rest, j, app)
    ensures AllPlaced(round + rest, app)
  {
    hide Placed;
    forall j | 0 <= j < |round + rest|
      ensures Placed(round + rest, j, app)
    {
      if j >= |round| { PlacedBehind(round, rest, j - |round|, app); }
    }
  }

  lemma RespondFollows(h: RequestHead, data: bytes, app: App, i: nat)
    ensures FollowsCall(Respond(h, data, app, i)[0], h, data, app)
    ensures forall k :: 0 <= k < |Respond(h, data, app, i)| ==>
              var e := Respond(h, data, app, i)[k];
              !e.Got? && !e.Interim? && !e.Declined? && !e.Called?
  {
    RespondShape(h, data, app, i);
  }

  lemma DeclinesMeans(h: RequestHead, app: App)
    ensures Declines(h, app) <==> Expects(h) && !ToldToContinue(h, app)
  {
  }

  lemma AnsweredPlaced(h: RequestHead, data: bytes, app: App, i: nat, rest: seq<Event>)
    requires !Declines(h, app) && AllPlaced(rest, app)
    ensures AllPlaced(Opening(h, data, app) + Respond(h, data, app, i) + rest, app)
  {
    DeclinesMeans(h, app);
    RespondFollows(h, data, app, i);
    hide Respond, FollowsCall, Declines, StatusWire;
    var opening, es := Opening(h, data, app), Respond(h, data, app, i);
    var round := opening + es;
    var all := round + rest;
    assert all[|opening|] == es[0];
    forall j | 0 <= j < |round|
      ensures Placed(all, j, app)
    {
      if j >= |opening| { assert all[j] == es[j - |opening|]; } else { assert all[j] == opening[j]; }
    }
    PlacedThen(round, rest, app);
  }

  lemma DeclinedPlaced(h: RequestHead, app: App, rest: seq<Event>)
    requires Declines(h, app) && AllPlaced(rest, app) && rest != [] && WaitsAt(rest[0])
    ensures AllPlaced([Got(h, []), Declined(h, StatusWire(app.shouldContinue(h)))] + rest, app)
  {
    DeclinesMeans(h, app);
    hide StatusWire;
    PlacedThen([Got(h, []), Declined(h, StatusWire(app.shouldContinue(h)))], rest, app);
  }

  lemma NonePlaced(app: App)
    ensures AllPlaced([], app)
  {
  }

  lemma {:induction false} RunIsPlaced(s: bytes, app: App, i: nat)
    ensures AllPlaced(Serve(s, app, i), app)
    decreases |s|
  {
    hide ParseRequest, Respond, Declines, Opening, Use, DropUsed, AllPlaced, StatusWire;
    var p := ParseRequest(s);
    if p.Err? {
      DonePlaced(if p.error.ConnectionClosed? then PeerClosed else BadRequest(p.error), app);
    } else {
      var h, body := p.value.head, s[p.value.start..];
      if Declines(h, app) {
        var rest := body[DropUsed(p.value.framing, body)..];
        RunIsPlaced(rest, app, i);
        StartsWaiting(rest, app, i);
        DeclinedPlaced(h, app, Serve(rest, app, i));
      } else {
        var t := Use(p.value.framing, body, app.wantsBody(h));
        var es := Respond(h, t.data, app, i);
        if es[|es| - 1].Done? {
          NonePlaced(app);
          AnsweredPlaced(h, t.data, app, i, []);
        } else {
          RunIsPlaced(body[t.used..], app, i + 1);
          AnsweredPlaced(h, t.data, app, i, Serve(body[t.used..], app, i + 1));
        }
      }
    }
  }

  lemma DonePlaced(end: End, app: App)
    ensures AllPlaced([Done(end)], app)
  {
  }

  lemma StartsWaiting(s: bytes, app: App, i: nat)
    ensures Serve(s, app, i) != [] && WaitsAt(Serve(s, app, i)[0])
  {
    hide Serve, AnswersServed;
    ServeServes(s, app, i);
    ResponsesInOrder(s, app, i);
  }

  // ----- the law -----

  /** In every run, a request that expects to be told is followed by an interim response and then by
      the call of the service, if and only if the service says 100; with any other status it is
      declined, and the next thing to come is a request (or none). A request that expects nothing is
      followed by the call. And the service is called for nothing else. */
  lemma ExpectationsAreMet(s: bytes, app: App, i: nat, j: nat)
    requires j < |Serve(s, app, i)| && Serve(s, app, i)[j].Got?
    ensures var es := Serve(s, app, i);
            var h, data := es[j].head, es[j].data;
            && j + 2 < |es|
            && (Values(h.headers, EXPECT) != [CONTINUE] ==> CallAt(es, j + 1, h, data, app))
            && (Values(h.headers, EXPECT) == [CONTINUE] ==>
                  && (app.shouldContinue(h).code == 100 <==> es[j + 1].Interim? && CallAt(es, j + 2, h, data, app))
                  && (app.shouldContinue(h).code != 100 <==> es[j + 1].Declined? && WaitsAt(es[j + 2])))
  {
    hide Serve, FollowsCall, StatusWire;
    RunIsPlaced(s, app, i);
    assert Placed(Serve(s, app, i), j, app);
  }

  lemma CalledForItsRequest(s: bytes, app: App, i: nat, j: nat)
    requires j < |Serve(s, app, i)| && Serve(s, app, i)[j].Called?
    ensures var es := Serve(s, app, i);
            var h, data := es[j].head, es[j].data;
            && (Values(h.headers, EXPECT) == [CONTINUE] ==> app.shouldContinue(h).code == 100)
            && 0 < j
            && (es[j - 1] == Got(h, data) || (es[j - 1].Interim? && 1 < j && es[j - 2] == Got(h, data)))
  {
    hide Serve, FollowsCall, StatusWire;
    RunIsPlaced(s, app, i);
    assert Placed(Serve(s, app, i), j, app);
  }

  predicate GoodStatus(st: Status) { 100 <= st.code <= 999 && Text(st.reason) }

  lemma StatusFields()
    ensures GoodFields(Set([], CONTENT_LENGTH, Numeral(0, 10)))
    ensures Coding([]) == None && DeclaredLength([]).Absent?
  {
    hide Numeral, GoodField, Coding, DeclaredLength, Set;
    KnownFields([], 0);
    SetGoodField([], Field(CONTENT_LENGTH, Numeral(0, 10)));
    NothingDeclared();
  }

  /** A status is written as a response of that code, HTTP/1.1 and no body. */
  lemma StatusIsRead(lead: bytes, st: Status, tail: bytes)
    requires IsLead(lead) && GoodStatus(st)
    ensures var s := lead + StatusWire(st) + tail;
            var p := ParseResponse(s);
            && p.Ok? && p.value.head.code == st.code && p.value.head.version == Http11
            && Reads(s, p.value.head, [], tail)
  {
    var r := Response(Reply(st.code, st.reason, Http11, [], false), Empty);
    hide Coding, DeclaredLength, GoodFields, Numeral, Set, ParseResponse, FullRead, IntactResponse,
         ResponseWire, HasOption, Text;
    StatusFields();
    assert ResponseChoice(r) == Chosen(FixedLength(0), Set([], CONTENT_LENGTH, Numeral(0, 10)));
    ResponseRoundTrip(lead, r, tail);
    assert [] + tail == tail;
  }

  /** What is written for an expectation is read as a response of exactly the status that the service
      gave for it, with no body. */
  lemma StatusesAreRead(s: bytes, app: App, i: nat, j: nat, lead: bytes, tail: bytes)
    requires j < |Serve(s, app, i)| && Serve(s, app, i)[j].Got?
    requires Values(Serve(s, app, i)[j].head.headers, EXPECT) == [CONTINUE]
    requires IsLead(lead) && GoodStatus(app.shouldContinue(Serve(s, app, i)[j].head))
    ensures var es := Serve(s, app, i);
            var st := app.shouldContinue(es[j].head);
            && j + 1 < |es| && (es[j + 1].Interim? || es[j + 1].Declined?)
            && var wire := lead + es[j + 1].wire + tail;
            && var p := ParseResponse(wire);
            && p.Ok? && p.value.head.code == st.code && p.value.head.version == Http11
            && Reads(wire, p.value.head, [], tail)
  {
    hide Serve, FollowsCall, StatusWire, GoodStatus, ParseResponse, Reads;
    RunIsPlaced(s, app, i);
    assert Placed(Serve(s, app, i), j, app);
    StatusIsRead(lead, app.shouldContinue(Serve(s, app, i)[j].head), tail);
  }
}
