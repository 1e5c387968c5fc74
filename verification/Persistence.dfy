/** What every answer of a run says of its connection, its date and its body, and what becomes of the
    connection after it (section 9.3 of RFC 9112), said of the fields that were sent and received. */
module Persistence {
  import opened Bytes
  import opened Head
  import opened Lookups
  import opened Content
  import opened Framing
  import opened Requests
  import opened Responses
  import opened Serving
  import opened Pipelining

  predicate IsAnswer(s: bytes, app: App, i: nat, j: nat)
  {
    j < |Serve(s, app, i)| && Serve(s, app, i)[j].Answer?
  }

  /** The fields of an answer as sent. */
  function SentFields(e: Event): Headers
    requires e.Answer?
  {
    match ResponseChoice(e.res)
    case Refused => []
    case Chosen(_, hs) => hs
  }

  ghost predicate Says(hs: Headers, token: bytes) { SaidIn(hs, CONNECTION, token) }

  /** What a request says demands the end of the connection: an HTTP/1.0 one unless it asks to persist,
      and an HTTP/1.1 one if it asks to close. */
  ghost predicate WantsNoMore(h: RequestHead)
  {
    if h.version.Http10? then !Says(h.headers, KEEP_ALIVE) else Says(h.headers, CLOSE)
  }

  lemma DemandsCloseMeans(h: RequestHead)
    requires h.version.Http10? || h.version.Http11?
    ensures DemandsClose(h) <==> WantsNoMore(h)
  {
    hide HasOption, SaidIn;
    OptionsAreTrimmed();
    HasOptionMeans(h.headers, KEEP_ALIVE);
    HasOptionMeans(h.headers, CLOSE);
  }

  lemma AnswerOf(s: bytes, app: App, i: nat, j: nat) returns (k: nat)
    requires IsAnswer(s, app, i, j)
    ensures var es := Serve(s, app, i);
            var e := es[j];
            && (e.head.version.Http10? || e.head.version.Http11?) && j + 1 < |es|
            && e.res == FixUp(e.head, e.said, app, k) && ResponseChoice(e.res).Chosen?
            && e.wire == ResponseWire(e.res, WritesBody(e.head, e.res.reply.code)).out
            && e.outcome == OutcomeOf(e.res.reply, ResponseChoice(e.res).encoding, SentFields(e))
            && (es[j + 1] == Done(Upgraded) <==> e.outcome.Upgrade?)
            && (es[j + 1] == Done(Closing) <==> !e.outcome.Upgrade? && ServerEnds(e.head, e.outcome))
            && EndsOrWaits(es, j + 1)
  {
    hide Serve, FixUp, ResponseWire, ChooseResponse, ServerEnds, OutcomeOf, WritesBody;
    ServeServes(s, app, i);
    var e := Serve(s, app, i)[j];
    var data, m :| FromServiceAs(e, app, data, m);
    k := m;
  }

  /** After every answer, the run ends if the service upgrades the connection, if the answer as sent
      says close, or if the request wants no more; and goes on otherwise. An HTTP/1.0 request that does
      not ask to persist is told so. */
  lemma AnswersEndTheRun(s: bytes, app: App, i: nat, j: nat)
    requires IsAnswer(s, app, i, j)
    ensures var es := Serve(s, app, i);
            var e := es[j];
            && j + 1 < |es| && (e.head.version.Http10? || e.head.version.Http11?)
            && (e.head.version.Http10? && !Says(e.head.headers, KEEP_ALIVE) ==> Says(SentFields(e), CLOSE))
            && (es[j + 1] == Done(Upgraded) <==> e.said.reply.upgrade)
            && (if e.said.reply.upgrade || Says(SentFields(e), CLOSE) || WantsNoMore(e.head)
                then j + 2 == |es| && (es[j + 1] == Done(Upgraded) || es[j + 1] == Done(Closing))
                else es[j + 1].Got? || NoRequest(es[j + 1]))
  {
    hide Serve, FixUp, ResponseWire, ChooseResponse, SaidIn, HasOption, DemandsClose;
    var k := AnswerOf(s, app, i, j);
    var e := Serve(s, app, i)[j];
    OptionsAreTrimmed();
    FixUpKeeps(e.head, e.said, app, k);
    DemandsCloseMeans(e.head);
    HasOptionMeans(SentFields(e), CLOSE);
    if e.head.version.Http10? && DemandsClose(e.head) {
      FixUpSaysClose(e.head, e.said, app, k);
      WrittenClose(e.res.reply, e.res.body.Len());
    }
    if !e.res.reply.upgrade { CloseIsWritten(e.res.reply, e.res.body.Len()); }
  }

  /** And whoever parses such an answer finds it said there. */
  lemma OldClientsAreTold(s: bytes, app: App, i: nat, j: nat, lead: bytes, tail: bytes)
    requires IsAnswer(s, app, i, j) && IsLead(lead) && GoodResponseHead(Serve(s, app, i)[j].res)
    requires var h := Serve(s, app, i)[j].head; h.version.Http10? && !Says(h.headers, KEEP_ALIVE)
    ensures var es := Serve(s, app, i);
            var p := ParseResponse(lead + es[j].wire + tail);
            p.Ok? ==> Says(p.value.head.headers, CLOSE) && ClientOutcome(p.value.head).ClientClose?
    ensures |Serve(s, app, i)| == j + 2
  {
    hide Serve, FixUp, ResponseWire, ChooseResponse, SaidIn, HasOption, ParseResponse, GoodResponseHead,
         OutcomeOf, ServerEnds, WritesBody;
    var k := AnswerOf(s, app, i, j);
    var e := Serve(s, app, i)[j];
    AnswersEndTheRun(s, app, i, j);
    HeadIsRead(lead, e.res, WritesBody(e.head, e.res.reply.code), tail);
    OptionsAreTrimmed();
    HasOptionMeans(SentFields(e), CLOSE);
  }

  /** The client closes when the head of a response says so, hands the connection on when its status is
      101, and keeps it otherwise. */
  lemma ClientDecides(h: ResponseHead)
    ensures ClientOutcome(h).ClientClose? <==> Says(h.headers, CLOSE)
    ensures ClientOutcome(h).ClientUpgrade? <==> h.code == 101 && !Says(h.headers, CLOSE)
  {
    hide HasOption, SaidIn;
    OptionsAreTrimmed();
    HasOptionMeans(h.headers, CLOSE);
  }

  // ----- date -----

  lemma ChosenKeeps(r: Reply, len: Option<nat>, name: bytes)
    requires ChooseResponse(r, len).Chosen?
    requires name != CONTENT_LENGTH && name != TRANSFER_ENCODING && name != CONNECTION
    ensures Values(ChooseResponse(r, len).headers, name) == Values(r.headers, name)
  {
    hide Values, Set, Remove, Coding, DeclaredLength, HasOption, Numeral;
    if len.Some? { ValuesOfSet(r.headers, CONTENT_LENGTH, Numeral(len.value, 10), name); }
    ValuesOfSet(r.headers, TRANSFER_ENCODING, CHUNKED, name);
    ValuesOfSet(r.headers, CONNECTION, CLOSE, name);
    ValuesOfRemove(PickResponse(r, len).headers, TRANSFER_ENCODING, name);
  }

  /** Every answer is sent with exactly one date, in the form of one or read off the clock; the
      service's own, if it gives one. */
  lemma AnswersAreDated(s: bytes, app: App, i: nat, j: nat)
    requires IsAnswer(s, app, i, j)
    ensures var e := Serve(s, app, i)[j];
            var dates, own := Values(SentFields(e), DATE), Values(e.said.reply.headers, DATE);
            && |dates| == 1 && (app.isDate(dates[0]) || exists k :: dates[0] == app.clock(k))
            && (|own| == 1 && app.isDate(own[0]) ==> dates == own)
  {
    hide Serve, FixUp, ResponseWire, ChooseResponse, Values, OutcomeOf, ServerEnds, WritesBody;
    var k := AnswerOf(s, app, i, j);
    var e := Serve(s, app, i)[j];
    FixUpCorrects(e.head, e.said, app, k, DATE);
    ChosenKeeps(e.res.reply, e.res.body.Len(), DATE);
  }

  // ----- body -----

  /** Requests whose answer has no body. */
  predicate Bodiless(h: RequestHead, code: nat)
  {
    h.verb == HEAD || (h.verb == CONNECT && !(200 <= code <= 299))
  }

  predicate NothingBehindHead(lead: bytes, wire: bytes, tail: bytes)
  {
    HeadEnd(lead + wire + tail, 0) == |lead + wire|
  }

  /** The response is read off the wire with its body; one that runs to the end, if nothing follows. */
  predicate BodyBehindHead(lead: bytes, wire: bytes, r: Response, tail: bytes)
  {
    && var c := ResponseChoice(r);
    && c.Chosen?
    && ((c.encoding.CloseDelimited? ==> tail == []) ==>
          Reads(lead + wire + tail, ResponseHead(r.reply.code, r.reply.version, c.headers),
                Delivered(c.encoding, r.body), LeftOver(c.encoding, r.body) + tail))
  }

  /** An answer to HEAD, and one to CONNECT that is no success, is its head alone. Any other is read back
      with its body. */
  lemma AnswersHaveBodies(s: bytes, app: App, i: nat, j: nat, lead: bytes, tail: bytes)
    requires IsAnswer(s, app, i, j) && IsLead(lead) && GoodResponse(Serve(s, app, i)[j].res)
    ensures var e := Serve(s, app, i)[j];
            if Bodiless(e.head, e.said.reply.code) then NothingBehindHead(lead, e.wire, tail)
            else BodyBehindHead(lead, e.wire, e.res, tail)
  {
    hide Serve, FixUp, ResponseWire, ChooseResponse, OutcomeOf, ServerEnds, HeadEnd, Reads, GoodResponseHead, Delivered,
         LeftOver, NothingBehindHead, BodyBehindHead;
    var k := AnswerOf(s, app, i, j);
    var e := Serve(s, app, i)[j];
    FixUpKeeps(e.head, e.said, app, k);
    if WritesBody(e.head, e.res.reply.code) { HasBody(lead, e.res, tail); } else { HeadAlone(lead, e.res, tail); }
  }

  lemma HasBody(lead: bytes, r: Response, tail: bytes)
    requires IsLead(lead) && GoodResponse(r)
    ensures BodyBehindHead(lead, ResponseWire(r, true).out, r, tail)
  {
    hide Reads, ResponseWire, ChooseResponse, Delivered, LeftOver, GoodResponse;
    GoodIsFaithful(r);
    if ResponseChoice(r).encoding.CloseDelimited? ==> tail == [] { ReadOne(lead, r, tail); }
  }

  lemma HeadAlone(lead: bytes, r: Response, tail: bytes)
    requires IsLead(lead) && GoodResponseHead(r)
    ensures NothingBehindHead(lead, ResponseWire(r, false).out, tail)
  {
    hide HeadEnd, ResponseText, ParseResponseHead;
    ResponseHeadReads(lead, r, tail);
  }
}
