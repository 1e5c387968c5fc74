/** A client of `src/client.rs` and a server of `src/server.rs` on one connection: the client sends each
    request when it has read the answer to the one before. */
module Conversing {
  import opened Bytes
  import opened Streams
  import opened Head
  import opened Content
  import opened Bodies
  import opened Framing
  import opened Requests
  import opened Responses
  import opened Serving
  import opened Pipelining
  import opened ServeLoop
  import C = Clients

  /** A request as the client sends it. */
  function Hosted(r: Request, host: bytes): Request { Request(C.WithHost(r.head, host), r.body) }

  function HostedAll(reqs: seq<Request>, host: bytes): (hs: seq<Request>)
    ensures |hs| == |reqs|
  {
    seq(|reqs|, i requires 0 <= i < |reqs| => Hosted(reqs[i], host))
  }

  /** Served, and not with a status that the client takes for an upgrade. */
  predicate Conversable(r: Request, app: App, i: nat)
  {
    ServedRequest(r, app, i) && app.call(SentHead(r), GivenBody(r, app)).value.reply.code != 101
  }

  /** The connection before the client's next request. While the server serves it, there is still to
      come what the server writes on the requests that are left; and after that at most an empty line. */
  ghost predicate Between(rest: bytes, served: bool, lead: bytes, left: bytes, reqs: seq<Request>, app: App, i: nat)
  {
    && IsLead(lead) && IsLead(left)
    && rest == left + if served then Output(Serving.Serve(lead + WireAll(reqs), app, i)) else []
  }

  /** The answer of the server to the next request, as the client finds it. */
  ghost predicate Answers(s: bytes, r: Request, app: App, i: nat, data: bytes, rest: bytes, ends: bool)
  {
    && var h := SentHead(r);
    && app.call(h, GivenBody(r, app)).Some?
    && var fixed := FixUp(h, app.call(h, GivenBody(r, app)).value, app, i);
    && var c := ResponseChoice(fixed);
    && c.Chosen? && data == Delivered(c.encoding, fixed.body)
    && ends == ServerEnds(h, OutcomeOf(fixed.reply, c.encoding, c.headers))
    && var head := ResponseHead(fixed.reply.code, fixed.reply.version, c.headers);
    && Reads(s, head, data, rest) && !ClientOutcome(head).ClientUpgrade?
    && (ClientOutcome(head).ClientClose? ==> ends)
  }

  /** One exchange. */
  lemma NextExchange(lead: bytes, left: bytes, reqs: seq<Request>, app: App, i: nat)
    returns (data: bytes, rest: bytes, ends: bool, lead': bytes, left': bytes)
    requires reqs != [] && IsLead(lead) && IsLead(left) && Conversable(reqs[0], app, i)
    ensures RequestWire(reqs[0]).ok
    ensures Answers(left + Output(Serving.Serve(lead + WireAll(reqs), app, i)), reqs[0], app, i, data, rest, ends)
    ensures Between(rest, !ends, lead', left', reqs[1..], app, i + 1)
  {
    hide GoodRequest, SentHead, SentBody, RequestLeftOver, RequestWire, SendsTrailers, PlainAnswer, FixUp,
         ChooseResponse, Delivered, LeftOver, DemandsClose, Serving.Serve, Output, Reads, HasOption,
         SentInChunks, GivenBody, ExpectsContinue;
    var r, tail := reqs[0], WireAll(reqs[1..]);
    assert lead + WireAll(reqs) == lead + RequestWire(r).out + tail;
    OneExchange(lead, left, r, tail, app, i);
    PlainLeftOver(r);
    RequestRoundTrip([], r, []);
    var h := SentHead(r);
    var res := app.call(h, GivenBody(r, app)).value;
    var fixed := FixUp(h, res, app, i);
    var c := ResponseChoice(fixed);
    FixUpKeeps(h, res, app, i);
    CloseIsWritten(fixed.reply, fixed.body.Len());
    data := Delivered(c.encoding, fixed.body);
    ends := ServerEnds(h, OutcomeOf(fixed.reply, c.encoding, c.headers));
    lead', left' := RequestLeftOver(r), LeftOver(c.encoding, fixed.body);
    rest := left' + if ends then [] else Output(Serving.Serve(lead' + tail, app, i + 1));
  }

  /** What the client makes of that answer, and what the service meant. */
  lemma AnswerMeans(s: bytes, reqs: seq<Request>, app: App, i: nat, data: bytes, rest: bytes, ends: bool)
    requires reqs != [] && Answers(s, reqs[0], app, i, data, rest, ends)
    ensures var p := ParseResponse(s);
            && p.Ok? && !ClientOutcome(p.value.head).ClientUpgrade? && (ClientOutcome(p.value.head).ClientClose? ==> ends)
            && Reads(s, p.value.head, data, rest)
            && Expected(reqs, app, i) == [(p.value.head.code, data)] + if ends then [] else Expected(reqs[1..], app, i + 1)
  {
    hide SentHead, FixUp, ChooseResponse, Delivered, ServerEnds, GivenBody, ParseResponse, FullRead, ClientOutcome;
  }

  /** The client asks for one thing, and reads the whole answer. */
  method Ask(client: C.Client, authority: bytes, host: bytes, req: Request, conn: C.Connection)
    returns (answer: Option<(nat, bytes)>, kept: bool)
    requires client.Valid() && conn.input.Valid()
    requires client.connections == map[] || client.connections == map[authority := conn]
    modifies client, conn, conn.input
    ensures client.Valid() && conn.input.Valid()
    ensures client.connections == if kept then map[authority := conn] else map[]
    ensures var w := RequestWire(Hosted(req, host));
            var s := old(conn.input.Rest());
            var p := ParseResponse(s);
            && conn.sent == old(conn.sent) + w.out && (answer.Some? <==> w.ok && p.Ok?) && (kept ==> answer.Some?)
            && (answer.Some? ==>
                  && answer.value.0 == p.value.head.code
                  && Reads(s, p.value.head, answer.value.1, conn.input.Rest())
                  && (kept <==> ClientOutcome(p.value.head).ClientKeepAlive?))
  {
    hide ParseResponse, RequestWire, ClientOutcome, FullRead, BodyIs, C.WithHost, C.Client.Valid;
    var body := new Body.FromContent(req.body);
    ghost var s, from, p := conn.input.Rest(), conn.input.pos, ParseResponse(conn.input.Rest());
    var r := client.Request(Some(authority), host, req.head, body, if authority in client.connections then None else Some(conn));
    if !r.Replied? {
      return None, false;
    }
    kept := r.outcome.ClientKeepAlive?;
    ghost var rest := s[p.value.start..];
    assert rest == conn.input.data[from + p.value.start..];
    var data := UseBody(r.response.body, AsBytes, p.value.framing, conn.input, rest, from + p.value.start);
    answer := Some((r.response.head.code, data));
  }

  lemma {:induction false} WireAllAppend(reqs: seq<Request>, r: Request)
    ensures WireAll(reqs + [r]) == WireAll(reqs) + RequestWire(r).out
    decreases reqs
  {
    hide RequestWire;
    if reqs == [] {
      assert [] + [r] == [r];
      assert WireAll([r]) == RequestWire(r).out + WireAll([]);
    } else {
      assert (reqs + [r])[1..] == reqs[1..] + [r];
      WireAllAppend(reqs[1..], r);
    }
  }

  /** What the next request finds: the answer to it when the server serves, and nothing otherwise. */
  lemma NextAnswer(s: bytes, served: bool, lead: bytes, left: bytes, reqs: seq<Request>, app: App, i: nat)
    returns (data: bytes, rest: bytes, ends: bool, lead': bytes, left': bytes)
    requires reqs != [] && Conversable(reqs[0], app, i) && Between(s, served, lead, left, reqs, app, i)
    ensures if served then
              && RequestWire(reqs[0]).ok && Answers(s, reqs[0], app, i, data, rest, ends)
              && Between(rest, !ends, lead', left', reqs[1..], app, i + 1)
            else ParseResponse(s).Err?
  {
    hide ParseResponse, Answers, Conversable, Output, Serving.Serve, RequestWire, WireAll, IsLead;
    data, rest, ends, lead', left' := [], [], true, [], [];
    if served {
      data, rest, ends, lead', left' := NextExchange(lead, left, reqs, app, i);
    } else {
      NothingToParse(left);
      assert left + [] == left;
    }
  }

  ghost predicate AllConversable(reqs: seq<Request>, host: bytes, hosted: seq<Request>, app: App)
  {
    && |hosted| == |reqs|
    && forall k :: 0 <= k < |reqs| ==> hosted[k] == Hosted(reqs[k], host) && Conversable(hosted[k], app, k)
  }

  lemma ConversableAt(reqs: seq<Request>, host: bytes, hosted: seq<Request>, app: App, i: nat)
    requires AllConversable(reqs, host, hosted, app) && i < |reqs|
    ensures |hosted| == |reqs| && hosted[i..] != [] && hosted[i..][0] == Hosted(reqs[i], host)
    ensures Conversable(hosted[i..][0], app, i)
  {
    hide Conversable, Hosted;
  }

  /** One exchange of the conversation. */
  method AskNext(client: C.Client, authority: bytes, host: bytes, req: Request, ghost rest: seq<Request>,
                 conn: C.Connection, ghost app: App, ghost i: nat, ghost served: bool, ghost lead: bytes, ghost left: bytes)
    returns (answer: Option<(nat, bytes)>, kept: bool, ghost ends: bool, ghost lead': bytes, ghost left': bytes)
    requires client.Valid() && conn.input.Valid()
    requires client.connections == map[] || client.connections == map[authority := conn]
    requires rest != [] && rest[0] == Hosted(req, host) && Conversable(rest[0], app, i)
    requires Between(conn.input.Rest(), served, lead, left, rest, app, i)
    modifies client, conn, conn.input
    ensures client.Valid() && conn.input.Valid()
    ensures client.connections == map[] || client.connections == map[authority := conn]
    ensures conn.sent == old(conn.sent) + RequestWire(rest[0]).out && (kept ==> answer.Some?)
    ensures answer.Some? <==> served
    ensures answer.Some? ==>
              && Expected(rest, app, i) == [answer.value] + (if ends then [] else Expected(rest[1..], app, i + 1))
              && Between(conn.input.Rest(), !ends, lead', left', rest[1..], app, i + 1) && (!kept ==> ends)
  {
    hide Conversable, Expected, Between, Answers, RequestWire, ParseResponse, ClientOutcome, Hosted, FullRead,
         C.Client.Valid;
    ghost var s, data, behind := conn.input.Rest(), [], [];
    data, behind, ends, lead', left' := NextAnswer(s, served, lead, left, rest, app, i);
    answer, kept := Ask(client, authority, host, req, conn);
    if served {
      AnswerMeans(s, rest, app, i, data, behind, ends);
      OneOfThree(ParseResponse(s).value.head);
    }
  }

  lemma OneOfThree(h: ResponseHead)
    ensures ClientOutcome(h).ClientKeepAlive? || ClientOutcome(h).ClientClose? || ClientOutcome(h).ClientUpgrade?
  {
  }

  /** How things stand after `i` requests: what was got and sent, and what is on the connection. */
  ghost predicate Underway(hosted: seq<Request>, app: App, i: nat, got: seq<(nat, bytes)>, sent: bytes,
                           rest: bytes, more: bool, served: bool, lead: bytes, left: bytes)
  {
    && i <= |hosted| && |got| <= i <= |got| + (if more then 0 else 1)
    && (more ==> Between(rest, served, lead, left, hosted[i..], app, i))
    && Expected(hosted, app, 0) == got + (if more && served then Expected(hosted[i..], app, i) else [])
    && sent == WireAll(hosted[..i])
  }

  lemma Begins(hosted: seq<Request>, app: App, s: bytes)
    requires s == Output(Serving.Serve(WireAll(hosted), app, 0))
    ensures Underway(hosted, app, 0, [], [], s, true, true, [], [])
  {
    hide Expected, Between;
    BeforeAll(s, hosted, app);
    assert hosted[0..] == hosted && hosted[..0] == [];
  }

  lemma GoesOn(hosted: seq<Request>, app: App, i: nat, got: seq<(nat, bytes)>, sent: bytes,
               s: bytes, served: bool, lead: bytes, left: bytes,
               answer: Option<(nat, bytes)>, kept: bool, rest: bytes, ends: bool, lead': bytes, left': bytes)
    requires Underway(hosted, app, i, got, sent, s, true, served, lead, left) && i < |hosted|
    requires (answer.Some? <==> served) && (kept ==> answer.Some?)
    requires answer.Some? ==>
               && Expected(hosted[i..], app, i) == [answer.value] + (if ends then [] else Expected(hosted[i..][1..], app, i + 1))
               && Between(rest, !ends, lead', left', hosted[i..][1..], app, i + 1) && (!kept ==> ends)
    ensures Underway(hosted, app, i + 1, got + (if answer.Some? then [answer.value] else []),
                     sent + RequestWire(hosted[i..][0]).out, rest, kept, !ends, lead', left')
  {
    hide Expected, Between, WireAll, RequestWire;
    SplitAt(hosted, i);
    WireAllAppend(hosted[..i], hosted[i]);
    if answer.Some? {
      var more := if ends then [] else Expected(hosted[i + 1..], app, i + 1);
      assert got + ([answer.value] + more) == (got + [answer.value]) + more;
    }
  }

  lemma Concludes(hosted: seq<Request>, app: App, i: nat, got: seq<(nat, bytes)>, sent: bytes,
                  rest: bytes, more: bool, served: bool, lead: bytes, left: bytes)
    requires Underway(hosted, app, i, got, sent, rest, more, served, lead, left) && (!more || i == |hosted|)
    ensures got == Expected(hosted, app, 0) && |got| <= i <= |got| + 1 && i <= |hosted| && sent == WireAll(hosted[..i])
  {
    hide Expected, Between, WireAll;
    NothingExpected(app, i);
    assert i == |hosted| ==> hosted[i..] == [];
  }

  method ConverseFrom(authority: bytes, host: bytes, reqs: seq<Request>, ghost hosted: seq<Request>, app: App, conn: C.Connection)
    returns (got: seq<(nat, bytes)>, ghost n: nat)
    requires |hosted| == |reqs| && AllConversable(reqs, host, hosted, app)
    requires conn.input.Valid() && conn.input.Rest() == Output(Serving.Serve(WireAll(hosted), app, 0))
    modifies conn, conn.input
    ensures got == Expected(hosted, app, 0)
    ensures |got| <= n <= |got| + 1 && n <= |hosted| && conn.sent == old(conn.sent) + WireAll(hosted[..n])
  {
    hide AllConversable, Conversable, Expected, Between, Underway, RequestWire, WireAll, Hosted, Output,
         Serving.Serve, C.Client.Valid;
    var client := new C.Client();
    var i, more := 0, true;
    ghost var served, lead, left, sent := true, [], [], [];
    got := [];
    Begins(hosted, app, conn.input.Rest());
    while more && i < |reqs|
      invariant i <= |reqs| && fresh(client) && client.Valid() && conn.input.Valid()
      invariant client.connections == map[] || client.connections == map[authority := conn]
      invariant Underway(hosted, app, i, got, sent, conn.input.Rest(), more, served, lead, left)
      invariant conn.sent == old(conn.sent) + sent
    {
      ghost var s, was, before, behind := conn.input.Rest(), served, lead, left;
      ghost var ends;
      var answer;
      ConversableAt(reqs, host, hosted, app, i);
      StillThere(hosted, app, i, got, sent, s, served, lead, left);
      answer, more, ends, lead, left := AskNext(client, authority, host, reqs[i], hosted[i..], conn, app, i, served, lead, left);
      GoesOn(hosted, app, i, got, sent, s, was, before, behind, answer, more, conn.input.Rest(), ends, lead, left);
      got := got + if answer.Some? then [answer.value] else [];
      assert old(conn.sent) + sent + RequestWire(hosted[i..][0]).out == old(conn.sent) + (sent + RequestWire(hosted[i..][0]).out);
      sent := sent + RequestWire(hosted[i..][0]).out;
      served := !ends;
      i := i + 1;
    }
    n := i;
    Concludes(hosted, app, i, got, sent, conn.input.Rest(), more, served, lead, left);
  }

  lemma StillThere(hosted: seq<Request>, app: App, i: nat, got: seq<(nat, bytes)>, sent: bytes,
                   s: bytes, served: bool, lead: bytes, left: bytes)
    requires Underway(hosted, app, i, got, sent, s, true, served, lead, left)
    ensures i <= |hosted| && Between(s, served, lead, left, hosted[i..], app, i)
  {
  }

  /** A client that asks for one thing after the other over its pooled connection gets what the service
      gives, up to and including the first answer that closes, when the connection delivers what the
      server writes on the requests; and it sends the first of these, none but the last unanswered. */
  method Converse(authority: bytes, host: bytes, reqs: seq<Request>, app: App, conn: C.Connection)
    returns (got: seq<(nat, bytes)>, ghost n: nat)
    requires conn.input.Valid() && conn.input.Rest() == Output(Serving.Serve(WireAll(HostedAll(reqs, host)), app, 0))
    requires forall k :: 0 <= k < |reqs| ==> Conversable(HostedAll(reqs, host)[k], app, k)
    modifies conn, conn.input
    ensures got == Expected(HostedAll(reqs, host), app, 0)
    ensures (forall k :: 0 <= k < |reqs| ==> IntactExchange(HostedAll(reqs, host)[k], app, k)) ==>
              got == Given(HostedAll(reqs, host), app, 0)
    ensures |got| <= n <= |got| + 1 && n <= |reqs| && conn.sent == old(conn.sent) + WireAll(HostedAll(reqs, host)[..n])
  {
    hide Conversable, IntactExchange, Expected, Given, WireAll, Output;
    ghost var hosted := HostedAll(reqs, host);
    got, n := ConverseFrom(authority, host, reqs, hosted, app, conn);
    if forall k :: 0 <= k < |reqs| ==> IntactExchange(hosted[k], app, k) { ExpectedIsGiven(hosted, app, 0); }
  }

  lemma BeforeAll(s: bytes, reqs: seq<Request>, app: App)
    requires s == Output(Serving.Serve(WireAll(reqs), app, 0))
    ensures Between(s, true, [], [], reqs, app, 0) && WireAll([]) == []
  {
    hide Output, Serving.Serve;
    assert [] + WireAll(reqs) == WireAll(reqs);
    assert [] + s == s;
  }

  lemma NothingExpected(app: App, i: nat)
    ensures Expected([], app, i) == []
  {
  }

  /** Requests to the echo server that keep the connection can be sent in this way, and each is answered
      with its own body. */
  lemma EchoConverses(reqs: seq<Request>, host: bytes, clock: nat -> bytes)
    requires forall i: nat :: Text(clock(i)) && Trimmed(clock(i))
    requires forall k :: 0 <= k < |reqs| ==> EchoRequest(HostedAll(reqs, host)[k]) && !AsksToClose(HostedAll(reqs, host)[k])
    ensures forall k :: 0 <= k < |reqs| ==> Conversable(HostedAll(reqs, host)[k], Echo(clock), k)
    ensures Expected(HostedAll(reqs, host), Echo(clock), 0) == Echoed(HostedAll(reqs, host))
  {
    hide EchoRequest, AsksToClose, ServedRequest, SentHead, GivenBody, Expected, Echoed;
    var hosted := HostedAll(reqs, host);
    forall k | 0 <= k < |reqs|
      ensures Conversable(hosted[k], Echo(clock), k)
    {
      EchoIsServed(hosted[k], clock, k);
    }
    EchoExpected(hosted, clock, 0);
  }
}
