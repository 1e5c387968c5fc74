/** The client of `src/client.rs`: `send_request` and the pool of `Client::request`. */
module Clients {
  import opened Bytes
  import opened Streams
  import opened Head
  import opened Content
  import opened Bodies
  import opened Framing
  import opened Requests
  import opened Responses
  import opened Serving

  /** A connection: what it will deliver, what was sent on it, and the last response head read. */
  class Connection {
    const input: ByteStream
    var sent: bytes
    ghost var last: Option<ResponseHead>

    constructor (input: ByteStream)
      ensures this.input == input && sent == [] && last == None
    {
      this.input, sent, last := input, [], None;
    }
  }

  /** The body of a response is a new object; of the others it can touch only the connection's input. */
  twostate predicate Handed(new body: Body, input: ByteStream)
    reads body
  {
    && fresh(body) && body.inner.Some? && body !in body.inner.value.Frame()
    && fresh(body.inner.value.Frame() - {input})
  }

  datatype Sent = NotAnswered | Answered(outcome: ConnectionOutcome, response: Incoming<ResponseHead>)

  /** `send_request`: what is written is flushed before the response is parsed, and the outcome is
      decided by the response head. */
  method SendOn(conn: Connection, h: RequestHead, body: Body) returns (r: Sent)
    requires conn.input.Valid() && body.inner.Some? && body.inner.value.Valid()
    requires body !in body.inner.value.Frame() && conn.input !in body.inner.value.Frame()
    modifies conn, conn.input, body, body.inner.value.Frame()
    ensures conn.input.Valid()
    ensures var w := RequestWire(Request(h, old(body.inner.value.View())));
            var p := ParseResponse(old(conn.input.Rest()));
            && conn.sent == old(conn.sent) + w.out
            && (r.Answered? <==> w.ok && p.Ok?)
            && (r.Answered? ==>
                  && r.response.head == p.value.head && r.outcome == ClientOutcome(p.value.head)
                  && conn.last == Some(p.value.head) && Handed(r.response.body, conn.input)
                  && ResponseFrom(Ok(r.response), old(conn.input.Rest()), conn.input, old(conn.input.pos)))
  {
    hide ParseResponse, RequestWire, ClientOutcome, BodyIs;
    var writer := new BufWriter();
    var ok := SendRequest(h, body, writer);
    writer.Flush();
    assert writer.sent == writer.Written();
    conn.sent := conn.sent + writer.sent;
    if !ok {
      return NotAnswered;
    }
    ghost var s := conn.input.Rest();
    var response := ReceiveResponse(conn.input);
    if response.Err? {
      return NotAnswered;
    }
    var head := response.value.head;
    conn.last := Some(head);
    r := Answered(ClientOutcome(head), response.value);
  }

  /** `upgraded` is the connection that a switched protocol leaves in the hands of the caller. */
  datatype RequestResult =
    | InvalidUri
    | IoError
    | Replied(outcome: ConnectionOutcome, response: Incoming<ResponseHead>, upgraded: Option<Connection>)

  /** The request as sent, with the host of its authority. */
  function WithHost(h: RequestHead, host: bytes): RequestHead
  {
    h.(headers := Set(h.headers, HOST, host))
  }

  /** Setting the host changes nothing of how a request is sent but that field. */
  lemma HostedChoice(h: RequestHead, host: bytes, len: Option<nat>, name: bytes)
    ensures var c, d := ChooseRequest(h, len), ChooseRequest(WithHost(h, host), len);
            && (c.Chosen? <==> d.Chosen?)
            && (c.Chosen? ==> d.encoding == c.encoding
                              && Values(d.headers, name) == if name == HOST then [host] else Values(c.headers, name))
  {
    hide Set, Values, Coding, DeclaredLength, HasOption, Numeral;
    LookupsAfterSet(h.headers, HOST, host);
    ValuesOfSet(h.headers, HOST, host, name);
    if len.Some? {
      ValuesOfSet(h.headers, CONTENT_LENGTH, Numeral(len.value, 10), name);
      ValuesOfSet(Set(h.headers, HOST, host), CONTENT_LENGTH, Numeral(len.value, 10), name);
    }
    ValuesOfSet(h.headers, TRANSFER_ENCODING, CHUNKED, name);
    ValuesOfSet(Set(h.headers, HOST, host), TRANSFER_ENCODING, CHUNKED, name);
  }

  /** `got` is `plain` with that one host. */
  ghost predicate IsHosted(got: RequestHead, plain: RequestHead, host: bytes)
  {
    && got.verb == plain.verb && got.target == plain.target && got.version == plain.version
    && Values(got.headers, HOST) == [host]
    && forall name :: name != HOST ==> Values(got.headers, name) == Values(plain.headers, name)
  }

  lemma SentIsHosted(r: Request, host: bytes)
    requires GoodRequest(Requests.Request(WithHost(r.head, host), r.body))
    ensures IsHosted(SentHead(Requests.Request(WithHost(r.head, host), r.body)), SentHead(r), host)
    ensures SentBody(Requests.Request(WithHost(r.head, host), r.body)) == SentBody(r)
  {
    var hosted := Requests.Request(WithHost(r.head, host), r.body);
    GoodIsChosen(hosted);
    HostKeepsStart(r.head, host);
    hide GoodRequest, ChooseRequest, Values, Delivered, WithHost;
    forall name
      ensures Values(SentHead(hosted).headers, name)
           == if name == HOST then [host] else Values(SentHead(r).headers, name)
    {
      HostedChoice(r.head, host, r.body.Len(), name);
    }
    HostedChoice(r.head, host, r.body.Len(), HOST);
  }

  /** What a server parses from a request of the client: the host of its authority and no other, and all
      else as the writer sends it for the caller's request. */
  lemma HostIsSent(lead: bytes, r: Request, host: bytes, tail: bytes)
    requires IsLead(lead) && GoodRequest(Requests.Request(WithHost(r.head, host), r.body))
    ensures var w := RequestWire(Requests.Request(WithHost(r.head, host), r.body));
            var s := lead + w.out + tail;
            var p := ParseRequest(s);
            && w.ok && p.Ok? && IsHosted(p.value.head, SentHead(r), host)
            && FullRead(p.value.framing, s[p.value.start..]).data == SentBody(r)
    ensures SentHead(r).verb == r.head.verb && SentHead(r).target == r.head.target
    ensures SentHead(r).version == r.head.version
  {
    hide ParseRequest, FullRead, GoodRequest, RequestWire, ChooseRequest, Delivered, WithHost, RequestLeftOver,
         IntactRequest, IsHosted, SentBody;
    RequestRoundTrip(lead, Requests.Request(WithHost(r.head, host), r.body), tail);
    SentIsHosted(r, host);
  }

  lemma GoodIsChosen(r: Request)
    requires GoodRequest(r)
    ensures ChooseRequest(r.head, r.body.Len()).Chosen?
  {
  }

  lemma HostKeepsStart(h: RequestHead, host: bytes)
    ensures var g := WithHost(h, host); g.verb == h.verb && g.target == h.target && g.version == h.version
  {
  }

  class Client {
    var connections: map<bytes, Connection>

    /** Every pooled connection was kept alive by the last response read from it; and no two entries
        share a connection. */
    ghost predicate Valid()
      reads this, connections.Values
    {
      && (forall a :: a in connections ==>
            connections[a].last.Some? && ClientOutcome(connections[a].last.value).ClientKeepAlive?)
      && (forall a, b :: a in connections && b in connections && a != b ==> connections[a] != connections[b])
    }

    constructor ()
      ensures connections == map[] && Valid()
    {
      connections := map[];
    }

    /** The pooled connection of the authority, or a new one. */
    method CheckOut(a: bytes, dialled: Option<Connection>) returns (c: Option<Connection>)
      requires Valid() && forall b :: b in connections ==> dialled != Some(connections[b])
      modifies this
      ensures Valid() && connections == old(connections) - {a}
      ensures c == if a in old(connections) then Some(old(connections)[a]) else dialled
      ensures forall b :: b in connections ==> c != Some(connections[b])
    {
      c := dialled;
      if a in connections {
        c := Some(connections[a]);
      }
      connections := connections - {a};
    }

    /** A connection taken from the pool is used, and returns to it if the response keeps it alive. */
    method RequestOn(a: bytes, host: bytes, h: RequestHead, body: Body, c: Connection) returns (r: RequestResult)
      requires Valid() && a !in connections && c !in connections.Values
      requires body.inner.Some? && body.inner.value.Valid() && body !in body.inner.value.Frame()
      requires c.input.Valid() && c.input !in body.inner.value.Frame()
      modifies this, c, c.input, body, body.inner.value.Frame()
      ensures Valid() && !r.InvalidUri? && c.input.Valid()
      ensures connections == if r.Replied? && r.outcome.ClientKeepAlive? then old(connections)[a := c] else old(connections)
      ensures var w := RequestWire(Requests.Request(WithHost(h, host), old(body.inner.value.View())));
              var p := ParseResponse(old(c.input.Rest()));
              && c.sent == old(c.sent) + w.out && (r.Replied? <==> w.ok && p.Ok?)
              && (r.Replied? ==>
                    && r.response.head == p.value.head && r.outcome == ClientOutcome(p.value.head)
                    && c.last == Some(p.value.head) && r.upgraded == (if r.outcome.ClientUpgrade? then Some(c) else None)
                    && Handed(r.response.body, c.input)
                    && ResponseFrom(Ok(r.response), old(c.input.Rest()), c.input, old(c.input.pos)))
    {
      hide ClientOutcome, ParseResponse, RequestWire, ResponseFrom, BodyInner.View, BodyInner.Valid, Set;
      var sent := SendOn(c, WithHost(h, host), body);
      if sent.NotAnswered? {
        return IoError;
      }
      if sent.outcome.ClientKeepAlive? {
        connections := connections[a := c];
      }
      r := Replied(sent.outcome, sent.response, if sent.outcome.ClientUpgrade? then Some(c) else None);
    }

    /** The connection that a request to `a` uses. */
    ghost function Using(a: bytes, dialled: Option<Connection>): Option<Connection>
      reads this
    {
      if a in connections then Some(connections[a]) else dialled
    }

    /** `Client::request`. The connection leaves the pool while it is used, and returns to it only
        when the response keeps it alive; an upgrade hands it to the caller. `dialled` is what
        connecting would give. */
    method Request(authority: Option<bytes>, host: bytes, h: RequestHead, body: Body, dialled: Option<Connection>)
      returns (r: RequestResult)
      requires Valid() && body.inner.Some? && body.inner.value.Valid() && body !in body.inner.value.Frame()
      requires forall c :: (c in connections.Values || dialled == Some(c)) ==>
                 c.input.Valid() && c.input !in body.inner.value.Frame()
      requires forall a :: a in connections ==> dialled != Some(connections[a])
      modifies this, connections.Values, set c | c in connections.Values :: c.input
      modifies if dialled.Some? then {dialled.value, dialled.value.input} else {}, body, body.inner.value.Frame()
      ensures Valid()
      ensures authority == None ==> r == InvalidUri && connections == old(connections)
      ensures authority.Some? && old(Using(authority.value, dialled)) == None ==>
                r == IoError && connections == old(connections) - {authority.value}
      ensures authority.Some? && old(Using(authority.value, dialled)).Some? ==>
                var a, c := authority.value, old(Using(authority.value, dialled)).value;
                var w := RequestWire(Requests.Request(WithHost(h, host), old(body.inner.value.View())));
                var p := ParseResponse(old(c.input.Rest()));
                && c.sent == old(c.sent) + w.out && c.input.Valid() && !r.InvalidUri? && (r.Replied? <==> w.ok && p.Ok?)
                && connections == (if r.Replied? && r.outcome.ClientKeepAlive?
                                   then old(connections)[a := c] else old(connections) - {a})
                && (r.Replied? ==>
                      && r.response.head == p.value.head && r.outcome == ClientOutcome(p.value.head)
                      && c.last == Some(p.value.head) && r.upgraded == (if r.outcome.ClientUpgrade? then Some(c) else None)
                      && Handed(r.response.body, c.input)
                      && ResponseFrom(Ok(r.response), old(c.input.Rest()), c.input, old(c.input.pos)))
    {
      hide ClientOutcome, ParseResponse, RequestWire, ResponseFrom, BodyInner.View, BodyInner.Valid, Set, Valid;
      if authority == None {
        return InvalidUri;
      }
      var c := CheckOut(authority.value, dialled);
      if c == None {
        return IoError;
      }
      r := RequestOn(authority.value, host, h, body, c.value);
    }
  }
}
