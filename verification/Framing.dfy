/** How a message body is delimited on the wire: what requests and responses have in common. */
module Framing {
  import opened Bytes
  import opened Streams
  import opened Head
  import opened ChunkedCodec
  import opened Content
  import opened Bodies

  /** What a writer chooses ... */
  datatype Encoding = FixedLength(n: nat) | Chunked | CloseDelimited

  /** ... and what a parser makes of the head. */
  datatype Framing = NoBody | Sized(n: nat) | InChunks | UntilClose

  /** Bodies below this size are buffered on both sides. */
  const SMALL: nat := 1024

  predicate Agrees(e: Encoding, f: Framing)
  {
    match e
    case FixedLength(n) => f == Sized(n)
    case Chunked => f == InChunks
    case CloseDelimited => f == UntilClose
  }

  /** The framing a request parser reads off the fields. */
  function RequestFraming(hs: Headers): Result<Framing, ParseError>
  {
    match Coding(hs)
    case Some(chunked) => if chunked then Ok(InChunks) else Err(InvalidTransferEncoding)
    case None =>
      match DeclaredLength(hs)
      case Malformed => Err(InvalidHeader)
      case Length(n) => Ok(Sized(n))
      case Absent => Ok(NoBody)
  }

  /** A response without length may also run to the end of the connection. */
  function ResponseFraming(hs: Headers): Result<Framing, ParseError>
  {
    if RequestFraming(hs) == Ok(NoBody) && HasOption(hs, CLOSE) then Ok(UntilClose) else RequestFraming(hs)
  }

  // ----- reading a body -----

  datatype Taken = Taken(data: bytes, used: nat)

  /** What reading a body to its end yields, and how much of `s` that takes. */
  function FullRead(f: Framing, s: bytes): (t: Taken)
    ensures t.used <= |s|
  {
    match f
    case NoBody => Taken([], 0)
    case Sized(n) => Taken(s[..Min(n, |s|)], Min(n, |s|))
    case InChunks => Taken(Concat(DecodeAll(s).chunks), DecodeAll(s).used)
    case UntilClose => Taken(s, |s|)
  }

  /** A parser that buffers a small body needs all of it. */
  predicate CutShort(f: Framing, s: bytes)
  {
    f.Sized? && f.n < SMALL && f.n > |s|
  }

  /** `inner` is the body a parser makes from framing `f` and the input `s` behind the head; it
      begins at position `p` of the stream. */
  ghost predicate BodyIs(inner: BodyInner, f: Framing, stream: ByteStream, s: bytes, p: nat)
    reads stream
  {
    match f
    case NoBody => inner == Nothing && stream.pos == p
    case Sized(n) =>
      if n < SMALL then n <= |s| && inner == Whole(s[..n]) && stream.pos == p + n
      else inner == Stream(stream, Some(n)) && stream.pos == p
    case InChunks =>
      inner.Items? && inner.iter.decoder != null && inner.iter.decoder.stream == stream && stream.pos == p
    case UntilClose => inner == Stream(stream, None) && stream.pos == p
  }

  lemma HeadEndStep(s: bytes, i: nat)
    requires i <= |s|
    ensures var n := LineLen(s[i..]);
            HeadEnd(s, i) == if n == 0 || EndsHead(s[..i + n]) then i + n else HeadEnd(s, i + n)
  {
  }

  /** The head scan of both parsers. */
  method ReadHead(stream: ByteStream) returns (buf: bytes)
    requires stream.Valid()
    modifies stream
    ensures stream.Valid() && stream.pos == old(stream.pos) + HeadEnd(old(stream.Rest()), 0)
    ensures buf == old(stream.Rest())[..HeadEnd(old(stream.Rest()), 0)]
  {
    hide EndsHead, LineLen, HeadEnd;
    ghost var s, start := stream.Rest(), stream.pos;
    buf := [];
    var done := false;
    while !done
      invariant stream.Valid() && stream.pos == start + |buf| && |buf| <= |s| && buf == s[..|buf|]
      invariant HeadEnd(s, 0) == if done then |buf| else HeadEnd(s, |buf|)
      decreases !done, |stream.data| - stream.pos
    {
      assert stream.Rest() == s[|buf|..];
      HeadEndStep(s, |buf|);
      var line := stream.ReadUntilLf();
      assert buf + line == s[..|buf| + |line|];
      buf := buf + line;
      done := line == [] || EndsHead(buf);
    }
  }

  /** The body object for a framing; None stands for the error of a body cut short. */
  method TakeBody(f: Framing, stream: ByteStream) returns (r: Option<Body>)
    requires stream.Valid()
    modifies stream
    ensures stream.Valid() && old(stream.pos) <= stream.pos
    ensures r == None <==> CutShort(f, old(stream.Rest()))
    ensures r.Some? ==> fresh(r.value) && r.value.inner.Some?
    ensures r.Some? ==> BodyIs(r.value.inner.value, f, stream, old(stream.Rest()), old(stream.pos))
    ensures r.Some? ==> fresh(r.value.inner.value.Frame() - {stream}) && r.value !in r.value.inner.value.Frame()
  {
    var inner := Nothing;
    if f.Sized? && f.n < SMALL {
      ghost var s := stream.Rest();
      var data := stream.ReadExact(f.n);
      if data == None {
        return None;
      }
      assert data.value == s[..f.n];
      inner := Whole(data.value);
    } else if f.Sized? {
      inner := Stream(stream, Some(f.n));
    } else if f.InChunks? {
      var decoder := new ChunkedReader(stream);
      var source := new ItemSource.FromWire(decoder);
      inner := Items(source);
    } else if f.UntilClose? {
      inner := Stream(stream, None);
    }
    var body := new Body(inner);
    r := Some(body);
  }

  // ----- writing a body -----

  /** The bytes a writer sends for a body; None when it fails instead. */
  function Payload(e: Encoding, c: Content): Option<bytes>
    requires c.Valid()
  {
    match e
    case FixedLength(n) => if n < SMALL then BytesView(c) else Some(ReaderView(c))
    case CloseDelimited => Some(ReaderView(c))
    case Chunked =>
      Some(EncodeChunks(ChunksOf(ChunksView(c))) + LAST_CHUNK
           + (FieldLines(TrailersOf([], ChunksView(c))) + CRLF))
  }

  /** The body bytes that a payload stands for. */
  function Delivered(e: Encoding, c: Content): bytes
    requires c.Valid()
  {
    match e
    case FixedLength(n) => if n < SMALL then BytesView(c).GetOr([]) else ReaderView(c)
    case CloseDelimited => ReaderView(c)
    case Chunked => Concat(ChunksOf(ChunksView(c)))
  }

  /** No error, and no length that a chunked writer's reads can pass. */
  predicate Intact(e: Encoding, c: Content)
    requires c.Valid()
  {
    c.ErrorFree() && (e.Chunked? && c.Reader? && c.len.Some? ==> |c.src.Rest()| <= c.len.value)
  }

  lemma IntactIsDelivered(e: Encoding, c: Content)
    requires c.Valid() && Intact(e, c)
    ensures BytesView(c) == Some(Delivered(e, c))
  {
    hide ChunksOf, ChunksView, ReaderView, Concat;
    ThreeViewsAgree(c);
  }

  lemma ErrorIsNoBody(c: Content)
    requires c.Valid() && !c.ErrorFree()
    ensures BytesView(c) == None
  {
  }

  /** What the writer sends is the body, in whatever steps that arrives, if and only if it is intact. */
  lemma DeliveredIsBody(e: Encoding, c: Content)
    requires c.Valid()
    ensures (forall burst :: BytesView(Reread(c, burst)) == Some(Delivered(e, Reread(c, burst)))) <==> Intact(e, c)
  {
    hide BytesView, Delivered, ReaderView, ChunksView, ChunksOf, Concat;
    if Intact(e, c) {
      forall burst: nat -> nat
        ensures BytesView(Reread(c, burst)) == Some(Delivered(e, Reread(c, burst)))
      {
        IntactIsDelivered(e, Reread(c, burst));
      }
    } else if !c.ErrorFree() {
      ErrorIsNoBody(c);
      assert Reread(c, p => 0) == c;
    } else {
      var burst := ChunkViewDiffers(c.src, c.len.value);
      ThreeViewsAgree(Reread(c, burst));
      ChunkedDelivery(Reread(c, burst));
    }
  }

  lemma ChunkedDelivery(c: Content)
    requires c.Valid()
    ensures Delivered(Chunked, c) == Concat(ChunksOf(ChunksView(c)))
  {
  }

  /** The body yields its declared length, and has no chunk that reads as the last one. */
  predicate Faithful(e: Encoding, c: Content)
    requires c.Valid()
  {
    match e
    case FixedLength(n) => Payload(e, c).Some? && |Payload(e, c).value| == n
    case CloseDelimited => true
    case Chunked =>
      var cs := ChunksOf(ChunksView(c));
      Sendable(cs) && forall i :: 0 <= i < |cs| ==> cs[i] != []
  }

  /** What the reader of a message leaves of it: the lines behind the last chunk. */
  function LeftOver(e: Encoding, c: Content): bytes
    requires c.Valid()
  {
    if e.Chunked? then FieldLines(TrailersOf([], ChunksView(c))) + CRLF else []
  }

  /** A parser that agrees with the writer on the framing gets the body back, whatever follows. */
  lemma PayloadRoundTrip(e: Encoding, c: Content, f: Framing, tail: bytes)
    requires c.Valid() && Faithful(e, c) && Agrees(e, f)
    ensures Payload(e, c).Some?
    ensures var s := Payload(e, c).value + tail;
            var t := FullRead(f, s);
            && t.data == Delivered(e, c) + (if e.CloseDelimited? then tail else [])
            && s[t.used..] == (if e.CloseDelimited? then [] else LeftOver(e, c) + tail)
            && !CutShort(f, s)
            && (Intact(e, c) ==> Some(Delivered(e, c)) == BytesView(c))
  {
    hide DecodeAll, EncodeChunks, ChunksOf, ChunksView, ReaderView, BytesView, Concat, TrailersOf, FieldLines;
    if Intact(e, c) { IntactIsDelivered(e, c); }
    var s := Payload(e, c).value + tail;
    match e
    case FixedLength(n) =>
      assert s[..n] == Payload(e, c).value && s[n..] == tail;
    case CloseDelimited =>
    case Chunked =>
      var cs := ChunksOf(ChunksView(c));
      assert s == EncodeChunks(cs) + LAST_CHUNK + (LeftOver(e, c) + tail);
      ChunkedRoundTrip(cs, LeftOver(e, c) + tail);
  }

  method WriteFields(hs: Headers, out: BufWriter)
    modifies out
    ensures out.Written() == old(out.Written()) + FieldLines(hs)
  {
    var i := 0;
    while i < |hs|
      invariant i <= |hs|
      invariant out.Written() == old(out.Written()) + FieldLines(hs[..i])
    {
      FieldLinesAppend(hs[..i], hs[i]);
      assert hs[..i + 1] == hs[..i] + [hs[i]];
      out.WriteAll(FieldLine(hs[i]));
      i := i + 1;
    }
    assert hs[..i] == hs;
  }

  /** What one item adds to the chunks on the wire. */
  function ItemText(item: Item): bytes { if item.Data? then EncodeChunk(item.data) else [] }

  function AddTrailers(trailers: Headers, item: Item): Headers
  {
    if item.Trailers? then Extend(trailers, item.fields) else trailers
  }

  lemma FirstItem(items: seq<Item>, trailers: Headers)
    requires items != []
    ensures EncodeChunks(ChunksOf(items)) == ItemText(items[0]) + EncodeChunks(ChunksOf(items[1..]))
    ensures TrailersOf(trailers, items) == TrailersOf(AddTrailers(trailers, items[0]), items[1..])
  {
    var rest := ChunksOf(items[1..]);
    if items[0].Data? { assert ([items[0].data] + rest)[1..] == rest; } else { assert [] + rest == rest; }
  }

  method WriteItem(item: Item, out: BufWriter)
    modifies out
    ensures out.Written() == old(out.Written()) + ItemText(item)
  {
    if item.Data? {
      out.WriteAll(Numeral(|item.data|, 16) + CRLF);
      out.WriteAll(item.data);
      out.WriteAll(CRLF);
      out.Flush();
    }
  }

  /** The chunks of an iterator, each flushed; the trailers are collected for later. */
  method WriteItems(chunks: ChunkIterator, out: BufWriter) returns (trailers: Headers)
    requires chunks.Valid() && out !in chunks.Frame()
    modifies chunks.Frame(), out
    ensures out.Written() == old(out.Written()) + EncodeChunks(ChunksOf(old(chunks.Remaining())))
    ensures trailers == TrailersOf([], old(chunks.Remaining()))
  {
    hide ChunkIterator.Valid, ChunkIterator.Remaining, ChunksInner.End, ChunksInner.Here, ChunksInner.Valid,
         SameSource, ChunksOf, EncodeChunks, TrailersOf, ItemText, AddTrailers;
    trailers := [];
    ghost var all, now, start := chunks.Remaining(), chunks.Remaining(), out.Written();
    var item := chunks.Next();
    while item != None
      invariant chunks.Valid() && chunks.Frame() <= old(chunks.Frame())
      invariant if item == None then now == [] else now != [] && now[0] == item.value && now[1..] == chunks.Remaining()
      invariant start + EncodeChunks(ChunksOf(all)) == out.Written() + EncodeChunks(ChunksOf(now))
      invariant TrailersOf([], all) == TrailersOf(trailers, now)
      decreases |now|
    {
      FirstItem(now, trailers);
      ghost var before := out.Written();
      WriteItem(item.value, out);
      assert before + (ItemText(now[0]) + EncodeChunks(ChunksOf(now[1..])))
          == out.Written() + EncodeChunks(ChunksOf(now[1..]));
      trailers := UpdateTrailers(trailers, item.value);
      now := now[1..];
      item := chunks.Next();
    }
    NoItems(trailers);
    assert out.Written() + EncodeChunks(ChunksOf(now)) == out.Written();
  }

  method UpdateTrailers(trailers: Headers, item: Item) returns (r: Headers)
    ensures r == AddTrailers(trailers, item)
  {
    r := trailers;
    if item.Trailers? {
      r := Extend(trailers, item.fields);
    }
  }

  lemma NoItems(trailers: Headers)
    ensures EncodeChunks(ChunksOf([])) == [] && TrailersOf(trailers, []) == trailers
  {
  }

  /** The chunked writer: the chunks, the last one, the trailers. */
  method WriteChunks(body: Body, out: BufWriter)
    requires body.inner.Some? && body.inner.value.Valid()
    requires body !in body.inner.value.Frame() && out !in body.inner.value.Frame()
    modifies body, body.inner.value.Frame(), out
    ensures out.Written() == old(out.Written()) + Payload(Chunked, old(body.inner.value.View())).value
  {
    hide EncodeChunks, ChunksOf, ChunksView, TrailersOf, FieldLines, BodyInner.View, ChunkIterator.Remaining,
         ChunkIterator.Valid;
    var chunks := body.IntoChunks();
    var trailers := WriteItems(chunks, out);
    out.WriteAll(LAST_CHUNK);
    WriteFields(trailers, out);
    out.WriteAll(CRLF);
  }

  /** The body of a message, by encoding; false when the body failed. */
  method WritePayload(e: Encoding, body: Body, out: BufWriter) returns (ok: bool)
    requires body.inner.Some? && body.inner.value.Valid()
    requires body !in body.inner.value.Frame() && out !in body.inner.value.Frame()
    modifies body, body.inner.value.Frame(), out
    ensures ok <==> Payload(e, old(body.inner.value.View())).Some?
    ensures out.Written() == old(out.Written()) + Payload(e, old(body.inner.value.View())).GetOr([])
  {
    if e.FixedLength? && e.n < SMALL {
      var data := body.IntoBytes();
      if data == None {
        return false;
      }
      out.WriteAll(data.value);
    } else if e.Chunked? {
      WriteChunks(body, out);
    } else {
      var reader := body.IntoReader();
      reader.CopyTo(out);
    }
    ok := true;
  }
}
