/** The body objects of `src/body.rs`: `Body`, `BodyReader` and `ChunkIterator`. */
module Bodies {
  import opened Bytes
  import opened Streams
  import opened ChunkedCodec
  import opened Content

  /** The boxed iterator of an Iter body: a list of items, or a `ChunkedReader` on a connection. */
  class ItemSource {
    const decoder: ChunkedReader?
    var items: seq<Item>

    ghost function Frame(): set<object>
    {
      if decoder == null then {this} else {this, decoder.stream}
    }

    ghost predicate Valid()
      reads Frame()
    {
      decoder != null ==> decoder.stream.Valid()
    }

    /** What `next` delivers up to its first None. */
    ghost function Pending(): seq<Item>
      reads Frame()
      requires Valid()
    {
      if decoder == null then items else DataItems(DecodeAll(decoder.stream.Rest()).chunks)
    }

    /** Where the connection stands now, and where it stands after that first None. */
    ghost function Here(): nat
      reads Frame()
    {
      if decoder == null then 0 else decoder.stream.pos
    }

    ghost function End(): nat
      reads Frame()
      requires Valid()
    {
      if decoder == null then 0 else decoder.stream.pos + DecodeAll(decoder.stream.Rest()).used
    }

    constructor FromList(items: seq<Item>)
      ensures decoder == null && this.items == items
    {
      decoder, this.items := null, items;
    }

    constructor FromWire(decoder: ChunkedReader)
      ensures this.decoder == decoder
    {
      this.decoder, items := decoder, [];
    }

    /** `Iterator::next`. A call that finds nothing pending may still read on. */
    method Next() returns (item: Option<Item>)
      requires Valid()
      modifies Frame()
      ensures Valid()
      ensures old(Pending()) == [] ==> item == None && Here() == old(End())
      ensures old(Pending()) != [] ==> item == Some(old(Pending())[0]) && Pending() == old(Pending())[1..]
      ensures old(Pending()) != [] ==> End() == old(End())
      ensures item == Some(Failed) ==> decoder == null
    {
      if decoder == null {
        if items == [] {
          return None;
        }
        item := Some(items[0]);
        items := items[1..];
      } else {
        ghost var s := decoder.stream.Rest();
        ghost var step := NextChunk([], s);
        var chunk := decoder.Next();
        assert decoder.stream.Rest() == s[step.used..];
        if chunk == None {
          item := None;
        } else {
          DecodeGoesOn(s, chunk.value, step.used, s[step.used..]);
          DataItemsRest(DecodeAll(s).chunks);
          item := Some(Data(chunk.value));
        }
      }
    }

    /** `next` through the filter that drops trailers. */
    method NextData() returns (item: Option<Item>)
      requires Valid()
      modifies Frame()
      ensures Valid()
      ensures item == None ==> Here() == old(End()) && DataBefore(old(Pending())) == []
      ensures item != None ==> End() == old(End()) && |Pending()| < |old(Pending())|
      ensures item != None ==> !item.value.Trailers?
      ensures item != None && item.value.Data? ==>
                DataBefore(old(Pending())) == item.value.data + DataBefore(Pending())
      ensures item != None && item.value.Failed? ==> DataBefore(old(Pending())) == [] && Here() == End()
      ensures ReadItems(old(Pending())) ==
              if item == None then [] else (if item.value.Data? then item.value.data else []) + DataBefore(Pending())
    {
      ghost var p := Pending();
      while true
        invariant Valid() && End() == old(End()) && |Pending()| <= |p|
        invariant DataBefore(Pending()) == DataBefore(p)
        invariant ReadItems(Pending()) == ReadItems(p)
        decreases |Pending()|
      {
        item := Next();
        if item == None || !item.value.Trailers? {
          return;
        }
      }
    }
  }

  /** A reader over an iterator: the iterator and what is left of the chunk at hand. None marks the
      end, after which the iterator is never called again. */
  class ItemReader {
    const iter: ItemSource
    var leftover: Option<bytes>

    ghost function Frame(): set<object> { {this} + iter.Frame() }

    ghost predicate Valid()
      reads Frame()
    {
      this !in iter.Frame() && iter.Valid()
    }

    ghost function Remaining(): bytes
      reads Frame()
      requires Valid()
    {
      if leftover == None then [] else leftover.value + DataBefore(iter.Pending())
    }

    ghost function End(): nat
      reads Frame()
      requires Valid()
    {
      if leftover == None then iter.Here() else iter.End()
    }

    /** `into_reader` on an Iter body: an error in first place becomes an empty chunk. */
    constructor (iter: ItemSource)
      requires iter.Valid()
      modifies iter.Frame()
      ensures this.iter == iter && Valid()
      ensures Remaining() == ReadItems(old(iter.Pending()))
      ensures End() == old(iter.End())
    {
      this.iter := iter;
      new;
      var first := iter.NextData();
      leftover := if first == None then None else if first.value.Data? then Some(first.value.data) else Some([]);
    }

    /** Takes the next chunk once the one at hand is used up. */
    method Advance()
      requires Valid() && leftover != None
      modifies Frame()
      ensures Valid()
      ensures Remaining() == DataBefore(old(iter.Pending()))
      ensures End() == old(End())
      ensures leftover != None ==> |iter.Pending()| < |old(iter.Pending())|
    {
      var next := iter.NextData();
      leftover := if next != None && next.value.Data? then Some(next.value.data) else None;
    }

    /** `read`. Nothing is delivered only at the end, where the iterator is left alone. A read into
        an empty buffer, however, runs through all the chunks and loses them. */
    method Read(room: nat) returns (buf: bytes)
      requires Valid()
      modifies Frame()
      ensures Valid() && |buf| <= room
      ensures room > 0 ==> buf + Remaining() == old(Remaining()) && (buf == [] <==> old(Remaining()) == [])
      ensures room == 0 ==> Remaining() == []
      ensures buf == [] ==> leftover == None
      ensures End() == old(End())
      ensures old(leftover) == None ==> iter.Here() == old(iter.Here())
    {
      hide DataBefore, ItemSource.Pending, ItemSource.End, ItemSource.Here, ItemSource.Valid;
      while leftover != None
        invariant Valid()
        invariant room > 0 ==> Remaining() == old(Remaining())
        invariant End() == old(End())
        invariant old(leftover) == None ==> leftover == None && iter.Here() == old(iter.Here())
        decreases leftover != None, |iter.Pending()|
      {
        var n := Min(room, |leftover.value|);
        if n > 0 {
          buf := leftover.value[..n];
          leftover := Some(leftover.value[n..]);
          return;
        }
        Advance();
      }
      buf := [];
    }
  }

  datatype ReaderInner =
    | InMemory(left: bytes)
    | FromItems(reader: ItemReader)
    | FromStream(stream: ByteStream, limit: Option<nat>)

  /** Reading changes how much is left, not what is read from. */
  predicate SameOrigin(a: ReaderInner, b: ReaderInner)
  {
    match a
    case InMemory(_) => b.InMemory?
    case FromItems(reader) => b == a
    case FromStream(stream, _) => b.FromStream? && b.stream == stream
  }

  class BodyReader {
    var inner: ReaderInner

    ghost function Frame(): set<object>
      reads this
    {
      {this} + match inner
               case InMemory(_) => {}
               case FromItems(reader) => reader.Frame()
               case FromStream(stream, _) => {stream}
    }

    ghost predicate Valid()
      reads Frame()
    {
      match inner
      case InMemory(_) => true
      case FromItems(reader) => this !in reader.Frame() && reader.Valid()
      case FromStream(stream, _) => stream.Valid()
    }

    /** Everything still to be read. */
    ghost function Remaining(): bytes
      reads Frame()
      requires Valid()
    {
      match inner
      case InMemory(left) => left
      case FromItems(reader) => reader.Remaining()
      case FromStream(stream, limit) => Limited(stream.Rest(), limit)
    }

    /** Where the connection stands once everything was read. */
    ghost function End(): nat
      reads Frame()
      requires Valid()
    {
      match inner
      case InMemory(_) => 0
      case FromItems(reader) => reader.End()
      case FromStream(stream, limit) => stream.pos + |Limited(stream.Rest(), limit)|
    }

    /** A read has reported the end. */
    ghost predicate AtEnd()
      reads Frame()
      requires Valid()
    {
      Remaining() == [] && (inner.FromItems? ==> inner.reader.leftover == None)
    }

    constructor (inner: ReaderInner)
      ensures this.inner == inner
    {
      this.inner := inner;
    }

    method ReadStream(room: nat) returns (buf: bytes)
      requires Valid() && inner.FromStream?
      modifies this, inner.stream
      ensures Valid() && inner.FromStream? && inner.stream == old(inner.stream)
      ensures buf + Remaining() == old(Remaining()) && |buf| <= room
      ensures buf == [] <==> room == 0 || old(Remaining()) == []
      ensures End() == old(End())
    {
      var stream, limit := inner.stream, inner.limit;
      ghost var s := stream.Rest();
      if limit == None {
        buf := stream.Read(room);
      } else {
        buf := stream.Read(Min(room, limit.value));
        inner := FromStream(stream, Some(limit.value - |buf|));
      }
      assert buf == s[..|buf|] && stream.Rest() == s[|buf|..];
      LimitedSplit(s, |buf|, limit);
    }

    /** `read` delivers the next bytes, and into a non-empty buffer none only at the end. An empty
        buffer costs an iterator body all that is left of it, and the others nothing. */
    method Read(room: nat) returns (buf: bytes)
      requires Valid()
      modifies Frame()
      ensures Valid() && Frame() == old(Frame()) && SameOrigin(old(inner), inner)
      ensures |buf| <= room && (buf == [] <==> room == 0 || old(Remaining()) == [])
      ensures buf + Remaining() == if room == 0 && inner.FromItems? then [] else old(Remaining())
      ensures room > 0 && buf == [] ==> AtEnd()
      ensures End() == old(End())
    {
      match inner {
        case InMemory(left) =>
          var n := Min(room, |left|);
          buf := left[..n];
          inner := InMemory(left[n..]);
        case FromItems(reader) =>
          buf := reader.Read(room);
        case FromStream(_, _) =>
          buf := ReadStream(room);
      }
    }

    /** `io::copy` into a writer: every remaining byte, whatever the sizes of the reads. */
    method CopyTo(out: BufWriter)
      requires Valid() && out !in Frame()
      modifies Frame(), out
      ensures Valid() && Frame() == old(Frame()) && SameOrigin(old(inner), inner)
      ensures out.Written() == old(out.Written()) + old(Remaining())
      ensures AtEnd() && End() == old(End())
    {
      hide BodyReader.Valid, BodyReader.Remaining, BodyReader.End, BodyReader.AtEnd;
      ghost var copied := [];
      var more := true;
      while more
        invariant Valid() && Frame() == old(Frame()) && End() == old(End()) && SameOrigin(old(inner), inner)
        invariant copied + Remaining() == old(Remaining())
        invariant out.Written() == old(out.Written()) + copied
        invariant more || (Remaining() == [] && AtEnd())
        decreases more, |Remaining()|
      {
        ghost var before := Remaining();
        var buf := Read(READ_SIZE);
        more := buf != [];
        ghost var copying := copied + buf;
        assert copied + before == copying + Remaining();
        assert old(out.Written()) + copying == old(out.Written()) + copied + buf;
        out.WriteAll(buf);
        copied := copying;
      }
    }
  }

  datatype ChunksInner =
    | Single(data: bytes)
    | ItemChunks(iter: ItemSource)
    | StreamChunks(stream: ByteStream, len: Option<nat>)
  {
    ghost function Frame(): set<object>
    {
      match this
      case Single(_) => {}
      case ItemChunks(iter) => iter.Frame()
      case StreamChunks(stream, _) => {stream}
    }

    ghost predicate Valid()
      reads Frame()
    {
      match this
      case Single(_) => true
      case ItemChunks(iter) => iter.Valid()
      case StreamChunks(stream, _) => stream.Valid()
    }

    /** Everything still to be yielded. */
    ghost function Remaining(): seq<Item>
      reads Frame()
      requires Valid()
    {
      match this
      case Single(data) => [Data(data)]
      case ItemChunks(iter) => BeforeError(iter.Pending())
      case StreamChunks(stream, len) => DataItems(ReaderChunks(stream.Src(), len))
    }

    /** Where the connection stands ... */
    ghost function Here(): nat
      reads Frame()
    {
      match this
      case Single(_) => 0
      case ItemChunks(iter) => iter.Here()
      case StreamChunks(stream, _) => stream.pos
    }

    /** ... and where it stands once the chunks were iterated: for a reader, behind all that was
        read, which may be more than its length. */
    ghost function End(): nat
      reads Frame()
      requires Valid()
    {
      match this
      case Single(_) => 0
      case ItemChunks(iter) => iter.End()
      case StreamChunks(stream, len) => stream.pos + |Concat(ReaderChunks(stream.Src(), len))|
    }
  }

  /** Iterating changes how much is left, not what is read from. */
  predicate SameSource(a: ChunksInner, b: ChunksInner)
  {
    match a
    case Single(_) => b.Single?
    case ItemChunks(_) => b == a
    case StreamChunks(stream, _) => b.StreamChunks? && b.stream == stream
  }

  class ChunkIterator {
    var inner: Option<ChunksInner>

    ghost function Frame(): set<object>
      reads this
    {
      {this} + if inner == None then {} else inner.value.Frame()
    }

    ghost predicate Valid()
      reads Frame()
    {
      inner.Some? ==> this !in inner.value.Frame() && inner.value.Valid()
    }

    /** Everything still to be yielded. */
    ghost function Remaining(): seq<Item>
      reads Frame()
      requires Valid()
    {
      if inner == None then [] else inner.value.Remaining()
    }

    constructor (inner: Option<ChunksInner>)
      ensures this.inner == inner
    {
      this.inner := inner;
    }

    method NextOfStream(stream: ByteStream, len: Option<nat>) returns (item: Option<Item>)
      requires stream.Valid() && inner == None
      modifies this, stream
      ensures Valid() && (inner.Some? ==> inner.value.StreamChunks? && inner.value.stream == stream)
      ensures var cs := ReaderChunks(old(stream.Src()), len);
              if cs == [] then item == None && inner == None
              else item == Some(Data(cs[0])) && Remaining() == DataItems(cs[1..])
      ensures (if inner.Some? then inner.value.End() else stream.pos)
              == old(stream.pos) + |Concat(ReaderChunks(old(stream.Src()), len))|
    {
      ghost var src := stream.Src();
      if src.Rest() != [] { ChunksStep(src, len); }
      var buf := stream.Read(READ_SIZE);
      assert buf == src.Rest()[..|buf|] && stream.Src() == src.Skip(|buf|);
      if buf == [] {
        return None;
      }
      if len == None {
        inner := Some(StreamChunks(stream, None));
      } else if |buf| < len.value {
        inner := Some(StreamChunks(stream, Some(len.value - |buf|)));
      }
      item := Some(Data(buf));
    }

    /** `Iterator::next`. Taking the state out first makes the iterator fused: after None nothing is
        called again. */
    method Next() returns (item: Option<Item>)
      requires Valid()
      modifies Frame()
      ensures Valid() && Frame() <= old(Frame())
      ensures var r := old(Remaining());
              if r == [] then item == None && inner == None
              else item == Some(r[0]) && Remaining() == r[1..]
      ensures inner.Some? ==> old(inner).Some? && SameSource(old(inner).value, inner.value)
      ensures old(inner).Some? ==>
                (if inner.Some? then inner.value.End() else old(inner).value.Here()) == old(inner.value.End())
    {
      if inner == None {
        return None;
      }
      var taken := inner.value;
      inner := None;
      match taken {
        case Single(data) =>
          item := Some(Data(data));
        case ItemChunks(iter) =>
          item := iter.Next();
          if item == None || item.value.Failed? {
            return None;
          }
          inner := Some(ItemChunks(iter));
        case StreamChunks(stream, len) =>
          ghost var cs := ReaderChunks(stream.Src(), len);
          item := NextOfStream(stream, len);
          if cs != [] { DataItemsRest(cs); }
      }
    }
  }

  /** Iterating chunks to the end. */
  method CollectChunks(chunks: ChunkIterator) returns (items: seq<Item>)
    requires chunks.Valid()
    modifies chunks.Frame()
    ensures items == old(chunks.Remaining()) && chunks.inner == None
    ensures old(chunks.inner).Some? ==> old(chunks.inner).value.Here() == old(chunks.inner.value.End())
  {
    hide ChunksInner.End, ChunksInner.Valid, ChunkIterator.Remaining;
    ghost var first, all := chunks.inner, chunks.Remaining();
    items := [];
    var more := true;
    while more
      invariant chunks.Valid() && chunks.Frame() <= old(chunks.Frame())
      invariant items + chunks.Remaining() == all && (more || chunks.inner == None)
      invariant chunks.inner.Some? ==> first.Some? && SameSource(first.value, chunks.inner.value)
      invariant first.Some? ==>
                  (if chunks.inner.Some? then chunks.inner.value.End() else first.value.Here()) == old(chunks.inner.value.End())
      decreases more, |chunks.Remaining()|
    {
      ghost var rest := chunks.Remaining();
      var item := chunks.Next();
      more := item != None;
      if more {
        assert items + rest == (items + [item.value]) + chunks.Remaining();
        items := items + [item.value];
      } else {
        NothingRemains(chunks);
      }
    }
    NothingRemains(chunks);
  }

  lemma NothingRemains(chunks: ChunkIterator)
    requires chunks.Valid() && chunks.inner == None
    ensures chunks.Remaining() == []
  {
  }

  datatype BodyInner =
    | Nothing
    | Whole(data: bytes)
    | Items(iter: ItemSource)
    | Stream(stream: ByteStream, len: Option<nat>)
  {
    ghost function Frame(): set<object>
    {
      match this
      case Nothing => {}
      case Whole(_) => {}
      case Items(iter) => iter.Frame()
      case Stream(stream, _) => {stream}
    }

    ghost predicate Valid()
      reads Frame()
    {
      match this
      case Nothing => true
      case Whole(_) => true
      case Items(iter) => iter.Valid()
      case Stream(stream, _) => stream.Valid()
    }

    /** The body as a value. */
    ghost function View(): (c: Content)
      reads Frame()
      requires Valid()
      ensures c.Valid()
    {
      match this
      case Nothing => Empty
      case Whole(data) => Buffered(data)
      case Items(iter) => Iter(iter.Pending())
      case Stream(stream, len) => Reader(stream.Src(), len)
    }

    /** Where the connection behind the body stands ... */
    ghost function Here(): nat
      reads Frame()
      requires Valid()
    {
      match this
      case Nothing => 0
      case Whole(_) => 0
      case Items(iter) => iter.Here()
      case Stream(stream, _) => stream.pos
    }

    /** ... and where it stands once the body was taken as bytes or read to its end. */
    ghost function End(): nat
      reads Frame()
      requires Valid()
    {
      match this
      case Nothing => 0
      case Whole(_) => 0
      case Items(iter) => iter.End()
      case Stream(stream, len) => stream.pos + |Limited(stream.Rest(), len)|
    }
  }

  /** `Body`: every conversion takes the inner value out. */
  class Body {
    var inner: Option<BodyInner>

    constructor (inner: BodyInner)
      ensures this.inner == Some(inner)
    {
      this.inner := Some(inner);
    }

    /** A body over fresh objects that holds a given content. */
    constructor FromContent(c: Content)
      requires c.Valid()
      ensures inner.Some? && fresh(inner.value.Frame()) && this !in inner.value.Frame()
      ensures inner.value.Valid() && inner.value.View() == c
    {
      if c.Empty? {
        inner := Some(Nothing);
      } else if c.Buffered? {
        inner := Some(Whole(c.data));
      } else if c.Iter? {
        var source := new ItemSource.FromList(c.items);
        inner := Some(Items(source));
      } else {
        var stream := new ByteStream(c.src);
        inner := Some(Stream(stream, c.len));
      }
    }

    /** `HttpBody::len`. */
    method Length() returns (n: Option<nat>)
      requires inner.Some? && inner.value.Valid()
      ensures n == inner.value.View().Len()
    {
      match inner.value {
        case Nothing => n := Some(0);
        case Whole(data) => n := Some(|data|);
        case Items(_) => n := None;
        case Stream(_, len) => n := len;
      }
    }

    method IntoReader() returns (reader: BodyReader)
      requires inner.Some? && this !in inner.value.Frame() && inner.value.Valid()
      modifies this, inner.value.Frame()
      ensures inner == None && fresh(reader) && reader.Valid()
      ensures fresh(reader.Frame() - old(inner.value.Frame()))
      ensures reader.Remaining() == ReaderView(old(inner.value.View()))
      ensures match old(inner.value)
              case Nothing => reader.inner.InMemory?
              case Whole(_) => reader.inner.InMemory?
              case Items(iter) => reader.inner.FromItems? && reader.inner.reader.iter == iter
              case Stream(stream, _) => reader.inner.FromStream? && reader.inner.stream == stream
      ensures reader.End() == old(inner.value.End())
    {
      var taken := inner.value;
      inner := None;
      if taken.Nothing? {
        reader := new BodyReader(InMemory([]));
      } else if taken.Whole? {
        reader := new BodyReader(InMemory(taken.data));
      } else if taken.Items? {
        var itemReader := new ItemReader(taken.iter);
        reader := new BodyReader(FromItems(itemReader));
      } else {
        reader := new BodyReader(FromStream(taken.stream, taken.len));
      }
    }

    method IntoChunks() returns (chunks: ChunkIterator)
      requires inner.Some? && this !in inner.value.Frame() && inner.value.Valid()
      modifies this
      ensures inner == None && fresh(chunks) && chunks.Valid()
      ensures chunks.Frame() <= {chunks} + old(inner.value.Frame())
      ensures chunks.Remaining() == ChunksView(old(inner.value.View()))
      ensures match old(inner.value)
              case Nothing => chunks.inner == None
              case Whole(data) => chunks.inner == Some(Single(data))
              case Items(iter) => chunks.inner == Some(ItemChunks(iter))
              case Stream(stream, len) => chunks.inner == Some(StreamChunks(stream, len))
    {
      var taken := inner.value;
      inner := None;
      chunks := new ChunkIterator(
        match taken
        case Nothing => None
        case Whole(data) => Some(Single(data))
        case Items(iter) => Some(ItemChunks(iter))
        case Stream(stream, len) => Some(StreamChunks(stream, len)));
    }

    /** `into_bytes`: None is the error of an item. */
    method IntoBytes() returns (r: Option<bytes>)
      requires inner.Some? && this !in inner.value.Frame() && inner.value.Valid()
      modifies this, inner.value.Frame()
      ensures inner == None && old(inner.value).Valid()
      ensures r == BytesView(old(inner.value.View()))
      ensures r.Some? ==> old(inner.value).Here() == old(inner.value.End())
    {
      var taken := inner.value;
      inner := None;
      match taken {
        case Nothing =>
          r := Some([]);
        case Whole(data) =>
          r := Some(data);
        case Items(iter) =>
          r := CollectItems(iter);
        case Stream(stream, len) =>
          var data := DrainStream(stream, len);
          r := Some(data);
      }
    }

    /** `Drop`: only a reader is drained; unread chunks stay on the connection. */
    method Drop()
      requires inner.Some? ==> this !in inner.value.Frame() && inner.value.Valid()
      modifies this, if inner.Some? then inner.value.Frame() else {}
      ensures inner == None
      ensures old(inner).Some? ==>
                old(inner).value.Valid() &&
                old(inner).value.Here() ==
                  if old(inner).value.Stream? then old(inner.value.End()) else old(inner.value.Here())
    {
      if inner.Some? && inner.value.Stream? {
        var _ := DrainStream(inner.value.stream, inner.value.len);
      }
      inner := None;
    }
  }

  method CollectItems(iter: ItemSource) returns (r: Option<bytes>)
    requires iter.Valid()
    modifies iter.Frame()
    ensures iter.Valid()
    ensures r == if Failed in old(iter.Pending()) then None else Some(DataBefore(old(iter.Pending())))
    ensures r.Some? ==> iter.Here() == old(iter.End())
  {
    hide ItemSource.Pending, ItemSource.End, ItemSource.Here, ItemSource.Valid, DataBefore;
    ghost var all, now := iter.Pending(), iter.Pending();
    var data := [];
    var item := iter.Next();
    while item != None
      invariant iter.Valid() && (if item == None then iter.Here() == old(iter.End()) else iter.End() == old(iter.End()))
      invariant if item == None then now == [] else now != [] && now[0] == item.value && now[1..] == iter.Pending()
      invariant (Failed in all) == (Failed in now)
      invariant data + DataBefore(now) == DataBefore(all)
      decreases |now|
    {
      FirstData(now);
      if item.value.Failed? {
        return None;
      }
      var piece := if item.value.Data? then item.value.data else [];
      assert (data + piece) + DataBefore(now[1..]) == data + (piece + DataBefore(now[1..]));
      data := data + piece;
      now := now[1..];
      item := iter.Next();
    }
    EndData();
    assert data + DataBefore(now) == data;
    r := Some(data);
  }

  lemma FirstData(items: seq<Item>)
    requires items != []
    ensures (Failed in items) == (items[0] == Failed || Failed in items[1..])
    ensures items[0] != Failed ==>
              DataBefore(items) == (if items[0].Data? then items[0].data else []) + DataBefore(items[1..])
  {
    assert items == [items[0]] + items[1..];
  }

  lemma EndData()
    ensures DataBefore([]) == []
  {
  }

  /** Reading, within a limit, until a read delivers nothing. */
  method DrainStream(stream: ByteStream, limit: Option<nat>) returns (data: bytes)
    requires stream.Valid()
    modifies stream
    ensures stream.Valid()
    ensures data == Limited(old(stream.Rest()), limit) && stream.pos == old(stream.pos) + |data|
  {
    data := [];
    var more := true;
    while more
      invariant stream.Valid() && stream.pos == old(stream.pos) + |data|
      invariant data == stream.data[old(stream.pos)..stream.pos]
      invariant limit.Some? ==> |data| <= limit.value
      invariant more || stream.pos == |stream.data| || (limit.Some? && |data| == limit.value)
      decreases more, |stream.data| - stream.pos
    {
      var buf := stream.Read(if limit.None? then READ_SIZE else Min(READ_SIZE, limit.value - |data|));
      data := data + buf;
      more := buf != [];
    }
    assert data == stream.data[old(stream.pos)..][..|data|];
  }
}
