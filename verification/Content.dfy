/** Message bodies as values: what each of the three views of `src/body.rs` yields. */
module Content {
  import opened Bytes
  import opened Streams
  import opened Head

  /** What a body's iterator delivers: a chunk of data, trailers, or an error. */
  datatype Item = Data(data: bytes) | Trailers(fields: Headers) | Failed

  datatype Content =
    | Empty
    | Buffered(data: bytes)
    | Iter(items: seq<Item>)
    | Reader(src: Source, len: Option<nat>)
  {
    predicate Valid() { Reader? ==> src.Valid() }

    predicate ErrorFree() { Iter? ==> Failed !in items }

    /** `HttpBody::len`. */
    function Len(): Option<nat>
    {
      match this
      case Empty => Some(0)
      case Buffered(data) => Some(|data|)
      case Iter(_) => None
      case Reader(_, len) => len
    }
  }

  type BodyValue = c: Content | c.Valid() witness Empty

  /** The same body, with its bytes arriving in other steps. */
  function Reread(c: Content, burst: nat -> nat): (r: Content)
    ensures c.Valid() <==> r.Valid()
  {
    if c.Reader? then c.(src := c.src.(burst := burst)) else c
  }

  const READ_SIZE: nat := 8192

  /** The data ahead of the first error; trailers are skipped. */
  function DataBefore(items: seq<Item>): bytes
  {
    if items == [] || items[0].Failed? then []
    else (if items[0].Data? then items[0].data else []) + DataBefore(items[1..])
  }

  function BeforeError(items: seq<Item>): seq<Item>
  {
    if items == [] || items[0].Failed? then [] else [items[0]] + BeforeError(items[1..])
  }

  /** What reading an iterator body to its end delivers. An error in first place reads as an empty
      chunk; any later one as the end. */
  function ReadItems(items: seq<Item>): bytes
  {
    if items == [] then []
    else if items[0].Trailers? then ReadItems(items[1..])
    else (if items[0].Data? then items[0].data else []) + DataBefore(items[1..])
  }

  /** Whether the first item other than trailers is an error. */
  predicate ErrorFirst(items: seq<Item>)
  {
    items != [] && (items[0].Failed? || (items[0].Trailers? && ErrorFirst(items[1..])))
  }

  /** The items behind the first error. */
  function AfterError(items: seq<Item>): seq<Item>
  {
    if items == [] then [] else if items[0].Failed? then items[1..] else AfterError(items[1..])
  }

  function Limited(s: bytes, len: Option<nat>): bytes
  {
    match len
    case None => s
    case Some(n) => s[..Min(n, |s|)]
  }

  lemma LimitedSplit(s: bytes, k: nat, len: Option<nat>)
    requires k <= |s| && (len.Some? ==> k <= len.value)
    ensures var rest := if len.None? then None else Some(len.value - k);
            Limited(s, len) == s[..k] + Limited(s[k..], rest)
  {
    if len.Some? { assert s[..Min(len.value, |s|)] == s[..k] + s[k..][..Min(len.value - k, |s| - k)]; }
  }

  /** `into_bytes`: None is an error. */
  function BytesView(c: Content): Option<bytes>
    requires c.Valid()
  {
    match c
    case Empty => Some([])
    case Buffered(data) => Some(data)
    case Iter(items) => if Failed in items then None else Some(DataBefore(items))
    case Reader(src, len) => Some(Limited(src.Rest(), len))
  }

  /** A body gives its length if it is not made of items, nor a reader of unknown length; the bytes are
      that many, unless the source has fewer. */
  lemma KnownLength(c: BodyValue)
    ensures c.Len() == None <==> c.Iter? || (c.Reader? && c.len == None)
    ensures c.Len().Some? ==>
              BytesView(c).Some?
              && |BytesView(c).value| == if c.Reader? then Min(c.Len().value, |c.src.Rest()|) else c.Len().value
  {
  }

  /** Everything that `into_reader` delivers. */
  function ReaderView(c: Content): bytes
    requires c.Valid()
  {
    match c
    case Empty => []
    case Buffered(data) => data
    case Iter(items) => ReadItems(items)
    case Reader(src, len) => Limited(src.Rest(), len)
  }

  /** The chunks `ChunkIterator` cuts from a reader. The declared length ends the iteration, but
      does not cap the read that reaches it. */
  function ReaderChunks(src: Source, len: Option<nat>): seq<bytes>
    requires src.Valid()
    decreases |src.Rest()|
  {
    var n := src.ReadSize(READ_SIZE);
    if n == 0 then []
    else if len.None? then [src.Rest()[..n]] + ReaderChunks(src.Skip(n), None)
    else if n < len.value then [src.Rest()[..n]] + ReaderChunks(src.Skip(n), Some(len.value - n))
    else [src.Rest()[..n]]
  }

  function DataItems(chunks: seq<bytes>): seq<Item>
  {
    seq(|chunks|, i requires 0 <= i < |chunks| => Data(chunks[i]))
  }

  /** Everything that `into_chunks` yields. */
  function ChunksView(c: Content): seq<Item>
    requires c.Valid()
  {
    match c
    case Empty => []
    case Buffered(data) => [Data(data)]
    case Iter(items) => BeforeError(items)
    case Reader(src, len) => DataItems(ReaderChunks(src, len))
  }

  // ----- lists of items -----

  /** The data chunks of a list of items, as the chunked writer sends them. */
  function ChunksOf(items: seq<Item>): seq<bytes>
  {
    if items == [] then []
    else (if items[0].Data? then [items[0].data] else []) + ChunksOf(items[1..])
  }

  /** `HeaderMap::extend`: a later trailer replaces the earlier ones of its name. */
  function Extend(m: Headers, more: Headers): Headers
  {
    Without(m, more) + more
  }

  function Without(m: Headers, more: Headers): Headers
  {
    if m == [] then []
    else (if Values(more, m[0].name) == [] then [m[0]] else []) + Without(m[1..], more)
  }

  /** The trailers collected while a list of items is written, after `before`. */
  function TrailersOf(before: Headers, items: seq<Item>): Headers
    decreases items
  {
    if items == [] then before
    else TrailersOf(if items[0].Trailers? then Extend(before, items[0].fields) else before, items[1..])
  }

  lemma {:induction false} DataItemsData(chunks: seq<bytes>)
    ensures ChunksOf(DataItems(chunks)) == chunks
    ensures DataBefore(DataItems(chunks)) == Concat(chunks)
    ensures BeforeError(DataItems(chunks)) == DataItems(chunks)
  {
    if chunks != [] {
      DataItemsRest(chunks);
      DataItemsData(chunks[1..]);
    }
  }

  lemma DataItemsRest(chunks: seq<bytes>)
    requires chunks != []
    ensures DataItems(chunks)[0] == Data(chunks[0]) && DataItems(chunks)[1..] == DataItems(chunks[1..])
    ensures DataItems(chunks) == [Data(chunks[0])] + DataItems(chunks[1..])
  {
  }

  lemma {:induction false} BeforeErrorData(items: seq<Item>)
    ensures Concat(ChunksOf(BeforeError(items))) == DataBefore(items)
  {
    if items != [] && !items[0].Failed? {
      BeforeErrorData(items[1..]);
      var rest := BeforeError(items[1..]);
      assert ([items[0]] + rest)[1..] == rest;
      if items[0].Data? {
        assert ([items[0].data] + ChunksOf(rest))[1..] == ChunksOf(rest);
      } else {
        assert [] + ChunksOf(rest) == ChunksOf(rest);
      }
    }
  }

  // ----- a reader taken in chunks -----

  /** One step of the iteration: the read, and what is iterated after it. */
  lemma ChunksStep(src: Source, len: Option<nat>)
    requires src.Valid() && src.Rest() != []
    ensures var n, s, cs := src.ReadSize(READ_SIZE), src.Rest(), ReaderChunks(src, len);
            && cs != [] && cs[0] == s[..n] && Concat(cs) == s[..n] + Concat(cs[1..])
            && (if len.Some? && n >= len.value then cs[1..] == []
                else cs[1..] == ReaderChunks(src.Skip(n), if len.None? then None else Some(len.value - n)))
  {
  }

  lemma {:induction false} ChunksArePrefix(src: Source, len: Option<nat>)
    requires src.Valid()
    ensures Concat(ReaderChunks(src, len)) <= src.Rest()
    ensures forall i :: 0 <= i < |ReaderChunks(src, len)| ==> 1 <= |ReaderChunks(src, len)[i]| <= READ_SIZE
    ensures len.None? ==> Concat(ReaderChunks(src, len)) == src.Rest()
    decreases |src.Rest()|
  {
    var s, n := src.Rest(), src.ReadSize(READ_SIZE);
    if s != [] {
      ChunksStep(src, len);
      var more := ReaderChunks(src, len)[1..];
      if len.None? || n < len.value {
        ChunksArePrefix(src.Skip(n), if len.None? then None else Some(len.value - n));
      }
      assert s == s[..n] + s[n..];
      forall i | 0 <= i < |ReaderChunks(src, len)|
        ensures 1 <= |ReaderChunks(src, len)[i]| <= READ_SIZE
      {
        if i > 0 { assert ReaderChunks(src, len)[i] == more[i - 1]; }
      }
    }
  }

  lemma {:induction false} ChunksReachLength(src: Source, len: nat)
    requires src.Valid()
    ensures Min(len, |src.Rest()|) <= |Concat(ReaderChunks(src, Some(len)))|
    ensures |Concat(ReaderChunks(src, Some(len)))| <= (if len == 0 then 0 else len - 1) + READ_SIZE
    decreases |src.Rest()|
  {
    if src.Rest() != [] {
      ChunksStep(src, Some(len));
      var n := src.ReadSize(READ_SIZE);
      if n < len { ChunksReachLength(src.Skip(n), len - n); }
    }
  }

  /** The chunk view of a reader is a prefix of its source that reaches the declared length or the
      end, and passes the length by less than one read; each chunk has 1 to 8192 bytes, as many as are
      ready: so the first one, and those behind it come from the rest of the source. */
  lemma OverReadBound(src: Source, len: Option<nat>)
    requires src.Valid()
    ensures var cs, s := ReaderChunks(src, len), src.Rest();
            && Concat(cs) <= s
            && (forall i :: 0 <= i < |cs| ==> 1 <= |cs[i]| <= 8192)
            && (s != [] ==> cs != [] && |cs[0]| == Min(8192, src.ReadSize(|s|)))
            && (len.None? ==> Concat(cs) == s)
            && (len.Some? ==> Min(len.value, |s|) <= |Concat(cs)|)
            && (len.Some? ==> |Concat(cs)| <= (if len.value == 0 then 0 else len.value - 1) + 8192)
  {
    ChunksArePrefix(src, len);
    if len.Some? { ChunksReachLength(src, len.value); }
  }

  /** The bytes that `into_bytes` returns are always a prefix of the joined chunks. */
  lemma ChunksCoverBytes(src: Source, len: Option<nat>)
    requires src.Valid()
    ensures BytesView(Reader(src, len)).value <= Concat(ReaderChunks(src, len))
  {
    OverReadBound(src, len);
  }

  /** A source longer than the declared length, delivered in steps of one byte with two at the
      last, makes the chunk view return more than that. */
  lemma {:induction false} OverReadHappens(src: Source, len: nat)
    requires src.Valid() && len < |src.Rest()|
    requires forall p: nat :: src.burst(p) == if p + 1 < src.pos + len then 1 else 2
    ensures |Concat(ReaderChunks(src, Some(len)))| > len
    decreases len
  {
    var n := src.ReadSize(READ_SIZE);
    ChunksStep(src, Some(len));
    if len > 1 {
      assert n == 1;
      OverReadHappens(src.Skip(1), len - 1);
    }
  }

  /** The three views of an error-free body give the same bytes. For a reader with a declared length
      the chunk view joins in when the source has no more bytes than that ... */
  lemma ThreeViewsAgree(c: Content)
    requires c.Valid() && c.ErrorFree()
    ensures BytesView(c) == Some(ReaderView(c))
    ensures (c.Reader? && c.len.Some? ==> |c.src.Rest()| <= c.len.value)
            ==> Concat(ChunksOf(ChunksView(c))) == ReaderView(c)
  {
    match c
    case Empty =>
    case Buffered(data) => assert Concat([data]) == data + Concat([]); assert ChunksOf([Data(data)]) == [data] + ChunksOf([]);
    case Iter(items) =>
      BeforeErrorData(items);
      ReadItemsData(items);
      ErrorFirstIsError(items);
    case Reader(src, len) =>
      if len.Some? ==> |src.Rest()| <= len.value { ReaderViewsAgree(src, len); }
  }

  lemma ReaderViewsAgree(src: Source, len: Option<nat>)
    requires src.Valid() && (len.Some? ==> |src.Rest()| <= len.value)
    ensures Concat(ChunksOf(ChunksView(Reader(src, len)))) == src.Rest() == ReaderView(Reader(src, len))
  {
    hide ReaderChunks, Concat;
    OverReadBound(src, len);
    DataItemsData(ReaderChunks(src, len));
  }

  /** ... and for a longer source there is a pattern of short reads that makes it differ. */
  lemma ChunkViewDiffers(src: Source, len: nat) returns (burst: nat -> nat)
    requires src.Valid() && len < |src.Rest()|
    ensures var c := Reread(Reader(src, Some(len)), burst);
            Concat(ChunksOf(ChunksView(c))) != ReaderView(c)
  {
    burst := p => if p + 1 < src.pos + len then 1 else 2;
    OverReadHappens(src.(burst := burst), len);
    DataItemsData(ReaderChunks(src.(burst := burst), Some(len)));
  }

  lemma {:induction false} ReadItemsData(items: seq<Item>)
    ensures !ErrorFirst(items) ==> ReadItems(items) == DataBefore(items)
    ensures ErrorFirst(items) ==> ReadItems(items) == DataBefore(AfterError(items)) && DataBefore(items) == []
  {
    if items != [] && items[0].Trailers? { ReadItemsData(items[1..]); }
  }

  lemma {:induction false} ErrorFirstIsError(items: seq<Item>)
    ensures ErrorFirst(items) ==> Failed in items
  {
    if items != [] { ErrorFirstIsError(items[1..]); }
  }

  /** With an error among the items `into_bytes` fails, while the chunk view ends at the error and
      the reader does too, unless the error comes first: that one it passes over. */
  lemma ErrorsEndSilently(items: seq<Item>)
    requires Failed in items
    ensures BytesView(Iter(items)) == None
    ensures Concat(ChunksOf(ChunksView(Iter(items)))) == DataBefore(items)
    ensures ReaderView(Iter(items)) == if ErrorFirst(items) then DataBefore(AfterError(items)) else DataBefore(items)
    ensures ErrorFirst(items) ==> DataBefore(items) == []
  {
    BeforeErrorData(items);
    ReadItemsData(items);
  }
}
