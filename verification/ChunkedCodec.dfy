/** The chunked transfer coding (section 7.1 of RFC 9112): the writer of `src/response.rs` and
    `src/request.rs`, and the reader `ChunkedReader` of `src/request.rs`. */
module ChunkedCodec {
  import opened Bytes
  import opened Streams

  // ----- httparse::parse_chunk_size -----

  datatype Size = Complete(size: nat) | Partial | Invalid

  /** Digits, then optional blanks, then an optional extension, then CRLF. */
  function ScanSize(s: bytes, size: nat, count: nat, inSize: bool, inExt: bool): Size
  {
    if s == [] then Partial
    else
      var b := s[0];
      if inSize && DigitValue(b).Some? then
        if count > 15 then Invalid
        else ScanSize(s[1..], size * 16 + DigitValue(b).value, count + 1, true, inExt)
      else if IsBlank(b) && !inExt then ScanSize(s[1..], size, count, false, false)
      else if b == SEMICOLON && !inExt then ScanSize(s[1..], size, count, false, true)
      else if b == CR then
        if |s| < 2 then Partial else if s[1] == LF then Complete(size) else Invalid
      else if inExt then ScanSize(s[1..], size, count, inSize, inExt)
      else Invalid
  }

  function ParseChunkSize(buf: bytes): Size { ScanSize(buf, 0, 0, true, false) }

  lemma {:induction false} ScanDigits(digits: bytes, k: nat, rest: bytes)
    requires k <= |digits| <= 16 && AllDigits(digits, 16)
    ensures ScanSize(digits[k..] + rest, Value(digits[..k], 16), k, true, false)
         == ScanSize(rest, Value(digits, 16), |digits|, true, false)
    decreases |digits| - k
  {
    if k == |digits| {
      assert digits[k..] + rest == rest;
      assert digits[..k] == digits;
    } else {
      assert digits[k..] + rest == [digits[k]] + (digits[k + 1..] + rest);
      assert digits[..k + 1][..k] == digits[..k];
      ScanDigits(digits, k + 1, rest);
    }
  }

  /** Reading a size line gives back the number the writer printed. */
  lemma SizeLineRoundTrip(n: nat)
    requires n <= U64_MAX
    ensures ParseChunkSize(Numeral(n, 16) + CRLF) == Complete(n)
  {
    var digits := Numeral(n, 16);
    HexLength(n);
    NumeralValue(n, 16);
    assert digits[..0] == [] && digits[0..] == digits;
    ScanDigits(digits, 0, CRLF);
  }

  /** The digits of a number in hexadecimal, the letters in either case. */
  predicate HexOf(s: bytes, n: nat)
  {
    && var d := Numeral(n, 16);
    && |s| == |d|
    && forall i :: 0 <= i < |s| ==> s[i] == d[i] || (97 <= d[i] <= 102 && s[i] == d[i] - 32)
  }

  lemma {:induction false} SameValue(s: bytes, d: bytes)
    requires AllDigits(d, 16) && |s| == |d|
    requires forall i :: 0 <= i < |s| ==> s[i] == d[i] || (97 <= d[i] <= 102 && s[i] == d[i] - 32)
    ensures AllDigits(s, 16) && Value(s, 16) == Value(d, 16)
  {
    if s != [] {
      SameValue(s[..|s| - 1], d[..|d| - 1]);
      assert IsDigit(d[|d| - 1], 16);
      forall i | 0 <= i < |s| ensures IsDigit(s[i], 16) {
        if i < |s| - 1 { assert IsDigit(s[..|s| - 1][i], 16); }
      }
    }
  }

  /** A size line may be written in either case, as other implementations do. */
  lemma SizeLineInAnyCase(s: bytes, n: nat)
    requires n <= U64_MAX && HexOf(s, n)
    ensures ParseChunkSize(s + CRLF) == Complete(n)
  {
    var d := Numeral(n, 16);
    HexLength(n);
    NumeralValue(n, 16);
    SameValue(s, d);
    assert s[..0] == [] && s[0..] == s;
    ScanDigits(s, 0, CRLF);
  }

  lemma {:induction false} ScanTooMany(digits: bytes, rest: bytes, size: nat, count: nat)
    requires AllDigits(digits, 16) && count + |digits| > 16 && count <= 16
    ensures ScanSize(digits + rest, size, count, true, false) == Invalid
    decreases digits
  {
    assert digits + rest == [digits[0]] + (digits[1..] + rest);
    assert IsDigit(digits[0], 16);
    if count <= 15 { ScanTooMany(digits[1..], rest, size * 16 + DigitValue(digits[0]).value, count + 1); }
  }

  /** More digits than a 64-bit number has are refused, whatever follows. */
  lemma TooManyDigits(digits: bytes, rest: bytes)
    requires AllDigits(digits, 16) && |digits| > 16
    ensures ParseChunkSize(digits + rest) == Invalid
  {
    ScanTooMany(digits, rest, 0, 0);
  }

  /** `s` begins with a size line: at most sixteen digits, blanks, an extension, and CRLF. */
  ghost predicate SizeLine(s: bytes, digits: bytes, blanks: bytes, ext: bytes)
  {
    && AllDigits(digits, 16) && |digits| <= 16 && AllBlank(blanks) && Extension(ext)
    && digits + blanks + ext + CRLF <= s
  }

  predicate Extension(ext: bytes) { ext == [] || (ext[0] == SEMICOLON && CR !in ext) }

  lemma {:induction false} ScanExtension(ext: bytes, rest: bytes, size: nat, count: nat)
    requires CR !in ext
    ensures ScanSize(ext + (CRLF + rest), size, count, false, true) == Complete(size)
  {
    if ext == [] {
      assert ext + (CRLF + rest) == CRLF + rest;
    } else {
      assert (ext + (CRLF + rest))[0] == ext[0] && ext[0] in ext;
      assert (ext + (CRLF + rest))[1..] == ext[1..] + (CRLF + rest);
      ScanExtension(ext[1..], rest, size, count);
    }
  }

  lemma {:induction false} ScanBlanks(blanks: bytes, ext: bytes, rest: bytes, size: nat, count: nat, inSize: bool)
    requires AllBlank(blanks) && Extension(ext)
    ensures ScanSize(blanks + (ext + (CRLF + rest)), size, count, inSize, false) == Complete(size)
  {
    var tail := ext + (CRLF + rest);
    if blanks != [] {
      assert (blanks + tail)[1..] == blanks[1..] + tail;
      ScanBlanks(blanks[1..], ext, rest, size, count, false);
    } else if ext != [] {
      assert (blanks + tail)[1..] == ext[1..] + (CRLF + rest);
      ScanExtension(ext[1..], rest, size, count);
    } else {
      assert blanks + tail == CRLF + rest;
    }
  }

  lemma SizeLineIsRead(s: bytes, digits: bytes, blanks: bytes, ext: bytes)
    requires SizeLine(s, digits, blanks, ext)
    ensures ParseChunkSize(s) == Complete(Value(digits, 16))
  {
    var rest := s[|digits + blanks + ext + CRLF|..];
    var tail := blanks + (ext + (CRLF + rest));
    assert s == digits + blanks + ext + CRLF + rest == digits + tail;
    assert digits[..0] == [] && digits[0..] == digits;
    ScanDigits(digits, 0, tail);
    ScanBlanks(blanks, ext, rest, Value(digits, 16), |digits|, true);
  }

  lemma {:induction false} ExtensionScanned(s: bytes, size: nat, count: nat) returns (ext: bytes)
    requires ScanSize(s, size, count, false, true).Complete?
    ensures CR !in ext && ext + CRLF <= s
  {
    if s[0] == CR {
      ext := [];
      assert s[..2] == CRLF;
    } else {
      var more := ExtensionScanned(s[1..], size, count);
      ext := [s[0]] + more;
      assert s == [s[0]] + s[1..];
    }
  }

  lemma {:induction false} BlanksScanned(s: bytes, size: nat, count: nat, inSize: bool)
    returns (blanks: bytes, ext: bytes)
    requires ScanSize(s, size, count, inSize, false).Complete? && !(inSize && DigitValue(s[0]).Some?)
    ensures AllBlank(blanks) && Extension(ext) && blanks + ext + CRLF <= s
  {
    blanks, ext := [], [];
    assert s == [s[0]] + s[1..];
    if s[0] == CR {
      assert s[..2] == CRLF;
    } else if s[0] == SEMICOLON {
      ext := ExtensionScanned(s[1..], size, count);
      ext := [SEMICOLON] + ext;
    } else {
      blanks, ext := BlanksScanned(s[1..], size, count, false);
      blanks := [s[0]] + blanks;
    }
  }

  lemma {:induction false} DigitsScanned(before: bytes, s: bytes) returns (digits: bytes, blanks: bytes, ext: bytes)
    requires AllDigits(before, 16) && |before| <= 16
    requires ScanSize(s, Value(before, 16), |before|, true, false).Complete?
    ensures SizeLine(before + s, digits, blanks, ext)
    decreases s
  {
    if DigitValue(s[0]).Some? {
      var more := before + [s[0]];
      assert more[..|more| - 1] == before && before + s == more + s[1..];
      digits, blanks, ext := DigitsScanned(more, s[1..]);
    } else {
      digits := before;
      blanks, ext := BlanksScanned(s, Value(before, 16), |before|, true);
      assert digits + blanks + ext + CRLF == before + (blanks + ext + CRLF);
    }
  }

  /** Exactly these lines are accepted as the size of a chunk, as the number that their digits are. */
  lemma SizeLines(s: bytes, n: nat)
    ensures ParseChunkSize(s) == Complete(n) <==>
              exists digits, blanks, ext :: SizeLine(s, digits, blanks, ext) && Value(digits, 16) == n
  {
    if ParseChunkSize(s) == Complete(n) {
      var digits, blanks, ext := DigitsScanned([], s);
      assert [] + s == s;
      SizeLineIsRead(s, digits, blanks, ext);
    }
    forall digits, blanks, ext | SizeLine(s, digits, blanks, ext)
      ensures ParseChunkSize(s) == Complete(Value(digits, 16))
    {
      SizeLineIsRead(s, digits, blanks, ext);
    }
  }

  /** A size line cut before its line feed is incomplete, never a smaller size. */
  lemma CutSizeLine(n: nat, k: nat)
    requires n <= U64_MAX && k < |Numeral(n, 16)| + 2
    ensures ParseChunkSize((Numeral(n, 16) + CRLF)[..k]) == Partial
  {
    var line := Numeral(n, 16) + CRLF;
    HexLength(n);
    var d := Min(k, |Numeral(n, 16)|);
    var digits := line[..d];
    assert digits[..0] == [] && digits[0..] == digits;
    ScanDigits(digits, 0, line[d..k]);
    assert line[..k] == digits + line[d..k];
    assert line[d..k] == [] || line[d..k] == [CR];
  }

  // ----- the writer -----

  function EncodeChunk(chunk: bytes): bytes
  {
    Numeral(|chunk|, 16) + CRLF + chunk + CRLF
  }

  function EncodeChunks(chunks: seq<bytes>): bytes
  {
    if chunks == [] then [] else EncodeChunk(chunks[0]) + EncodeChunks(chunks[1..])
  }

  const LAST_CHUNK: bytes := [48, 13, 10]

  // ----- the reader -----

  /** One call of `ChunkedReader::next`: what it returns and how many bytes it takes. */
  datatype Step = Step(chunk: Option<bytes>, used: nat)

  function NextChunk(buf: bytes, s: bytes): (r: Step)
    ensures r.used <= |s|
    ensures r.chunk.Some? ==> 0 < |r.chunk.value| < r.used
    decreases |s|
  {
    var n := LineLen(s);
    if n == 0 then Step(None, 0)
    else
      match ParseChunkSize(buf + s[..n])
      case Complete(size) =>
        if size == 0 then Step(None, n)
        else if size > |s| - n then Step(None, |s|)
        else Step(Some(s[n..n + size]), n + size + LineLen(s[n + size..]))
      case Partial =>
        var r := NextChunk(buf + s[..n], s[n..]);
        Step(r.chunk, n + r.used)
      case Invalid => Step(None, n)
  }

  /** What iterating `ChunkedReader` up to its first `None` yields, and how many bytes that takes.
      Every iteration takes a byte or is the last, so decoding any input terminates. */
  datatype Decoded = Decoded(chunks: seq<bytes>, used: nat)

  function DecodeAll(s: bytes): (d: Decoded)
    ensures d.used <= |s|
    decreases |s|
  {
    var step := NextChunk([], s);
    if step.chunk.None? then Decoded([], step.used)
    else
      var d := DecodeAll(s[step.used..]);
      Decoded([step.chunk.value] + d.chunks, step.used + d.used)
  }

  /** The two ways an iteration ends the loop of `next`. */
  lemma NextEnds(buf: bytes, s: bytes, size: Size)
    requires s != [] && size == ParseChunkSize(buf + s[..LineLen(s)]) && !size.Partial?
    ensures var r, n := NextChunk(buf, s), LineLen(s);
            if size.Invalid? || size == Complete(0) then r == Step(None, n)
            else if size.size > |s| - n then r == Step(None, |s|)
            else r == Step(Some(s[n..][..size.size]), n + size.size + LineLen(s[n..][size.size..]))
  {
    var n := LineLen(s);
    if size.Complete? && size.size <= |s| - n {
      assert s[n..][..size.size] == s[n..n + size.size];
      assert s[n..][size.size..] == s[n + size.size..];
    }
  }

  lemma DecodeStops(s: bytes, used: nat)
    requires NextChunk([], s) == Step(None, used)
    ensures DecodeAll(s) == Decoded([], used)
  {
  }

  lemma DecodeGoesOn(s: bytes, c: bytes, used: nat, rest: bytes)
    requires NextChunk([], s) == Step(Some(c), used) && s[used..] == rest
    ensures DecodeAll(s) == Decoded([c] + DecodeAll(rest).chunks, used + DecodeAll(rest).used)
  {
  }

  class ChunkedReader {
    const stream: ByteStream

    constructor (stream: ByteStream)
      ensures this.stream == stream
    {
      this.stream := stream;
    }

    /** The data of a chunk of `size` bytes and the rest of its line. */
    method TakeData(size: nat) returns (item: Option<bytes>)
      requires stream.Valid() && size > 0
      modifies stream
      ensures stream.Valid()
      ensures var s := old(stream.Rest());
              if size > |s| then item == None && stream.pos == old(stream.pos) + |s|
              else item == Some(s[..size]) && stream.pos == old(stream.pos) + size + LineLen(s[size..])
    {
      ghost var s := stream.Rest();
      item := stream.ReadExact(size);
      if item != None {
        assert stream.Rest() == s[size..] && s[..size] == item.value;
        var _ := stream.ReadUntilLf();
      }
    }

    /** `Iterator::next`. Not fused: a call after `None` goes on reading. */
    method Next() returns (item: Option<bytes>)
      requires stream.Valid()
      modifies stream
      ensures stream.Valid()
      ensures item == NextChunk([], old(stream.Rest())).chunk
      ensures stream.pos == old(stream.pos) + NextChunk([], old(stream.Rest())).used
    {
      var buf := [];
      ghost var goal := NextChunk([], stream.Rest());
      ghost var start := stream.pos;
      while true
        invariant stream.Valid() && start <= stream.pos
        invariant goal.chunk == NextChunk(buf, stream.Rest()).chunk
        invariant start + goal.used == stream.pos + NextChunk(buf, stream.Rest()).used
        decreases |stream.data| - stream.pos
      {
        ghost var s, n := stream.Rest(), LineLen(stream.Rest());
        var line := stream.ReadUntilLf();
        assert line == s[..n] && stream.Rest() == s[n..];
        if line == [] {
          return None;
        }
        var size := ParseChunkSize(buf + line);
        if !size.Partial? {
          NextEnds(buf, s, size);
        }
        if size.Invalid? || size == Complete(0) {
          return None;
        }
        if size.Complete? {
          item := TakeData(size.size);
          return;
        }
        buf := buf + line;
      }
    }
  }

  // ----- round trip -----

  /** How many chunks precede the first empty one. */
  function BeforeEmpty(chunks: seq<bytes>): (i: nat)
    ensures i <= |chunks|
    ensures forall k :: 0 <= k < i ==> chunks[k] != []
    ensures i < |chunks| ==> chunks[i] == []
  {
    if chunks == [] || chunks[0] == [] then 0 else 1 + BeforeEmpty(chunks[1..])
  }

  predicate Sendable(chunks: seq<bytes>)
  {
    forall i :: 0 <= i < |chunks| ==> |chunks[i]| <= U64_MAX
  }

  lemma NextOfSizeLine(n: nat, r: bytes)
    requires n <= U64_MAX
    ensures LineLen(Numeral(n, 16) + CRLF + r) == |Numeral(n, 16)| + 2
    ensures ParseChunkSize([] + (Numeral(n, 16) + CRLF + r)[..|Numeral(n, 16)| + 2]) == Complete(n)
  {
    var line := Numeral(n, 16) + CRLF;
    LineLenOfLine(line, r);
    assert [] + (line + r)[..|line|] == line;
    SizeLineRoundTrip(n);
  }

  lemma NextOfChunk(c: bytes, r: bytes)
    requires c != [] && |c| <= U64_MAX
    ensures NextChunk([], EncodeChunk(c) + r) == Step(Some(c), |EncodeChunk(c)|)
  {
    var s := EncodeChunk(c) + r;
    var n := |Numeral(|c|, 16)| + 2;
    assert s == Numeral(|c|, 16) + CRLF + (c + CRLF + r);
    NextOfSizeLine(|c|, c + CRLF + r);
    assert s[n..n + |c|] == c;
    assert s[n + |c|..] == CRLF + r;
    LineLenOfLine(CRLF, r);
  }

  lemma NextOfEmpty(r: bytes)
    ensures NextChunk([], LAST_CHUNK + r) == Step(None, 3)
  {
    assert Numeral(0, 16) == [48];
    assert LAST_CHUNK + r == Numeral(0, 16) + CRLF + r;
    NextOfSizeLine(0, r);
  }

  /** Decoding the writer's output yields the chunks before the first empty one and stops right
      after the `0` size line that ended them, whatever follows. */
  lemma {:induction false} DecodeEncoded(chunks: seq<bytes>, tail: bytes)
    requires Sendable(chunks)
    ensures var i := BeforeEmpty(chunks);
            DecodeAll(EncodeChunks(chunks) + LAST_CHUNK + tail)
            == Decoded(chunks[..i], |EncodeChunks(chunks[..i])| + 3)
  {
    hide NextChunk, DecodeAll;
    var s := EncodeChunks(chunks) + LAST_CHUNK + tail;
    if chunks == [] {
      assert s == LAST_CHUNK + tail;
      NextOfEmpty(tail);
      DecodeStops(s, 3);
    } else {
      var c := chunks[0];
      var more := EncodeChunks(chunks[1..]) + LAST_CHUNK + tail;
      assert s == EncodeChunk(c) + more;
      if c == [] {
        assert Numeral(0, 16) == [48];
        assert s == LAST_CHUNK + (CRLF + more);
        NextOfEmpty(CRLF + more);
        DecodeStops(s, 3);
      } else {
        NextOfChunk(c, more);
        DecodeEncoded(chunks[1..], tail);
        DecodeGoesOn(s, c, |EncodeChunk(c)|, more);
        var i := BeforeEmpty(chunks);
        assert chunks[..i][1..] == chunks[1..][..i - 1];
        assert [c] + chunks[1..][..i - 1] == chunks[..i];
      }
    }
  }

  /** All chunks come back, and exactly what followed the `0` size line is left, if and only if no
      chunk is empty. */
  lemma ChunkedRoundTrip(chunks: seq<bytes>, tail: bytes)
    requires Sendable(chunks)
    ensures var s := EncodeChunks(chunks) + LAST_CHUNK + tail;
            var d := DecodeAll(s);
            (d.chunks == chunks && s[d.used..] == tail)
            <==> forall i :: 0 <= i < |chunks| ==> chunks[i] != []
  {
    DecodeEncoded(chunks, tail);
    var i := BeforeEmpty(chunks);
    if i == |chunks| {
      assert chunks[..i] == chunks;
      var s := EncodeChunks(chunks) + LAST_CHUNK + tail;
      assert s[|EncodeChunks(chunks)| + 3..] == tail;
    }
  }

  // ----- truncation -----

  /** How many chunks have their size line and data within the first `k` encoded bytes. */
  function WholeChunks(chunks: seq<bytes>, k: nat): (n: nat)
    ensures n <= |chunks|
  {
    if chunks == [] then 0
    else
      var c := chunks[0];
      var full := |Numeral(|c|, 16)| + 2 + |c|;
      if k < full then 0 else 1 + WholeChunks(chunks[1..], if k < full + 2 then 0 else k - full - 2)
  }

  lemma DecodeCutLine(n: nat, k: nat)
    requires n <= U64_MAX && k < |Numeral(n, 16)| + 2
    ensures DecodeAll((Numeral(n, 16) + CRLF)[..k]).chunks == []
  {
    var s := (Numeral(n, 16) + CRLF)[..k];
    assert LF !in s;
    LineLenAt(s, []);
    if k > 0 {
      assert [] + s[..k] == s;
      CutSizeLine(n, k);
      assert s[k..] == [];
      assert NextChunk(s, []) == Step(None, 0);
    }
  }

  lemma NextOfCutData(c: bytes, s: bytes)
    requires 0 < |c| <= U64_MAX
    requires |Numeral(|c|, 16)| + 2 <= |s| < |Numeral(|c|, 16)| + 2 + |c|
    requires s[..|Numeral(|c|, 16)| + 2] == Numeral(|c|, 16) + CRLF
    ensures NextChunk([], s) == Step(None, |s|)
  {
    var n := |Numeral(|c|, 16)| + 2;
    assert s == Numeral(|c|, 16) + CRLF + s[n..];
    NextOfSizeLine(|c|, s[n..]);
  }

  lemma NextOfCutEnd(c: bytes, end: bytes)
    requires 0 < |c| <= U64_MAX
    requires end <= CRLF
    ensures var s := Numeral(|c|, 16) + CRLF + c + end;
            NextChunk([], s) == Step(Some(c), |s|)
  {
    var s := Numeral(|c|, 16) + CRLF + c + end;
    var n := |Numeral(|c|, 16)| + 2;
    assert s == Numeral(|c|, 16) + CRLF + (c + end);
    NextOfSizeLine(|c|, c + end);
    assert s[n..n + |c|] == c && s[n + |c|..] == end;
    if end == CRLF { LineLenOfLine(CRLF, []); assert CRLF + [] == CRLF; } else { LineLenAt(end, []); }
  }

  lemma DecodeCutShort(c: bytes, s: bytes, k: nat)
    requires 0 < |c| <= U64_MAX
    requires k < |Numeral(|c|, 16)| + 2 + |c|
    requires s == (Numeral(|c|, 16) + CRLF + c)[..k]
    ensures DecodeAll(s).chunks == []
  {
    var line := Numeral(|c|, 16) + CRLF;
    if k < |line| {
      assert s == line[..k];
      DecodeCutLine(|c|, k);
    } else {
      assert s[..|line|] == line;
      NextOfCutData(c, s);
    }
  }

  lemma DecodeCutLong(c: bytes, r: bytes, k: nat, left: nat)
    requires 0 < |c| <= U64_MAX
    requires |EncodeChunk(c)| - 2 <= k <= |EncodeChunk(c)| + |r|
    requires left == if k < |EncodeChunk(c)| then 0 else k - |EncodeChunk(c)|
    ensures DecodeAll((EncodeChunk(c) + r)[..k]).chunks == [c] + DecodeAll(r[..left]).chunks
  {
    var s := (EncodeChunk(c) + r)[..k];
    if k < |EncodeChunk(c)| {
      var end := CRLF[..k + 2 - |EncodeChunk(c)|];
      assert s == Numeral(|c|, 16) + CRLF + c + end;
      NextOfCutEnd(c, end);
      assert s[|s|..] == r[..left];
      DecodeGoesOn(s, c, |s|, r[..left]);
    } else {
      assert s == EncodeChunk(c) + r[..left];
      NextOfChunk(c, r[..left]);
      DecodeGoesOn(s, c, |EncodeChunk(c)|, r[..left]);
    }
  }

  lemma DecodeCutTerminator(tail: bytes, k: nat)
    requires k <= |LAST_CHUNK + tail|
    ensures DecodeAll((LAST_CHUNK + tail)[..k]).chunks == []
  {
    var s := (LAST_CHUNK + tail)[..k];
    assert Numeral(0, 16) == [48];
    if k < 3 {
      assert s == (Numeral(0, 16) + CRLF)[..k];
      DecodeCutLine(0, k);
    } else {
      assert s == LAST_CHUNK + s[3..];
      NextOfEmpty(s[3..]);
    }
  }

  /** Cutting an encoding at any byte loses the chunks that are not complete and no more: the
      decoder never returns a shortened or mis-sized chunk. */
  lemma {:induction false} TruncationSafety(chunks: seq<bytes>, tail: bytes, k: nat)
    requires Sendable(chunks) && forall i :: 0 <= i < |chunks| ==> chunks[i] != []
    requires k <= |EncodeChunks(chunks) + LAST_CHUNK + tail|
    ensures DecodeAll((EncodeChunks(chunks) + LAST_CHUNK + tail)[..k]).chunks
         == chunks[..WholeChunks(chunks, k)]
  {
    hide NextChunk, DecodeAll;
    var whole := EncodeChunks(chunks) + LAST_CHUNK + tail;
    if chunks == [] {
      assert whole == LAST_CHUNK + tail;
      DecodeCutTerminator(tail, k);
    } else {
      var c := chunks[0];
      var more := EncodeChunks(chunks[1..]) + LAST_CHUNK + tail;
      assert whole == EncodeChunk(c) + more;
      if k < |EncodeChunk(c)| - 2 {
        DecodeCutShort(c, whole[..k], k);
      } else {
        var left := if k < |EncodeChunk(c)| then 0 else k - |EncodeChunk(c)|;
        DecodeCutLong(c, more, k, left);
        TruncationSafety(chunks[1..], tail, left);
        var w := WholeChunks(chunks[1..], left);
        assert [c] + chunks[1..][..w] == chunks[..1 + w];
      }
    }
  }
}
