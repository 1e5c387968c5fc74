/** The reading and writing ends of a connection: `BufRead` over a finite input, and `BufWriter`. */
module Streams {
  import opened Bytes

  /** An input as a value. A read made at position `p` finds at most `burst(p)` bytes ready (and at
      least one before the end), so every pattern of short reads is some `burst`. */
  datatype Source = Source(data: bytes, burst: nat -> nat, pos: nat)
  {
    predicate Valid() { pos <= |data| }

    function Rest(): bytes requires Valid() { data[pos..] }

    /** How many bytes a read into a buffer of `room` bytes delivers. */
    function ReadSize(room: nat): (n: nat)
      requires Valid()
      ensures n <= room && n <= |Rest()|
      ensures n == 0 <==> room == 0 || Rest() == []
    {
      var ready := if burst(pos) == 0 then 1 else burst(pos);
      Min(room, Min(ready, |data| - pos))
    }

    function Skip(n: nat): (s: Source)
      requires Valid() && n <= |Rest()|
      ensures s.Valid() && s.Rest() == Rest()[n..]
    {
      this.(pos := pos + n)
    }
  }

  class ByteStream {
    const data: bytes
    const burst: nat -> nat
    var pos: nat

    ghost predicate Valid() reads this { pos <= |data| }

    ghost function Src(): (s: Source)
      reads this
      ensures Valid() ==> s.Valid()
    {
      Source(data, burst, pos)
    }

    ghost function Rest(): bytes
      reads this
      requires Valid()
    {
      data[pos..]
    }

    constructor (src: Source)
      requires src.Valid()
      ensures Valid() && Src() == src
    {
      data, burst, pos := src.data, src.burst, src.pos;
    }

    /** `BufRead::fill_buf`: what is ready, and nothing only at the end. */
    method FillBuf() returns (window: bytes)
      requires Valid()
      ensures window <= Rest()
      ensures window == [] <==> Rest() == []
    {
      var ready := if burst(pos) == 0 then 1 else burst(pos);
      window := data[pos..pos + Min(ready, |data| - pos)];
    }

    method Consume(n: nat)
      requires Valid() && n <= |Rest()|
      modifies this
      ensures Valid() && pos == old(pos) + n
      ensures Rest() == old(Rest())[n..]
    {
      pos := pos + n;
    }

    method Read(room: nat) returns (buf: bytes)
      requires Valid()
      modifies this
      ensures Valid() && |buf| == old(Src()).ReadSize(room)
      ensures pos == old(pos) + |buf| && buf == data[old(pos)..pos]
    {
      var ready := if burst(pos) == 0 then 1 else burst(pos);
      var n := Min(room, Min(ready, |data| - pos));
      buf := data[pos..pos + n];
      pos := pos + n;
    }

    /** `read_until(b'\n')`: everything through the first line feed, or to the end. */
    method ReadUntilLf() returns (line: bytes)
      requires Valid()
      modifies this
      ensures Valid() && pos == old(pos) + LineLen(old(Rest()))
      ensures line == data[old(pos)..pos]
    {
      hide LineLen;
      line := [];
      var found := false;
      while !found
        invariant Valid() && old(pos) <= pos
        invariant line == data[old(pos)..pos]
        invariant if found then pos == old(pos) + LineLen(data[old(pos)..]) else LF !in line
        decreases !found, |data| - pos
      {
        var window := FillBuf();
        var i := IndexOf(window, LF);
        if i < |window| {
          assert data[old(pos)..pos + i] == line + window[..i];
          LineLenFound(data[old(pos)..], pos + i - old(pos));
          line := line + window[..i + 1];
          Consume(i + 1);
          found := true;
        } else if window == [] {
          LineLenNotFound(data[old(pos)..]);
          found := true;
        } else {
          line := line + window;
          Consume(|window|);
        }
      }
    }

    /** `read_exact`: None stands for the `UnexpectedEof` error, the input then being used up. */
    method ReadExact(n: nat) returns (r: Option<bytes>)
      requires Valid()
      modifies this
      ensures Valid() && pos == old(pos) + Min(n, |old(Rest())|)
      ensures r == if n <= |old(Rest())| then Some(data[old(pos)..pos]) else None
    {
      var buf := [];
      while |buf| < n
        invariant Valid() && |buf| <= n
        invariant pos == old(pos) + |buf| && buf == data[old(pos)..pos]
      {
        var more := Read(n - |buf|);
        if more == [] {
          return None;
        }
        buf := buf + more;
      }
      return Some(buf);
    }
  }

  lemma LineLenFound(s: bytes, i: nat)
    requires i < |s| && s[i] == LF && LF !in s[..i]
    ensures LineLen(s) == i + 1
  {
    assert s == s[..i] + [LF] + s[i + 1..];
    LineLenAt(s[..i], s[i + 1..]);
  }

  lemma LineLenNotFound(s: bytes)
    requires LF !in s
    ensures LineLen(s) == |s|
  {
    LineLenAt(s, []);
  }

  /** `BufWriter`: `sent` reached the peer, `buffered` did not yet. */
  class BufWriter {
    const CAPACITY: nat := 8192
    var sent: bytes
    var buffered: bytes

    constructor ()
      ensures Written() == [] && buffered == []
    {
      sent, buffered := [], [];
    }

    /** Everything written so far. */
    ghost function Written(): bytes reads this { sent + buffered }

    method Flush()
      modifies this
      ensures buffered == [] && Written() == old(Written())
    {
      sent, buffered := sent + buffered, [];
    }

    method WriteAll(b: bytes)
      modifies this
      ensures Written() == old(Written()) + b
    {
      if |b| > CAPACITY - |buffered| {
        Flush();
      }
      if |b| >= CAPACITY {
        sent := sent + b;
      } else {
        buffered := buffered + b;
      }
    }
  }
}
