/** What becomes of the trailers of a body that is sent in chunks (section 7.1.2 of RFC 9112), said of the
    items of the body and of what a reader finds behind the last chunk. */
module Trailers {
  import opened Bytes
  import opened Head
  import opened Lookups
  import opened ChunkedCodec
  import opened Content
  import opened Framing

  /** The item gives values for the name. */
  ghost predicate Has(item: Item, name: bytes)
  {
    item.Trailers? && exists v :: Given(item.fields, name, v)
  }

  /** No item from `k` on gives values for the name. */
  ghost predicate NoneFrom(items: seq<Item>, k: nat, name: bytes)
  {
    forall j :: k <= j < |items| ==> !Has(items[j], name)
  }

  /** Item `k` is the last one that gives values for the name. */
  ghost predicate LastWith(items: seq<Item>, k: nat, name: bytes)
  {
    k < |items| && items[k].Trailers? && Has(items[k], name) && NoneFrom(items, k + 1, name)
  }

  /** `vs` are the values of the name in the last item that has it, and none if no item does. */
  ghost predicate LastWins(items: seq<Item>, name: bytes, vs: seq<bytes>)
  {
    && (forall k: nat :: LastWith(items, k, name) ==> vs == Values(items[k].fields, name))
    && (NoneFrom(items, 0, name) ==> vs == [])
  }

  lemma HasMeans(item: Item, name: bytes)
    ensures Has(item, name) <==> item.Trailers? && Values(item.fields, name) != []
  {
    hide Given;
    if item.Trailers? {
      var vs := Values(item.fields, name);
      forall v
        ensures v in vs <==> Given(item.fields, name, v)
      {
        ValuesAreGiven(item.fields, name, v);
      }
      if vs != [] { assert vs[0] in vs; }
    }
  }

  lemma {:induction false} ValuesAppend(a: Headers, b: Headers, name: bytes)
    ensures Values(a + b, name) == Values(a, name) + Values(b, name)
  {
    if a == [] {
      assert a + b == b;
    } else {
      assert (a + b)[1..] == a[1..] + b;
      ValuesAppend(a[1..], b, name);
    }
  }

  lemma {:induction false} ValuesWithout(m: Headers, more: Headers, name: bytes)
    ensures Values(Without(m, more), name) == if Values(more, name) == [] then Values(m, name) else []
  {
    if m != [] {
      var first := if Values(more, m[0].name) == [] then [m[0]] else [];
      ValuesWithout(m[1..], more, name);
      ValuesAppend(first, Without(m[1..], more), name);
      assert [m[0]][1..] == [];
    }
  }

  lemma ExtendValues(m: Headers, more: Headers, name: bytes)
    ensures Values(Extend(m, more), name) == if Values(more, name) == [] then Values(m, name) else Values(more, name)
  {
    ValuesWithout(m, more, name);
    ValuesAppend(Without(m, more), more, name);
  }

  /** The values that an item leaves a name with. */
  function After(before: seq<bytes>, item: Item, name: bytes): seq<bytes>
  {
    if item.Trailers? && Values(item.fields, name) != [] then Values(item.fields, name) else before
  }

  lemma {:induction false} CollectedValues(before: Headers, items: seq<Item>, name: bytes)
    ensures Values(TrailersOf(before, items), name) == LastValues(Values(before, name), items, name)
    decreases items
  {
    if items != [] {
      if items[0].Trailers? { ExtendValues(before, items[0].fields, name); }
      CollectedValues(AddTrailers(before, items[0]), items[1..], name);
    }
  }

  function LastValues(before: seq<bytes>, items: seq<Item>, name: bytes): seq<bytes>
    decreases items
  {
    if items == [] then before else LastValues(After(before, items[0], name), items[1..], name)
  }

  lemma NoneFromRest(items: seq<Item>, k: nat, name: bytes)
    requires items != []
    ensures NoneFrom(items, k + 1, name) <==> NoneFrom(items[1..], k, name)
  {
    hide Has;
    var rest := items[1..];
    if NoneFrom(rest, k, name) {
      forall j | k + 1 <= j < |items| ensures !Has(items[j], name) { assert rest[j - 1] == items[j]; }
    }
  }

  lemma {:induction false} NoneLeft(before: seq<bytes>, items: seq<Item>, name: bytes)
    requires NoneFrom(items, 0, name)
    ensures LastValues(before, items, name) == before
    decreases items
  {
    if items != [] {
      HasMeans(items[0], name);
      NoneLeft(before, items[1..], name);
    }
  }

  lemma {:induction false} LastValuesAre(before: seq<bytes>, items: seq<Item>, k: nat, name: bytes)
    requires LastWith(items, k, name)
    ensures LastValues(before, items, name) == Values(items[k].fields, name)
    decreases items
  {
    hide Has, NoneFrom;
    NoneFromRest(items, k, name);
    if k == 0 {
      HasMeans(items[0], name);
      NoneLeft(After(before, items[0], name), items[1..], name);
    } else {
      LastValuesAre(After(before, items[0], name), items[1..], k - 1, name);
    }
  }

  // ----- on the wire -----

  /** How many trailer lines the items hold. */
  function FieldCount(items: seq<Item>): nat
  {
    if items == [] then 0
    else (if items[0].Trailers? then |items[0].fields| else 0) + FieldCount(items[1..])
  }

  predicate AreFields(items: seq<Item>)
  {
    forall k, i :: 0 <= k < |items| && items[k].Trailers? && 0 <= i < |items[k].fields| ==>
                     GoodField(items[k].fields[i])
  }

  lemma {:induction false} WithoutIsSmaller(m: Headers, more: Headers)
    requires forall i :: 0 <= i < |m| ==> GoodField(m[i])
    ensures |Without(m, more)| <= |m|
    ensures forall i :: 0 <= i < |Without(m, more)| ==> GoodField(Without(m, more)[i])
  {
    hide GoodField;
    if m != [] { WithoutIsSmaller(m[1..], more); }
  }

  lemma {:induction false} CollectedFields(before: Headers, items: seq<Item>)
    requires AreFields(items) && forall i :: 0 <= i < |before| ==> GoodField(before[i])
    ensures |TrailersOf(before, items)| <= |before| + FieldCount(items)
    ensures forall i :: 0 <= i < |TrailersOf(before, items)| ==> GoodField(TrailersOf(before, items)[i])
    decreases items
  {
    hide GoodField;
    if items != [] {
      if items[0].Trailers? { WithoutIsSmaller(before, items[0].fields); }
      assert AreFields(items[1..]) by {
        assert forall k :: 0 <= k < |items[1..]| ==> items[1..][k] == items[k + 1];
      }
      CollectedFields(AddTrailers(before, items[0]), items[1..]);
    }
  }

  function FirstError(items: seq<Item>): (k: nat)
    ensures k <= |items| && (k < |items| ==> items[k] == Failed)
    ensures forall j :: 0 <= j < k ==> items[j] != Failed
  {
    if items == [] || items[0].Failed? then 0 else 1 + FirstError(items[1..])
  }

  lemma {:induction false} ItemsBeforeError(items: seq<Item>)
    ensures BeforeError(items) == items[..FirstError(items)]
  {
    if items != [] && !items[0].Failed? {
      ItemsBeforeError(items[1..]);
      TakeOneMore(items, FirstError(items));
    }
  }

  /** The data chunks of a body, by their places among its items. */
  predicate DataInOrder(items: seq<Item>, chunks: seq<bytes>)
    decreases items
  {
    if items == [] then chunks == []
    else if items[0].Data? then chunks != [] && chunks[0] == items[0].data && DataInOrder(items[1..], chunks[1..])
    else DataInOrder(items[1..], chunks)
  }

  lemma {:induction false} ChunksInOrder(items: seq<Item>)
    ensures DataInOrder(items, ChunksOf(items))
  {
    if items != [] {
      ChunksInOrder(items[1..]);
      if items[0].Data? {
        assert ([items[0].data] + ChunksOf(items[1..]))[1..] == ChunksOf(items[1..]);
      } else {
        assert [] + ChunksOf(items[1..]) == ChunksOf(items[1..]);
      }
    }
  }

  /** A chunked body is read back as its data items in order, up to an error; and the lines behind the
      last chunk parse as trailers in which each name has the values that the last item with that name
      gives it. */
  lemma TrailersAreSent(items: seq<Item>, tail: bytes, room: nat)
    requires Faithful(Chunked, Iter(items))
    requires AreFields(items[..FirstError(items)]) && FieldCount(items[..FirstError(items)]) <= room
    ensures Payload(Chunked, Iter(items)).Some?
    ensures var sent := items[..FirstError(items)];
            var s := Payload(Chunked, Iter(items)).value + tail;
            var d := DecodeAll(s);
            var p := ParseFields(s[d.used..], room);
            && DataInOrder(sent, d.chunks)
            && p.Ok? && forall name :: LastWins(sent, name, Values(p.value, name))
  {
    hide DecodeAll, EncodeChunks, ChunksOf, TrailersOf, FieldLines, ParseFields, GoodField, AreFields, DataInOrder,
         LastWins, FieldCount;
    var sent := items[..FirstError(items)];
    ItemsBeforeError(items);
    var cs, ts := ChunksOf(sent), TrailersOf([], sent);
    var behind := FieldLines(ts) + CRLF;
    var s := Payload(Chunked, Iter(items)).value + tail;
    assert s == EncodeChunks(cs) + LAST_CHUNK + (behind + tail);
    ChunkedRoundTrip(cs, behind + tail);
    ChunksInOrder(sent);
    CollectedFields([], sent);
    ParseWrittenFields(ts, tail, room);
    forall name
      ensures LastWins(sent, name, Values(ts, name))
    {
      TrailerValues(sent, name);
    }
  }

  lemma TrailerValues(items: seq<Item>, name: bytes)
    ensures LastWins(items, name, Values(TrailersOf([], items), name))
  {
    hide Has, NoneFrom, TrailersOf, LastValues;
    CollectedValues([], items, name);
    forall k: nat | LastWith(items, k, name)
      ensures Values(TrailersOf([], items), name) == Values(items[k].fields, name)
    {
      LastValuesAre(Values([], name), items, k, name);
    }
    if NoneFrom(items, 0, name) { NoneLeft(Values([], name), items, name); }
  }
}
