/** The objects of `src/read_queue.rs`, each operation shown to be steps of `QueueProtocol`.

    A `recv` on an empty channel blocks in the source. Here the operation then returns None (`Drop`:
    false) and may be called again; nothing but a drop that has begun has changed meanwhile. */
module ReadQueue {
  import opened Bytes
  import opened Streams
  import P = QueueProtocol

  /** A one-shot channel and whether its receiving end is alive. */
  class Channel {
    var slot: Option<ByteStream>
    var open: bool
    ghost const index: nat   // which handle sends on it

    constructor (ghost index: nat)
      ensures slot == None && open && this.index == index
    {
      slot, open, this.index := None, true, index;
    }
  }

  /** `Closing` and `Passing` stand for the local variables of a `drop` that has begun. */
  datatype Inner = Current(reader: ByteStream) | Waiting(rx: Channel) | Closing(rx: Channel) | Passing(reader: ByteStream)

  function Before(channels: seq<Channel>, i: nat): Option<Channel>
    requires i < |channels|
  {
    if i == 0 then None else Some(channels[i - 1])
  }

  // ----- the protocol's steps for what a handle does in one go -----

  /** A `recv` by handle `i` blocks. */
  ghost predicate MustWait(s: P.State, i: nat)
  {
    P.WellShaped(s) && P.Blocked(s, i)
  }

  ghost predicate Step(s: P.State, a: P.Action, t: P.State)
  {
    P.WellShaped(s) && P.Enabled(s, a) && t == P.Apply(s, a)
  }

  /** The state once handle `i` has the reader, if that can be. */
  function AfterReceive(s: P.State, i: nat): P.State
  {
    if P.WellShaped(s) && P.Enabled(s, P.Receive(i)) then P.Apply(s, P.Receive(i)) else s
  }

  /** What is left of a drop, to its end or to where it blocks. */
  function DropSteps(phase: P.Phase, done: bool, i: nat): seq<P.Action>
  {
    match phase
    case Waiting => [P.BeginDrop(i)] + if done then [P.ReceiveInDrop(i), P.Send(i)] else []
    case Current => [P.BeginDrop(i), P.Send(i)]
    case Closing => if done then [P.ReceiveInDrop(i), P.Send(i)] else []
    case Passing => [P.Send(i)]
    case Dropped => []
  }

  class QueuedReader {
    var inner: Option<Inner>
    const next: Channel
    ghost const index: nat   // which handle it is
    ghost var took: bytes    // what was consumed through it

    constructor (inner: Inner, next: Channel, ghost index: nat)
      ensures this.inner == Some(inner) && this.next == next && took == [] && this.index == index
    {
      this.inner, this.next, took, this.index := Some(inner), next, [], index;
    }

    ghost function Phase(): P.Phase
      reads this
    {
      match inner
      case None => P.Dropped
      case Some(Current(_)) => P.Current
      case Some(Waiting(_)) => P.Waiting
      case Some(Closing(_)) => P.Closing
      case Some(Passing(_)) => P.Passing
    }

    /** No drop of the handle has begun. */
    ghost predicate Usable()
      reads this
    {
      Phase().Current? || Phase().Waiting?
    }

    /** The handle receives from the channel of the one before it; and its own is open, unless that
        was cut when the queue at its other end was dropped. */
    ghost predicate Linked(reader: ByteStream, before: Option<Channel>, cut: bool)
      reads this, next
    {
      && (P.Holding(Phase()) ==> inner.value.reader == reader)
      && (P.Lacking(Phase()) ==> before == Some(inner.value.rx))
      && (inner.Some? ==> (next.open <==> !cut))
    }

    /** This is handle `i` of the queue. */
    ghost predicate In(q: ReadQueue, i: nat)
      reads this, q, q.Repr()
    {
      q.Valid() && i < |q.handles| && q.handles[i] == this
    }

    lemma Shape(q: ReadQueue, i: nat)
      requires In(q, i)
      ensures P.WellShaped(q.Abs()) && P.Inv(q.Abs()) && i < |q.Abs().phases| && q.Abs().phases[i] == Phase()
      ensures P.Lacking(Phase()) ==>
                && i > 0 && i - 1 < |q.Abs().full| && inner.value.rx == q.channels[i - 1]
                && (P.Arrived(q.Abs(), i) <==> inner.value.rx.slot.Some?)
                && (inner.value.rx.slot.Some? ==> inner.value.rx.slot.value == q.reader)
      ensures P.Holding(Phase()) ==> inner.value.reader == q.reader
    {
    }

    /** The `recv` that `read`, `fill_buf` and `consume` begin with when waiting. */
    method Receive(ghost q: ReadQueue, ghost i: nat) returns (r: Option<ByteStream>)
      requires In(q, i) && Usable()
      modifies this, q.Channels()
      ensures In(q, i) && q.Abs() == AfterReceive(old(q.Abs()), i)
      ensures r == None <==> MustWait(old(q.Abs()), i)
      ensures inner == if r == None then old(inner) else Some(Current(q.reader))
      ensures r.Some? ==> r.value == q.reader
    {
      hide P.Inv;
      ghost var before := q.Abs();
      Shape(q, i);
      if inner.value.Current? {
        return Some(inner.value.reader);
      }
      var rx := inner.value.rx;
      r := rx.slot;
      if r == None {
        return;
      }
      P.InvStep(before, P.Receive(i));
      ghost var after := P.Apply(before, P.Receive(i));
      assert after == before.(phases := before.phases[i := P.Current], full := before.full[i - 1 := false]);
      hide P.Apply, P.Enabled;
      rx.slot := None;
      inner := Some(Current(r.value));
      assert q.Abs().phases == after.phases;
      assert q.Abs().full == after.full;
      assert q.Abs().took == after.took;
    }

    /** What was consumed through this handle since position `from`. */
    ghost method Record(q: ReadQueue, i: nat, from: nat)
      requires q.Wired() && q.reader.Valid() && i < |q.handles| && q.handles[i] == this
      requires from <= q.reader.pos && P.Inv(q.Abs().(pos := from)) && inner == Some(Current(q.reader))
      modifies this`took
      ensures In(q, i) && inner == old(inner)
      ensures Step(old(q.Abs()).(pos := from), P.Consume(i, q.reader.pos - from), q.Abs())
    {
      hide P.Inv;
      ghost var before := q.Abs().(pos := from);
      InvShape(before);
      took := took + q.reader.data[from..q.reader.pos];
      P.InvAfterConsume(before, i, q.reader.pos - from);
      assert q.Abs().phases == before.phases;
      assert q.Abs().full == before.full;
      assert q.Abs().took == before.took[i := took];
    }

    method Read(ghost q: ReadQueue, ghost i: nat, room: nat) returns (r: Option<bytes>)
      requires In(q, i) && Usable() && q.reader.Valid()
      modifies this, q.Channels(), q.reader
      ensures In(q, i) && Usable() && q.reader.Valid()
      ensures r == None <==> MustWait(old(q.Abs()), i)
      ensures r == None ==> q.Abs() == old(q.Abs()) && inner == old(inner)
      ensures r.Some? ==>
                && |r.value| <= room && (r.value == [] <==> room == 0 || old(q.reader.Rest()) == [])
                && q.reader.pos == old(q.reader.pos) + |r.value| && r.value == q.reader.data[old(q.reader.pos)..q.reader.pos]
                && Step(AfterReceive(old(q.Abs()), i), P.Consume(i, |r.value|), q.Abs())
    {
      hide P.Inv, P.Apply, P.Enabled, Step, AfterReceive, MustWait;
      var reader := Receive(q, i);
      if reader == None {
        Stays(old(q.Abs()), i);
        return None;
      }
      ghost var mid := q.Abs();
      ghost var from := q.reader.pos;
      var buf := reader.value.Read(room);
      assert q.Abs().(pos := from) == mid;
      Record(q, i, from);
      r := Some(buf);
    }

    method FillBuf(ghost q: ReadQueue, ghost i: nat) returns (r: Option<bytes>)
      requires In(q, i) && Usable() && q.reader.Valid()
      modifies this, q.Channels()
      ensures In(q, i) && Usable() && q.reader.Valid()
      ensures r == None <==> MustWait(old(q.Abs()), i)
      ensures r.Some? ==> r.value <= q.reader.Rest() && (r.value == [] <==> q.reader.Rest() == [])
      ensures q.Abs() == AfterReceive(old(q.Abs()), i)
    {
      hide P.Inv, P.Apply, P.Enabled, AfterReceive, MustWait;
      var reader := Receive(q, i);
      if reader == None {
        return None;
      }
      ghost var mid := q.Abs();
      var window := reader.value.FillBuf();
      assert q.Abs() == mid;
      r := Some(window);
    }

    /** `consume`; false when it must wait. */
    method Consume(ghost q: ReadQueue, ghost i: nat, amt: nat) returns (done: bool)
      requires In(q, i) && Usable() && q.reader.Valid() && amt <= |q.reader.Rest()|
      modifies this, q.Channels(), q.reader
      ensures In(q, i) && Usable() && q.reader.Valid()
      ensures done <==> !MustWait(old(q.Abs()), i)
      ensures !done ==> q.Abs() == old(q.Abs()) && inner == old(inner)
      ensures done ==> Step(AfterReceive(old(q.Abs()), i), P.Consume(i, amt), q.Abs())
    {
      hide P.Inv, P.Apply, P.Enabled, Step, AfterReceive, MustWait;
      var reader := Receive(q, i);
      if reader == None {
        Stays(old(q.Abs()), i);
        return false;
      }
      ghost var mid := q.Abs();
      ghost var from := q.reader.pos;
      reader.value.Consume(amt);
      assert q.Abs().(pos := from) == mid;
      Record(q, i, from);
      done := true;
    }

    /** `self.reader.take()`. */
    method BeginDrop(ghost q: ReadQueue, ghost i: nat)
      requires In(q, i) && Usable()
      modifies this
      ensures In(q, i) && Phase() == if old(Phase()).Waiting? then P.Closing else P.Passing
      ensures Step(old(q.Abs()), P.BeginDrop(i), q.Abs()) && q.Abs().phases == old(q.Abs()).phases[i := Phase()]
    {
      hide P.Inv;
      ghost var before := q.Abs();
      Shape(q, i);
      P.InvStep(before, P.BeginDrop(i));
      ghost var after := P.Apply(before, P.BeginDrop(i));
      assert after == before.(phases := before.phases[i := if before.phases[i].Waiting? then P.Closing else P.Passing]);
      hide P.Apply, P.Enabled;
      inner := Some(if inner.value.Current? then Passing(inner.value.reader) else Closing(inner.value.rx));
      assert q.Abs().phases == after.phases;
      assert q.Abs().full == after.full;
      assert q.Abs().took == after.took;
    }

    /** The `recv` of a drop that waits; false when it must go on waiting. */
    method ReceiveInDrop(ghost q: ReadQueue, ghost i: nat) returns (ok: bool)
      requires In(q, i) && Phase().Closing?
      modifies this, q.Channels()
      ensures In(q, i) && (ok <==> !MustWait(old(q.Abs()), i))
      ensures if ok then Phase().Passing? && Step(old(q.Abs()), P.ReceiveInDrop(i), q.Abs())
              else inner == old(inner) && q.Abs() == old(q.Abs())
      ensures q.Abs().phases == old(q.Abs()).phases[i := Phase()]
    {
      hide P.Inv;
      ghost var before := q.Abs();
      Shape(q, i);
      var rx := inner.value.rx;
      var got := rx.slot;
      if got == None {
        return false;
      }
      P.InvStep(before, P.ReceiveInDrop(i));
      ghost var after := P.Apply(before, P.ReceiveInDrop(i));
      assert after == before.(phases := before.phases[i := P.Passing], full := before.full[i - 1 := false]);
      hide P.Apply, P.Enabled;
      rx.slot := None;
      inner := Some(Passing(got.value));
      assert q.Abs().phases == after.phases;
      assert q.Abs().full == after.full;
      assert q.Abs().took == after.took;
      ok := true;
    }

    /** The `send` that ends a drop; it fails when the receiving end is gone. */
    method Send(ghost q: ReadQueue, ghost i: nat)
      requires In(q, i) && Phase().Passing?
      modifies this, q.Channels()
      ensures In(q, i) && inner == None
      ensures Step(old(q.Abs()), P.Send(i), q.Abs()) && q.Abs().phases == old(q.Abs()).phases[i := Phase()]
    {
      hide P.Inv;
      ghost var before := q.Abs();
      Shape(q, i);
      LiveChannelIsEmpty(before, i);
      P.InvStep(before, P.Send(i));
      ghost var after := P.Apply(before, P.Send(i));
      assert after == before.(phases := before.phases[i := P.Dropped], full := before.full[i := next.open]);
      hide P.Apply, P.Enabled;
      var reader := inner.value.reader;
      inner := None;
      if next.open {
        next.slot := Some(reader);
      }
      assert q.Abs().phases == after.phases;
      assert q.Abs().full == after.full;
      assert q.Abs().took == after.took;
    }

    /** `Drop`: the reader goes on to the next handle, also when it must first be waited for. */
    method Drop(ghost q: ReadQueue, ghost i: nat) returns (done: bool)
      requires In(q, i)
      modifies this, q.Channels()
      ensures In(q, i) && (done <==> !MustWait(old(q.Abs()), i))
      ensures Phase() == if done then P.Dropped else P.Closing
      ensures P.WellShaped(old(q.Abs())) && P.Run(old(q.Abs()), DropSteps(old(Phase()), done, i)) == Some(q.Abs())
      ensures q.Abs().phases == old(q.Abs()).phases[i := Phase()]
    {
      hide P.Inv, P.Run, P.Apply, P.Enabled;
      ghost var s, phase := q.Abs(), Phase();
      Shape(q, i);
      if inner == None {
        RunNone(s);
        return true;
      }
      if inner.value.Current? || inner.value.Waiting? {
        BeginDrop(q, i);
      }
      ghost var a := q.Abs();
      if inner.value.Closing? {
        done := ReceiveInDrop(q, i);
        if !done {
          DropWaits(s, phase, a, i);
          return;
        }
      }
      ghost var b := q.Abs();
      Send(q, i);
      done := true;
      DropEnds(s, phase, a, b, q.Abs(), i);
    }
  }

  datatype QueueState = Head(reader: ByteStream) | Next(rx: Channel) | Gone

  class ReadQueue {
    var state: QueueState
    ghost const reader: ByteStream
    ghost var handles: seq<QueuedReader>   // every handle ever enqueued ...
    ghost var channels: seq<Channel>       // ... and the channel it sends on

    ghost function Channels(): set<Channel>
      reads this
    {
      set c | c in channels
    }

    /** The objects that link the handles, without the reader itself. */
    ghost function Links(): set<object>
      reads this
    {
      {this} + (set h: QueuedReader | h in handles) + Channels()
    }

    ghost function Repr(): set<object>
      reads this
    {
      {reader} + Links()
    }

    ghost function TailOf(): P.Tail
      reads this
    {
      match state
      case Head(_) => P.Head
      case Next(_) => P.Next
      case Gone => P.Gone
    }

    ghost function Phases(): seq<P.Phase>
      reads Links()
    {
      seq(|handles|, i requires 0 <= i < |handles| reads Links() => handles[i].Phase())
    }

    ghost function Full(): seq<bool>
      reads Links()
    {
      seq(|channels|, i requires 0 <= i < |channels| reads Links() => channels[i].slot.Some?)
    }

    ghost function Took(): seq<bytes>
      reads Links()
    {
      seq(|handles|, i requires 0 <= i < |handles| reads Links() => handles[i].took)
    }

    /** The protocol state that the objects stand for. */
    ghost function Abs(): P.State
      reads Repr()
    {
      P.State(reader.data, reader.pos, TailOf(), Phases(), Full(), Took())
    }

    /** How handles, channels and queue are linked. */
    ghost predicate Wired()
      reads Links()
    {
      && |handles| == |channels|
      && (forall i {:trigger handles[i]} :: 0 <= i < |handles| ==>
            && handles[i].index == i && handles[i].next == channels[i]
            && handles[i].Linked(reader, Before(channels, i), i == |handles| - 1 && state.Gone?))
      && (forall i {:trigger channels[i]} :: 0 <= i < |channels| ==>
            channels[i].index == i && (channels[i].slot.Some? ==> channels[i].slot.value == reader))
      && (state.Head? ==> state.reader == reader)
      && (state.Next? ==> |channels| > 0 && state.rx == channels[|channels| - 1] && state.rx.open)
    }

    ghost predicate Valid()
      reads Repr()
    {
      Wired() && P.Inv(Abs())
    }

    /** `ReadQueue::new`. */
    constructor (reader: ByteStream)
      requires reader.pos == 0
      ensures Valid() && Repr() == {this, reader} && this.reader == reader && handles == [] && channels == []
      ensures Abs() == P.Init(reader.data)
    {
      state := Head(reader);
      this.reader, handles, channels := reader, [], [];
    }

    lemma AbsIs(t: P.State)
      requires |handles| == |channels| == |t.phases| == |t.full| == |t.took|
      requires t.data == reader.data && t.pos == reader.pos && t.tail == TailOf()
      requires forall i {:trigger handles[i]} :: 0 <= i < |handles| ==>
                 handles[i].Phase() == t.phases[i] && handles[i].took == t.took[i]
      requires forall i {:trigger channels[i]} :: 0 <= i < |channels| ==> channels[i].slot.Some? == t.full[i]
      ensures Abs() == t
    {
    }

    method Enqueue() returns (h: QueuedReader)
      requires Valid() && !state.Gone?
      modifies this
      ensures Valid() && fresh(h) && fresh(h.next)
      ensures handles == old(handles) + [h] && channels == old(channels) + [h.next]
      ensures Step(old(Abs()), P.Enqueue, Abs()) && h.Usable()
    {
      hide P.Inv;
      ghost var before := Abs();
      ghost var hs, cs := handles, channels;
      P.InvAfterEnqueue(before);
      EnqueueKeepsHeads(before);
      ghost var after := P.Apply(before, P.Enqueue);
      assert after == before.(tail := P.Next, phases := before.phases + [if before.tail.Head? then P.Current else P.Waiting],
                            full := before.full + [false], took := before.took + [[]]);
      hide P.Apply, P.Enabled;
      var channel := new Channel(|handles|);
      var inner := if state.Head? then Current(state.reader) else Waiting(state.rx);
      h := new QueuedReader(inner, channel, |handles|);
      state := Next(channel);
      handles, channels := handles + [h], channels + [channel];
      assert h.Linked(reader, Before(channels, |hs|), false);
      hide QueuedReader.Linked;
      forall i {:trigger handles[i]} | 0 <= i < |handles|
        ensures handles[i].index == i && handles[i].next == channels[i]
        ensures handles[i].Linked(reader, Before(channels, i), false)
        ensures handles[i].Phase() == after.phases[i] && handles[i].took == after.took[i]
      {
        if i < |hs| {
          assert handles[i] == hs[i] && channels[i] == cs[i] && Before(channels, i) == Before(cs, i);
          assert old(hs[i].Linked(reader, Before(cs, i), false));
        }
      }
      forall i {:trigger channels[i]} | 0 <= i < |channels|
        ensures channels[i].index == i && (channels[i].slot.Some? ==> channels[i].slot.value == reader)
        ensures channels[i].slot.Some? == after.full[i]
      {
        if i < |hs| { assert channels[i] == cs[i]; }
      }
      hide Phases, Full, Took;
      AbsIs(after);
    }

    /** Dropping the queue, and with it the receiving end it holds. */
    method DropQueue()
      requires Valid() && !state.Gone?
      modifies this, Channels()
      ensures Valid() && state.Gone? && handles == old(handles) && channels == old(channels)
      ensures Step(old(Abs()), P.DropTail, Abs())
    {
      hide P.Inv;
      ghost var before := Abs();
      EnqueueKeepsHeads(before);
      P.InvStep(before, P.DropTail);
      ghost var after := P.Apply(before, P.DropTail);
      assert after == before.(tail := P.Gone, full := if before.full == [] then [] else before.full[|before.full| - 1 := false]);
      hide P.Apply, P.Enabled;
      if state.Next? {
        state.rx.slot := None;
        state.rx.open := false;
      }
      state := Gone;
      assert Abs().phases == after.phases;
      assert Abs().full == after.full;
      assert Abs().took == after.took;
    }
  }

  // ----- about the protocol -----

  lemma InvShape(s: P.State)
    requires P.Inv(s)
    ensures P.WellShaped(s)
  {
  }

  lemma LiveChannelIsEmpty(s: P.State, i: nat)
    requires P.Inv(s) && i < |s.phases| && !s.phases[i].Dropped?
    ensures P.WellShaped(s) && !s.full[i]
  {
  }

  lemma Stays(s: P.State, i: nat)
    ensures MustWait(s, i) ==> AfterReceive(s, i) == s
  {
  }

  lemma RunNone(s: P.State)
    requires P.WellShaped(s)
    ensures P.Run(s, []) == Some(s)
  {
  }

  lemma RunMore(s: P.State, a: P.Action, acts: seq<P.Action>)
    requires P.WellShaped(s) && P.Enabled(s, a)
    ensures P.Run(s, [a] + acts) == P.Run(P.Apply(s, a), acts)
  {
    assert ([a] + acts)[1..] == acts;
  }

  lemma RunStep(s: P.State, a: P.Action, t: P.State, acts: seq<P.Action>)
    requires Step(s, a, t)
    ensures P.WellShaped(t) && P.Run(s, [a] + acts) == P.Run(t, acts)
  {
    RunMore(s, a, acts);
  }

  /** A drop that blocks: from `s`, perhaps with a first step, to `a`. */
  lemma DropWaits(s: P.State, phase: P.Phase, a: P.State, i: nat)
    requires P.WellShaped(s) && (phase.Waiting? || phase.Closing?)
    requires if phase.Waiting? then Step(s, P.BeginDrop(i), a) else a == s
    ensures P.Run(s, DropSteps(phase, false, i)) == Some(a)
  {
    hide P.Run, Step;
    if phase.Waiting? {
      RunStep(s, P.BeginDrop(i), a, []);
    }
    RunNone(a);
  }

  /** A drop that ends: from `s`, perhaps with a first step, to `a`, from there to `b` when it had to
      receive, and to `t`. */
  lemma DropEnds(s: P.State, phase: P.Phase, a: P.State, b: P.State, t: P.State, i: nat)
    requires P.WellShaped(s) && !phase.Dropped?
    requires if phase.Waiting? || phase.Current? then Step(s, P.BeginDrop(i), a) else a == s
    requires if P.Lacking(phase) then Step(a, P.ReceiveInDrop(i), b) else b == a
    requires Step(b, P.Send(i), t)
    ensures P.Run(s, DropSteps(phase, true, i)) == Some(t)
  {
    hide P.Run, Step;
    RunStep(b, P.Send(i), t, []);
    RunNone(t);
    assert [P.Send(i)] + [] == [P.Send(i)];
    var more := if P.Lacking(phase) then [P.ReceiveInDrop(i), P.Send(i)] else [P.Send(i)];
    if P.Lacking(phase) {
      RunStep(a, P.ReceiveInDrop(i), b, [P.Send(i)]);
      assert [P.ReceiveInDrop(i)] + [P.Send(i)] == more;
    }
    if phase.Waiting? || phase.Current? {
      RunStep(s, P.BeginDrop(i), a, more);
      assert [P.BeginDrop(i)] + more == DropSteps(phase, true, i);
    }
  }

  lemma EnqueueKeepsHeads(s: P.State)
    requires P.Inv(s)
    ensures P.WellShaped(s) && (s.tail.Head? ==> |s.phases| == 0)
  {
  }
}
