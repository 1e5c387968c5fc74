/** The token-passing protocol of `src/read_queue.rs`, as a transition system over all interleavings.

    Handle `i` is the i-th `QueuedReader` ever enqueued. It sends on channel `i` and, unless it was
    created from the queue's head, receives from channel `i - 1`. The reader itself is the token. */
module QueueProtocol {
  import opened Bytes

  /** `Closing` and `Passing` are the two points of `drop` at which another thread may run: blocked
      in `recv` with the receiver taken, and holding the reader just before `send`. */
  datatype Phase = Waiting | Current | Closing | Passing | Dropped

  datatype Tail = Head | Next | Gone

  datatype State = State(
    data: bytes,           // what the underlying reader will ever deliver
    pos: nat,              // how much of it was consumed
    tail: Tail,            // the ReadQueue
    phases: seq<Phase>,    // the handles, in enqueue order
    full: seq<bool>,       // full[i]: channel i holds the reader
    took: seq<bytes>)      // took[i]: what was consumed through handle i

  datatype Action =
    | Enqueue
    | Receive(i: nat)          // a read, fill_buf or consume of a waiting handle gets the reader
    | Consume(i: nat, k: nat)
    | BeginDrop(i: nat)
    | ReceiveInDrop(i: nat)
    | Send(i: nat)
    | DropTail

  function Init(data: bytes): State { State(data, 0, Head, [], [], []) }

  predicate WellShaped(s: State)
  {
    |s.phases| == |s.full| == |s.took| && s.pos <= |s.data|
  }

  predicate Arrived(s: State, i: nat)
    requires WellShaped(s) && i < |s.phases|
  {
    i > 0 && s.full[i - 1]
  }

  predicate Enabled(s: State, a: Action)
    requires WellShaped(s)
  {
    match a
    case Enqueue => !s.tail.Gone?
    case Receive(i) => i < |s.phases| && s.phases[i].Waiting? && Arrived(s, i)
    case Consume(i, k) => i < |s.phases| && s.phases[i].Current? && s.pos + k <= |s.data|
    case BeginDrop(i) => i < |s.phases| && (s.phases[i].Waiting? || s.phases[i].Current?)
    case ReceiveInDrop(i) => i < |s.phases| && s.phases[i].Closing? && Arrived(s, i)
    case Send(i) => i < |s.phases| && s.phases[i].Passing?
    case DropTail => !s.tail.Gone?
  }

  function Apply(s: State, a: Action): (t: State)
    requires WellShaped(s) && Enabled(s, a)
    ensures WellShaped(t)
  {
    match a
    case Enqueue =>
      s.(tail := Next,
         phases := s.phases + [if s.tail.Head? then Current else Waiting],
         full := s.full + [false],
         took := s.took + [[]])
    case Receive(i) => s.(phases := s.phases[i := Current], full := s.full[i - 1 := false])
    case Consume(i, k) =>
      s.(pos := s.pos + k, took := s.took[i := s.took[i] + s.data[s.pos..s.pos + k]])
    case BeginDrop(i) =>
      s.(phases := s.phases[i := if s.phases[i].Waiting? then Closing else Passing])
    case ReceiveInDrop(i) => s.(phases := s.phases[i := Passing], full := s.full[i - 1 := false])
    case Send(i) =>
      // the send fails, and the reader is destroyed, when the receiving queue is gone
      s.(phases := s.phases[i := Dropped],
         full := s.full[i := !(i == |s.phases| - 1 && s.tail.Gone?)])
    case DropTail =>
      s.(tail := Gone,
         full := if s.full == [] then [] else s.full[|s.full| - 1 := false])
  }

  /** The state after a list of actions, or None when one of them is not enabled. */
  function Run(s: State, acts: seq<Action>): Option<State>
    requires WellShaped(s)
    decreases acts
  {
    if acts == [] then Some(s)
    else if Enabled(s, acts[0]) then Run(Apply(s, acts[0]), acts[1..])
    else None
  }

  // ----- the invariant -----

  /** How many handles, counted from the oldest, are gone. */
  function Front(phases: seq<Phase>): (f: nat)
    ensures f <= |phases|
    ensures forall j :: 0 <= j < f ==> phases[j].Dropped?
    ensures f < |phases| ==> !phases[f].Dropped?
  {
    if phases == [] || !phases[0].Dropped? then 0 else 1 + Front(phases[1..])
  }

  predicate Lacking(p: Phase) { p.Waiting? || p.Closing? }

  predicate Holding(p: Phase) { p.Current? || p.Passing? }

  /** Only the oldest live handle `f`, the channel into it, or the tail can hold the reader. */
  predicate TokenAt(s: State, f: nat)
    requires WellShaped(s)
  {
    && var n := |s.phases|;
    && f <= n
    && (s.tail.Head? ==> n == 0)
    && (s.tail.Next? ==> n > 0)
    && (n > 0 ==> !Lacking(s.phases[0]))
    && (forall j :: 0 <= j < f ==> s.phases[j].Dropped?)
    && (f < n ==> !s.phases[f].Dropped?)
    && (forall j :: f < j < n ==> Lacking(s.phases[j]))
    && (forall j :: 0 <= j < n ==>
          (s.full[j] <==> j + 1 == f && (if f < n then Lacking(s.phases[f]) else s.tail.Next?)))
  }

  /** Nothing was read through a handle that never had the reader. */
  predicate Sliced(s: State)
    requires WellShaped(s)
  {
    && (forall j :: Front(s.phases) <= j < |s.phases| && Lacking(s.phases[j]) ==> s.took[j] == [])
    && Concat(s.took) == s.data[..s.pos]
  }

  predicate Inv(s: State)
  {
    WellShaped(s) && TokenAt(s, Front(s.phases)) && Sliced(s)
  }

  lemma {:induction false} ConcatTail(parts: seq<bytes>, i: nat, more: bytes)
    requires i < |parts|
    requires forall j :: i < j < |parts| ==> parts[j] == []
    ensures Concat(parts[i := parts[i] + more]) == Concat(parts) + more
  {
    if i == 0 {
      ConcatEmpty(parts[1..]);
      assert parts[0 := parts[0] + more][1..] == parts[1..];
    } else {
      ConcatTail(parts[1..], i - 1, more);
      assert parts[i := parts[i] + more][1..] == parts[1..][i - 1 := parts[i] + more];
    }
  }

  lemma {:induction false} ConcatEmpty(parts: seq<bytes>)
    requires forall j :: 0 <= j < |parts| ==> parts[j] == []
    ensures Concat(parts) == []
  {
    if parts != [] { ConcatEmpty(parts[1..]); }
  }

  lemma {:induction false} FrontIs(phases: seq<Phase>, f: nat)
    requires f <= |phases|
    requires forall j :: 0 <= j < f ==> phases[j].Dropped?
    requires f < |phases| ==> !phases[f].Dropped?
    ensures Front(phases) == f
  {
    if f > 0 { FrontIs(phases[1..], f - 1); }
  }

  lemma InvAfterReceive(s: State, a: Action)
    requires Inv(s) && Enabled(s, a) && (a.Receive? || a.ReceiveInDrop?)
    ensures Inv(Apply(s, a))
  {
    var t := Apply(s, a);
    assert TokenAt(t, Front(s.phases));
    FrontIs(t.phases, Front(s.phases));
  }

  lemma InvAfterEnqueue(s: State)
    requires Inv(s) && Enabled(s, Enqueue)
    ensures Inv(Apply(s, Enqueue))
  {
    var t := Apply(s, Enqueue);
    assert TokenAt(t, Front(s.phases));
    FrontIs(t.phases, Front(s.phases));
    ConcatAppend(s.took, [[]]);
  }

  lemma InvAfterConsume(s: State, i: nat, k: nat)
    requires Inv(s) && Enabled(s, Consume(i, k))
    ensures Inv(Apply(s, Consume(i, k)))
  {
    assert i == Front(s.phases);
    ConcatTail(s.took, i, s.data[s.pos..s.pos + k]);
  }

  lemma InvAfterDrop(s: State, a: Action)
    requires Inv(s) && Enabled(s, a) && (a.BeginDrop? || a.Send?)
    ensures Inv(Apply(s, a))
  {
    var t, f := Apply(s, a), Front(s.phases);
    var g := if a.Send? then f + 1 else f;
    assert a.Send? ==> a.i == f;
    assert TokenAt(t, g);
    FrontIs(t.phases, g);
  }

  lemma InvStep(s: State, a: Action)
    requires Inv(s) && Enabled(s, a)
    ensures Inv(Apply(s, a))
  {
    match a
    case Enqueue => InvAfterEnqueue(s);
    case Receive(_) => InvAfterReceive(s, a);
    case Consume(i, k) => InvAfterConsume(s, i, k);
    case BeginDrop(_) => InvAfterDrop(s, a);
    case ReceiveInDrop(_) => InvAfterReceive(s, a);
    case Send(_) => InvAfterDrop(s, a);
    case DropTail => assert TokenAt(Apply(s, a), Front(s.phases));
  }

  lemma {:induction false} InvRunFrom(s: State, acts: seq<Action>)
    requires Inv(s)
    ensures Run(s, acts).Some? ==> Inv(Run(s, acts).value)
    decreases acts
  {
    if acts != [] && Enabled(s, acts[0]) {
      InvStep(s, acts[0]);
      InvRunFrom(Apply(s, acts[0]), acts[1..]);
    }
  }

  /** `s` is the state after some interleaving of any number of threads. */
  ghost predicate Reachable(s: State)
  {
    exists acts :: Run(Init(s.data), acts) == Some(s)
  }

  lemma ReachableInv(s: State)
    requires Reachable(s)
    ensures Inv(s)
  {
    var acts :| Run(Init(s.data), acts) == Some(s);
    InvRunFrom(Init(s.data), acts);
  }

  // ----- safety -----

  /** The bytes consumed through the handles, in enqueue order, are the consumed prefix of the
      stream; and a handle that holds the reader has only dropped handles before it. */
  lemma FifoSlicing(s: State, i: nat)
    requires Reachable(s)
    ensures WellShaped(s) && Concat(s.took) == s.data[..s.pos]
    ensures i < |s.phases| && Holding(s.phases[i]) ==> forall j :: 0 <= j < i ==> s.phases[j].Dropped?
  {
    ReachableInv(s);
  }

  datatype Place = AtTail | AtHandle(i: nat) | InChannel(i: nat)

  ghost function Places(s: State): set<Place>
    requires WellShaped(s)
  {
    (if s.tail.Head? then {AtTail} else {})
    + (set i: nat | i < |s.phases| && Holding(s.phases[i]) :: AtHandle(i))
    + (set i: nat | i < |s.full| && s.full[i] :: InChannel(i))
  }

  /** The reader is in exactly one place until the queue and every handle are gone, and then in
      none. */
  lemma TokenConservation(s: State)
    requires Reachable(s)
    ensures WellShaped(s)
    ensures |Places(s)| == if s.tail.Gone? && Front(s.phases) == |s.phases| then 0 else 1
  {
    ReachableInv(s);
    ThePlace(s);
  }

  /** Where the reader is. */
  ghost function PlaceOf(s: State): set<Place>
    requires WellShaped(s)
  {
    var n, f := |s.phases|, Front(s.phases);
    if f < n then if Holding(s.phases[f]) then {AtHandle(f)} else if f > 0 then {InChannel(f - 1)} else {}
    else if s.tail.Gone? then {}
    else if n == 0 then {AtTail}
    else {InChannel(n - 1)}
  }

  lemma ThePlace(s: State)
    requires Inv(s)
    ensures Places(s) == PlaceOf(s)
    ensures |PlaceOf(s)| == if s.tail.Gone? && Front(s.phases) == |s.phases| then 0 else 1
  {
    HoldersAndChannels(s, Front(s.phases));
    hide Front, Sliced, TokenAt;
    forall p
      ensures p in Places(s) <==> p in PlaceOf(s)
    {
      match p
      case AtTail =>
      case AtHandle(i) =>
      case InChannel(i) =>
    }
  }

  lemma HoldersAndChannels(s: State, f: nat)
    requires WellShaped(s) && TokenAt(s, f)
    ensures forall i :: 0 <= i < |s.phases| ==> (Holding(s.phases[i]) <==> i == f && Holding(s.phases[f]))
    ensures forall i :: 0 <= i < |s.phases| ==>
              (s.full[i] <==> i + 1 == f && if f < |s.phases| then !Holding(s.phases[f]) else s.tail.Next?)
    ensures s.tail.Head? ==> |s.phases| == 0
    ensures s.tail.Next? ==> |s.phases| > 0
    ensures f < |s.phases| && !Holding(s.phases[f]) ==> f > 0
  {
  }

  /** A handle without the reader finds it in its channel, or the channel's sender still lives: no
      `recv` fails, so none of the three `recv().unwrap()` panics. */
  lemma ReceiveNeverFails(s: State, i: nat)
    requires Reachable(s) && i < |s.phases| && Lacking(s.phases[i])
    ensures i > 0 && |s.full| == |s.phases|
    ensures s.full[i - 1] || !s.phases[i - 1].Dropped?
  {
    ReachableInv(s);
  }

  /** Dropping the last handle and the queue, as `serve` does before it invokes an upgrade handler,
      leaves the reader nowhere, and no handle alive. */
  lemma ExclusiveUpgrade(s: State)
    requires Reachable(s) && s.tail.Gone?
    requires |s.phases| > 0 && s.phases[|s.phases| - 1].Dropped?
    ensures forall j :: 0 <= j < |s.phases| ==> s.phases[j].Dropped?
    ensures WellShaped(s) && Places(s) == {}
  {
    ReachableInv(s);
    NowhereAtTheEnd(s);
  }

  lemma NowhereAtTheEnd(s: State)
    requires Inv(s) && s.tail.Gone?
    requires |s.phases| > 0 && s.phases[|s.phases| - 1].Dropped?
    ensures forall j :: 0 <= j < |s.phases| ==> s.phases[j].Dropped?
    ensures WellShaped(s) && Places(s) == {}
  {
    assert Front(s.phases) == |s.phases|;
  }

  // ----- liveness -----

  ghost predicate Blocked(s: State, i: nat)
    requires WellShaped(s)
  {
    i < |s.phases| && Lacking(s.phases[i]) && !Arrived(s, i)
  }

  /** The oldest live handle can read, or drop, without waiting. */
  lemma OldestCanMove(s: State)
    requires Reachable(s) && Front(s.phases) < |s.phases|
    ensures WellShaped(s)
    ensures var f := Front(s.phases);
            match s.phases[f]
            case Waiting => Enabled(s, Receive(f)) && Enabled(Apply(s, BeginDrop(f)), ReceiveInDrop(f))
            case Current => forall k: nat :: s.pos + k <= |s.data| ==> Enabled(s, Consume(f, k))
            case Closing => Enabled(s, ReceiveInDrop(f))
            case Passing => Enabled(s, Send(f))
            case Dropped => false
  {
    ReachableInv(s);
    var f := Front(s.phases);
    assert Lacking(s.phases[f]) ==> s.full[f - 1];
  }

  /** A blocked handle waits for its immediate predecessor, which is alive. Indices fall along the
      wait-for relation, so it has no cycle. */
  lemma WaitsForPredecessor(s: State, i: nat)
    requires Reachable(s) && WellShaped(s) && Blocked(s, i)
    ensures i > 0 && !s.phases[i - 1].Dropped?
    ensures i - 1 > Front(s.phases) ==> Blocked(s, i - 1)
    ensures i - 1 >= Front(s.phases)
  {
    ReachableInv(s);
  }

  /** The steps by which threads that only drop their handles make progress. */
  predicate IsDropStep(a: Action)
  {
    a.Receive? || a.BeginDrop? || a.ReceiveInDrop? || a.Send?
  }

  function StepsLeft(p: Phase): nat
  {
    match p
    case Waiting => 3
    case Current => 2
    case Closing => 2
    case Passing => 1
    case Dropped => 0
  }

  function Work(phases: seq<Phase>): (w: nat)
    ensures w <= 3 * |phases|
    ensures w == 0 <==> forall j :: 0 <= j < |phases| ==> phases[j].Dropped?
  {
    if phases == [] then 0 else StepsLeft(phases[0]) + Work(phases[1..])
  }

  lemma {:induction false} WorkUpdate(phases: seq<Phase>, i: nat, p: Phase)
    requires i < |phases|
    ensures Work(phases[i := p]) == Work(phases) - StepsLeft(phases[i]) + StepsLeft(p)
  {
    if i == 0 {
      assert phases[0 := p][1..] == phases[1..];
    } else {
      assert phases[i := p][1..] == phases[1..][i - 1 := p];
      WorkUpdate(phases[1..], i - 1, p);
    }
  }

  lemma DropStepWork(s: State, a: Action)
    requires WellShaped(s) && Enabled(s, a) && IsDropStep(a)
    ensures Work(Apply(s, a).phases) == Work(s.phases) - 1
  {
    var p := Apply(s, a).phases[a.i];
    assert Apply(s, a).phases == s.phases[a.i := p];
    WorkUpdate(s.phases, a.i, p);
  }

  lemma {:induction false} DropStepsCount(s: State, drops: seq<Action>)
    requires Inv(s) && Run(s, drops).Some?
    requires forall k :: 0 <= k < |drops| ==> IsDropStep(drops[k])
    ensures |drops| + Work(Run(s, drops).value.phases) == Work(s.phases)
    decreases drops
  {
    if drops != [] {
      assert IsDropStep(drops[0]);
      InvStep(s, drops[0]);
      DropStepWork(s, drops[0]);
      DropStepsCount(Apply(s, drops[0]), drops[1..]);
    }
  }

  /** However the threads that drop the handles interleave, they take exactly `Work` steps in all,
      at most three a handle, and can stop only when every handle is dropped. */
  lemma DropsTerminate(s: State, drops: seq<Action>)
    requires Reachable(s) && WellShaped(s) && Run(s, drops).Some?
    requires forall k :: 0 <= k < |drops| ==> IsDropStep(drops[k])
    ensures |drops| + Work(Run(s, drops).value.phases) == Work(s.phases) <= 3 * |s.phases|
    ensures var t := Run(s, drops).value;
            WellShaped(t) &&
            ((forall a :: IsDropStep(a) ==> !Enabled(t, a)) <==> forall j :: 0 <= j < |t.phases| ==> t.phases[j].Dropped?)
  {
    hide Inv, Front, Enabled, Apply;
    ReachableInv(s);
    DropStepsCount(s, drops);
    InvRunFrom(s, drops);
    NotStuck(Run(s, drops).value);
  }

  /** Some drop step is enabled while a handle is left. */
  lemma NotStuck(t: State)
    requires Inv(t)
    ensures WellShaped(t)
    ensures (forall a :: IsDropStep(a) ==> !Enabled(t, a)) <==> forall j :: 0 <= j < |t.phases| ==> t.phases[j].Dropped?
  {
    var f := Front(t.phases);
    if f < |t.phases| {
      assert Lacking(t.phases[f]) ==> t.full[f - 1];
      assert Enabled(t, Receive(f)) || Enabled(t, BeginDrop(f)) || Enabled(t, ReceiveInDrop(f)) || Enabled(t, Send(f));
      assert IsDropStep(Receive(f)) && IsDropStep(BeginDrop(f)) && IsDropStep(ReceiveInDrop(f)) && IsDropStep(Send(f));
    }
  }
}
