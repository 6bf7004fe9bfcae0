/** Readers and writers of one pipe (src/kernel/fs/pipefs/pipefs.c) in any interleaving, with closes, sleeps and spurious
    wakeups. */
module Pipe {

  import opened Kernel
  import opened RingBuffer
  import opened WordBits

  const PIPESZ: int := 0x1000

  /** The number of bytes, -EPIPE, or the error that ended a wait. */
  datatype Result = Count(n: int) | BrokenPipe | WaitError(err: int)

  datatype Phase = Running | Waiting | Done(result: Result)

  /** A call of pipefs_iread or pipefs_iwrite, with what it has moved so far. */
  datatype Call =
    | Reader(want: nat, got: seq<Byte>, phase: Phase)
    | Writer(data: seq<Byte>, sent: nat, phase: Phase)

  // ----- the log of transfers

  /** A byte moved by a call. */
  datatype Event = Event(call: int, byte: Byte)

  ghost function Stream(log: seq<Event>): seq<Byte> {
    seq(|log|, i requires 0 <= i < |log| => log[i].byte)
  }

  ghost function Tagged(call: int, bytes: seq<Byte>): seq<Event> {
    seq(|bytes|, i requires 0 <= i < |bytes| => Event(call, bytes[i]))
  }

  /** The bytes that one call moved, in order. */
  ghost function Part(log: seq<Event>, call: int): seq<Byte> {
    if log == [] then [] else
    var n := |log| - 1;
    if log[n].call == call then Part(log[..n], call) + [log[n].byte] else Part(log[..n], call)
  }

  lemma PartOne(log: seq<Event>, e: Event, c: int)
    ensures Part(log + [e], c) == if e.call == c then Part(log, c) + [e.byte] else Part(log, c)
  {
    assert (log + [e])[..|log|] == log;
  }

  lemma {:induction false} PartTagged(log: seq<Event>, call: int, bytes: seq<Byte>, c: int)
    ensures Part(log + Tagged(call, bytes), c) == if c == call then Part(log, c) + bytes else Part(log, c)
    decreases |bytes|
  {
    if bytes == [] {
      assert log + Tagged(call, bytes) == log;
    } else {
      var n := |bytes| - 1;
      var init := log + Tagged(call, bytes[..n]);
      assert log + Tagged(call, bytes) == init + [Event(call, bytes[n])];
      PartTagged(log, call, bytes[..n], c);
      PartOne(init, Event(call, bytes[n]), c);
      assert Part(log, c) + bytes[..n] + [bytes[n]] == Part(log, c) + bytes;
    }
  }

  lemma StreamTagged(log: seq<Event>, call: int, bytes: seq<Byte>)
    ensures Stream(log + Tagged(call, bytes)) == Stream(log) + bytes
  {
  }

  /** Bytes join the end of the ring, or leave its front. */
  lemma StreamMoved(put: seq<Event>, taken: seq<Event>, id: int, bytes: seq<Byte>, rest: seq<Byte>)
    ensures Stream(put) == Stream(taken) + rest ==> Stream(put + Tagged(id, bytes)) == Stream(taken) + (rest + bytes)
    ensures Stream(put) == Stream(taken) + (bytes + rest) ==> Stream(put) == Stream(taken + Tagged(id, bytes)) + rest
  {
    StreamTagged(put, id, bytes);
    StreamTagged(taken, id, bytes);
    assert (Stream(taken) + rest) + bytes == Stream(taken) + (rest + bytes);
    assert (Stream(taken) + bytes) + rest == Stream(taken) + (bytes + rest);
  }

  /** What a call knows agrees with the log. */
  ghost predicate CallOk(put: seq<Event>, taken: seq<Event>, id: int, c: Call) {
    match c
    case Reader(want, got, phase) =>
      && Part(taken, id) == got && Part(put, id) == [] && |got| <= want
      && (phase.Done? && phase.result.Count? ==> phase.result.n == |got|)
      && (phase == Done(BrokenPipe) ==> got == [])
    case Writer(data, sent, phase) =>
      && sent <= |data| && Part(put, id) == data[..sent] && Part(taken, id) == []
      && (phase.Done? && phase.result.Count? ==> phase.result.n == sent)
      && (phase == Done(BrokenPipe) ==> sent == 0)
  }

  /** Calls that are not there have moved nothing. */
  ghost predicate AllOk(put: seq<Event>, taken: seq<Event>, calls: map<int, Call>) {
    && (forall id | id in calls :: CallOk(put, taken, id, calls[id]))
    && (forall id | id !in calls :: Part(put, id) == [] && Part(taken, id) == [])
  }

  /** One call moves bytes. */
  lemma MovedOk(put: seq<Event>, taken: seq<Event>, calls: map<int, Call>, id: int, bytes: seq<Byte>, c: Call)
    requires AllOk(put, taken, calls) && id in calls
    ensures CallOk(put, taken + Tagged(id, bytes), id, c) ==> AllOk(put, taken + Tagged(id, bytes), calls[id := c])
    ensures CallOk(put + Tagged(id, bytes), taken, id, c) ==> AllOk(put + Tagged(id, bytes), taken, calls[id := c])
  {
    forall other | other != id
      ensures Part(taken + Tagged(id, bytes), other) == Part(taken, other)
      ensures Part(put + Tagged(id, bytes), other) == Part(put, other)
    {
      PartTagged(taken, id, bytes, other);
      PartTagged(put, id, bytes, other);
    }
  }

  /** A writer puts in its next n bytes. */
  lemma GivenOk(put: seq<Event>, taken: seq<Event>, calls: map<int, Call>, id: int, n: nat)
    requires AllOk(put, taken, calls) && id in calls && calls[id].Writer? && calls[id].sent + n <= |calls[id].data|
    ensures var c := calls[id]; var bytes := c.data[c.sent..][..n];
      AllOk(put + Tagged(id, bytes), taken, calls[id := Writer(c.data, c.sent + n, Running)])
  {
    var c := calls[id];
    var bytes := c.data[c.sent..][..n];
    assert CallOk(put, taken, id, c);
    PartTagged(put, id, bytes, id);
    assert c.data[..c.sent] + bytes == c.data[..c.sent + n];
    MovedOk(put, taken, calls, id, bytes, Writer(c.data, c.sent + n, Running));
  }

  /** What can happen next: a call starts, runs one turn of its loop, or is woken (spuriously, or with an error); an end
      is closed. */
  datatype Step =
    | StartRead(id: int, want: nat)
    | StartWrite(id: int, data: seq<Byte>)
    | Turn(id: int)
    | Wake(id: int, err: int)
    | CloseRead
    | CloseWrite

  function Least(a: int, b: int): int {
    if a <= b then a else b
  }

  /** The end of a turn: everything read, the read end closed, nothing buffered, or some bytes moved. */
  ghost function ReadPhase(c: Call, readable: bool, empty: bool): Phase
    requires c.Reader?
  {
    if |c.got| >= c.want || (!readable && c.got != []) then Done(Count(|c.got|))
    else if !readable then Done(BrokenPipe)
    else if empty then Waiting
    else Running
  }

  ghost function WritePhase(c: Call, writable: bool, full: bool): Phase
    requires c.Writer?
  {
    if c.sent >= |c.data| || (!writable && c.sent > 0) then Done(Count(c.sent))
    else if !writable then Done(BrokenPipe)
    else if full then Waiting
    else Running
  }

  // ----- the pipe as a queue

  /** What the calls and the two ends share: the flags, the calls and the bytes on their way. */
  datatype State = State(readable: bool, writable: bool, calls: map<int, Call>, queue: seq<Byte>)

  ghost function WithCall(st: State, id: int, c: Call): State {
    st.(calls := st.calls[id := c])
  }

  /** A transfer: a reader takes what is there, up to what it still wants, and a writer puts in what fits. */
  ghost function Moved(st: State, id: int): State
    requires id in st.calls
  {
    match st.calls[id]
    case Reader(want, got, _) =>
      var k := Least(want - |got|, |st.queue|);
      if 0 <= k <= |st.queue| then WithCall(st, id, Reader(want, got + st.queue[..k], Running)).(queue := st.queue[k..]) else st
    case Writer(data, sent, _) =>
      var k := Least(|data| - sent, PIPESZ - |st.queue|);
      if 0 <= k && sent + k <= |data| then WithCall(st, id, Writer(data, sent + k, Running)).(queue := st.queue + data[sent..][..k])
      else st
  }

  /** What a writer's transfer of n bytes leaves. */
  lemma GivenState(st: State, id: int, n: nat)
    requires id in st.calls && st.calls[id].Writer? && st.calls[id].sent <= |st.calls[id].data| && |st.queue| <= PIPESZ
    requires n == Least(|st.calls[id].data| - st.calls[id].sent, PIPESZ - |st.queue|)
    ensures var c := st.calls[id];
      Moved(st, id) == State(st.readable, st.writable, st.calls[id := Writer(c.data, c.sent + n, Running)],
                             st.queue + c.data[c.sent..][..n])
  {
  }

  /** How a turn of a call that runs ends. */
  ghost function TurnPhase(st: State, c: Call): Phase {
    if c.Reader? then ReadPhase(c, st.readable, st.queue == []) else WritePhase(c, st.writable, |st.queue| == PIPESZ)
  }

  ghost function AfterTurn(st: State, id: int): State
    requires id in st.calls
  {
    var c := st.calls[id];
    var phase := TurnPhase(st, c);
    if phase == Running then Moved(st, id) else WithCall(st, id, c.(phase := phase))
  }

  /** A waiting call that is woken gives up on an error, and otherwise transfers at once, without looking again. */
  ghost function AfterWake(st: State, id: int, err: int): State
    requires id in st.calls
  {
    if err != 0 then WithCall(st, id, st.calls[id].(phase := Done(WaitError(err)))) else Moved(st, id)
  }

  /** Any step; a step that the state does not allow does nothing. */
  ghost function After(st: State, step: Step): State {
    match step
    case StartRead(id, want) => if id in st.calls then st else WithCall(st, id, Reader(want, [], Running))
    case StartWrite(id, data) => if id in st.calls then st else WithCall(st, id, Writer(data, 0, Running))
    case Turn(id) => if id in st.calls && st.calls[id].phase == Running then AfterTurn(st, id) else st
    case Wake(id, err) => if id in st.calls && st.calls[id].phase == Waiting then AfterWake(st, id, err) else st
    case CloseRead => st.(readable := false)
    case CloseWrite => st.(writable := false)
  }

  ghost function AfterAll(st: State, steps: seq<Step>): State {
    if steps == [] then st else After(AfterAll(st, steps[..|steps| - 1]), steps[|steps| - 1])
  }

  // ----- what the queue promises

  /** A running call. */
  predicate Runs(st: State, id: int) {
    id in st.calls && st.calls[id].phase == Running
  }

  /** Once the read end is closed, a reader that still wants bytes ends with those it has, or with EPIPE when it has none;
      writers do not notice. */
  lemma ReadEndCloses(st: State, id: int)
    requires Runs(st, id)
    ensures var st' := After(After(st, CloseRead), Turn(id));
      && (st.calls[id].Reader? && |st.calls[id].got| < st.calls[id].want ==>
        st'.calls[id].phase == Done(if st.calls[id].got == [] then BrokenPipe else Count(|st.calls[id].got|)))
      && (st.calls[id].Writer? ==> st' == After(st, Turn(id)).(readable := false))
  {
  }

  /** Once the write end is closed, a writer that has bytes left ends with those it sent, or with EPIPE when it sent none;
      readers do not notice. */
  lemma WriteEndCloses(st: State, id: int)
    requires Runs(st, id)
    ensures var st' := After(After(st, CloseWrite), Turn(id));
      && (st.calls[id].Writer? && st.calls[id].sent < |st.calls[id].data| ==>
        st'.calls[id].phase == Done(if st.calls[id].sent == 0 then BrokenPipe else Count(st.calls[id].sent)))
      && (st.calls[id].Reader? ==> st' == After(st, Turn(id)).(writable := false))
  {
  }

  /** A reader's turn on an open pipe: it ends when it has all it wants, waits when nothing is there, and otherwise takes
      bytes from the front until it has all or nothing is left. */
  lemma ReaderTurns(st: State, id: int)
    requires Runs(st, id) && st.readable && st.calls[id].Reader?
    ensures var c := st.calls[id]; var st' := After(st, Turn(id)); var c' := st'.calls[id];
      && c'.Reader? && c'.want == c.want
      && (c.want <= |c.got| ==> c'.phase == Done(Count(|c.got|)) && st'.queue == st.queue)
      && (|c.got| < c.want && st.queue == [] ==> c'.phase == Waiting && c'.got == c.got)
      && (|c.got| < c.want && st.queue != [] ==>
        c'.phase == Running && c'.got + st'.queue == c.got + st.queue && (|c'.got| == c.want || st'.queue == []))
  {
  }

  /** A writer's turn on an open pipe: it ends when all is sent, waits when there is no room, and otherwise puts in the next
      bytes until all are sent or there is no room. */
  lemma WriterTurns(st: State, id: int)
    requires Runs(st, id) && st.writable && st.calls[id].Writer? && |st.queue| <= PIPESZ
    ensures var c := st.calls[id]; var st' := After(st, Turn(id)); var c' := st'.calls[id];
      && c'.Writer? && c'.data == c.data
      && (|c.data| <= c.sent ==> c'.phase == Done(Count(c.sent)) && st'.queue == st.queue)
      && (c.sent < |c.data| && |st.queue| == PIPESZ ==> c'.phase == Waiting && c'.sent == c.sent)
      && (c.sent < |c.data| && |st.queue| < PIPESZ ==>
        && c'.phase == Running && c.sent < c'.sent <= |c.data| && st'.queue == st.queue + c.data[c.sent..c'.sent]
        && (c'.sent == |c.data| || |st'.queue| == PIPESZ))
  {
  }

  /** A wait that ends in an error ends the call with it, and starts and closes touch nothing else. */
  lemma OtherSteps(st: State, id: int, want: nat, data: seq<Byte>, err: int)
    ensures id in st.calls && st.calls[id].phase == Waiting && err != 0 ==>
      After(st, Wake(id, err)) == st.(calls := st.calls[id := st.calls[id].(phase := Done(WaitError(err)))])
    ensures id !in st.calls ==> After(st, StartRead(id, want)) == st.(calls := st.calls[id := Reader(want, [], Running)])
    ensures id !in st.calls ==> After(st, StartWrite(id, data)) == st.(calls := st.calls[id := Writer(data, 0, Running)])
    ensures After(st, CloseRead) == State(false, st.writable, st.calls, st.queue)
    ensures After(st, CloseWrite) == State(st.readable, false, st.calls, st.queue)
  {
  }

  class Shared {
    const ring: Ring
    var readable: bool
    var writable: bool
    var calls: map<int, Call>
    ghost var put: seq<Event>
    ghost var taken: seq<Event>

    /** The bytes taken and then those still buffered are the bytes put in, in order. */
    ghost predicate Valid()
      reads this, ring, ring.buf
    {
      && ring.Valid() && ring.buf.Length == PIPESZ
      && Stream(put) == Stream(taken) + ring.contents
      && AllOk(put, taken, calls)
    }

    ghost function Now(): State
      reads this, ring
    {
      State(readable, writable, calls, ring.contents)
    }

    constructor ()
      ensures Valid() && fresh(ring) && fresh(ring.buf) && calls == map[] && put == [] && taken == []
    {
      ring := new Ring(PIPESZ);
      readable, writable, calls, put, taken := true, true, map[], [], [];
    }

    /** The reader takes what is buffered, up to what it still wants. */
    method Take(id: int)
      requires Valid() && id in calls && calls[id].Reader?
      modifies this, ring, ring.buf
      ensures Valid() && put == old(put) && old(taken) <= taken && Now() == Moved(old(Now()), id)
    {
      var c := calls[id];
      assert CallOk(put, taken, id, c);
      var bytes := ring.Read(c.want - |c.got|);
      PartTagged(taken, id, bytes, id);
      StreamMoved(put, taken, id, bytes, ring.contents);
      MovedOk(put, taken, calls, id, bytes, Reader(c.want, c.got + bytes, Running));
      calls := calls[id := Reader(c.want, c.got + bytes, Running)];
      taken := taken + Tagged(id, bytes);
    }

    /** The size of the ring divides 2^64, so that no byte is lost. */
    method Fill(data: seq<Byte>) returns (n: nat)
      requires ring.Valid() && ring.buf.Length == PIPESZ
      modifies ring, ring.buf
      ensures ring.Valid() && n <= |data| && ring.contents == old(ring.contents) + data[..n]
      ensures n == Least(|data|, PIPESZ - |old(ring.contents)|)
    {
      ModIs(WRAP, PIPESZ);
      n := ring.Write(data);
    }

    /** The writer puts in what fits. */
    method Give(id: int)
      requires Valid() && id in calls && calls[id].Writer?
      modifies this, ring, ring.buf
      ensures Valid() && taken == old(taken) && old(put) <= put && Now() == Moved(old(Now()), id)
    {
      var c := calls[id];
      assert CallOk(put, taken, id, c);
      var rest := c.data[c.sent..];
      var n := Fill(rest);
      GivenState(old(Now()), id, n);
      ghost var bytes := rest[..n];
      GivenOk(put, taken, calls, id, n);
      StreamMoved(put, taken, id, bytes, old(ring.contents));
      calls := calls[id := Writer(c.data, c.sent + n, Running)];
      put := put + Tagged(id, bytes);
    }

    /** Another phase for a call, which moves nothing. */
    method SetPhase(id: int, phase: Phase)
      requires Valid() && id in calls && CallOk(put, taken, id, calls[id].(phase := phase))
      modifies `calls
      ensures Valid() && calls == old(calls)[id := old(calls)[id].(phase := phase)]
    {
      calls := calls[id := calls[id].(phase := phase)];
    }

    /** One turn of the loop of pipefs_iread, up to the wait or the transfer. */
    method ReadTurn(id: int)
      requires Valid() && id in calls && calls[id].Reader?
      modifies this, ring, ring.buf
      ensures Valid() && put == old(put) && old(taken) <= taken && Now() == AfterTurn(old(Now()), id)
      ensures var c := old(calls)[id]; |c.got| < c.want && readable && old(ring.contents) != [] ==> |calls[id].got| > |c.got|
    {
      var c := calls[id];
      assert CallOk(put, taken, id, c);
      if |c.got| >= c.want {
        SetPhase(id, Done(Count(|c.got|)));
      } else if !readable {
        SetPhase(id, Done(if |c.got| > 0 then Count(|c.got|) else BrokenPipe));
      } else if ring.count == 0 {
        SetPhase(id, Waiting);
      } else {
        Take(id);
      }
    }

    /** One turn of the loop of pipefs_iwrite, up to the wait or the transfer. */
    method WriteTurn(id: int)
      requires Valid() && id in calls && calls[id].Writer?
      modifies this, ring, ring.buf
      ensures Valid() && taken == old(taken) && old(put) <= put && Now() == AfterTurn(old(Now()), id)
      ensures var c := old(calls)[id];
        c.sent < |c.data| && writable && |old(ring.contents)| < PIPESZ ==> calls[id].sent > c.sent
    {
      var c := calls[id];
      assert CallOk(put, taken, id, c);
      if c.sent >= |c.data| {
        SetPhase(id, Done(Count(c.sent)));
      } else if !writable {
        SetPhase(id, Done(if c.sent > 0 then Count(c.sent) else BrokenPipe));
      } else if ring.count == ring.buf.Length {
        SetPhase(id, Waiting);
      } else {
        Give(id);
      }
    }

    /** A waiting call is woken: it gives up on an error, and otherwise transfers at once, without looking again. */
    method Woken(id: int, err: int)
      requires Valid() && id in calls
      modifies this, ring, ring.buf
      ensures Valid() && old(put) <= put && old(taken) <= taken && Now() == AfterWake(old(Now()), id, err)
    {
      assert CallOk(put, taken, id, calls[id]);
      if err != 0 {
        SetPhase(id, Done(WaitError(err)));
      } else if calls[id].Reader? {
        Take(id);
      } else {
        Give(id);
      }
    }

    /** Any step; a step that the state does not allow does nothing. */
    method Do(step: Step)
      requires Valid()
      modifies this, ring, ring.buf
      ensures Valid() && old(put) <= put && old(taken) <= taken && Now() == After(old(Now()), step)
    {
      match step
      case StartRead(id, want) =>
        if id !in calls {
          calls := calls[id := Reader(want, [], Running)];
        }
      case StartWrite(id, data) =>
        if id !in calls {
          calls := calls[id := Writer(data, 0, Running)];
        }
      case Turn(id) =>
        if id in calls && calls[id].phase == Running {
          if calls[id].Reader? {
            ReadTurn(id);
          } else {
            WriteTurn(id);
          }
        }
      case Wake(id, err) =>
        if id in calls && calls[id].phase == Waiting {
          Woken(id, err);
        }
      case CloseRead => readable := false;
      case CloseWrite => writable := false;
    }

    /** Every interleaving of readers, writers, wakeups and closes is the run of the queue: what was taken and then what
        is buffered is what was put in, in order; each reader holds exactly its share of what was taken, each writer's
        share of what was put in is the front of its data, and the ring never holds more than it can. */
    method Run(steps: seq<Step>)
      requires Valid()
      modifies this, ring, ring.buf
      ensures Stream(put) == Stream(taken) + ring.contents && |ring.contents| <= 0x1000
      ensures forall id | id in calls && calls[id].Reader? :: calls[id].got == Part(taken, id) && |calls[id].got| <= calls[id].want
      ensures forall id | id in calls && calls[id].Writer? ::
        calls[id].sent <= |calls[id].data| && calls[id].data[..calls[id].sent] == Part(put, id)
      ensures forall id, n | id in calls && calls[id].phase == Done(Count(n)) ::
        n == if calls[id].Reader? then |calls[id].got| else calls[id].sent
      ensures forall id | id in calls && calls[id].phase == Done(BrokenPipe) ::
        if calls[id].Reader? then calls[id].got == [] else calls[id].sent == 0
      ensures old(put) <= put && old(taken) <= taken && Valid() && Now() == AfterAll(old(Now()), steps)
    {
      for n := 0 to |steps|
        invariant Valid() && old(put) <= put && old(taken) <= taken && Now() == AfterAll(old(Now()), steps[..n])
      {
        assert steps[..n + 1][..n] == steps[..n];
        Do(steps[n]);
      }
      assert steps[..|steps|] == steps;
      forall id | id in calls
        ensures CallOk(put, taken, id, calls[id])
      {
      }
    }
  }
}
