/** The readers-writer lock of src/kernel/sync/rwlock.c as a state machine: every operation runs under the guard, so that
    one step is one stretch between taking the guard and releasing it or falling asleep. */
module RwLock {

  datatype Thread = Thread(id: int)

  /** Where a thread is: outside, asleep in a queue, woken and about to test again, or inside a section. */
  datatype Phase = Outside | ReadAsleep | ReadWoken | WriteAsleep | WriteWoken | Reading | Writing

  /** rwlock_t, and the phase of every thread. */
  datatype Lock = Lock(writer: int, readers: int, writersq: seq<Thread>, readersq: seq<Thread>, phase: map<Thread, Phase>)

  datatype Step =
    | ReadAcquire(t: Thread)
    | ReadTry(t: Thread)
    | ReadRelease(t: Thread)
    | WriteAcquire(t: Thread)
    | WriteTry(t: Thread)
    | WriteRelease(t: Thread)
    | SpuriousWake(t: Thread)

  function PhaseOf(s: Lock, t: Thread): Phase {
    if t in s.phase then s.phase[t] else Outside
  }

  function Moved(s: Lock, t: Thread, p: Phase): Lock {
    s.(phase := s.phase[t := p])
  }

  // ----- the operations

  /** sched_wakeup_whence at the head of the writers' queue. */
  function WakeWriter(s: Lock): Lock {
    if s.writersq == [] then s else Moved(s.(writersq := s.writersq[1..]), s.writersq[0], WriteWoken)
  }

  /** sched_wakeup_all on the readers' queue. */
  function WakeReaders(s: Lock): Lock
    decreases |s.readersq|
  {
    if s.readersq == [] then s else WakeReaders(Moved(s.(readersq := s.readersq[1..]), s.readersq[0], ReadWoken))
  }

  function Without(q: seq<Thread>, t: Thread): seq<Thread> {
    if q == [] then [] else if q[0] == t then q[1..] else [q[0]] + Without(q[1..], t)
  }

  /** The test at the top of the loop, then the section or the queue. */
  function TestRead(s: Lock, t: Thread): Lock {
    if s.writer != 0 || s.writersq != [] then Moved(s.(readersq := s.readersq + [t]), t, ReadAsleep)
    else Moved(s.(readers := s.readers + 1), t, Reading)
  }

  function TestWrite(s: Lock, t: Thread): Lock {
    if s.readers != 0 || s.writer != 0 || s.writersq != [] then Moved(s.(writersq := s.writersq + [t]), t, WriteAsleep)
    else Moved(s.(writer := s.writer + 1), t, Writing)
  }

  /** One step; a step that the thread's phase does not allow changes nothing. */
  function Next(s: Lock, step: Step): Lock {
    match step
    case ReadAcquire(t) =>
      if PhaseOf(s, t).Outside? || PhaseOf(s, t).ReadWoken? then TestRead(s, t) else s
    case ReadTry(t) =>
      if PhaseOf(s, t).Outside? && s.writer == 0 && s.writersq == [] then TestRead(s, t) else s
    case ReadRelease(t) =>
      if !PhaseOf(s, t).Reading? then s else
      var s' := Moved(s.(readers := s.readers - 1), t, Outside);
      if s'.readers == 0 then WakeWriter(s') else s'
    case WriteAcquire(t) =>
      if PhaseOf(s, t).Outside? || PhaseOf(s, t).WriteWoken? then TestWrite(s, t) else s
    case WriteTry(t) =>
      if PhaseOf(s, t).Outside? && s.readers == 0 && s.writer == 0 && s.writersq == [] then TestWrite(s, t) else s
    case WriteRelease(t) =>
      if !PhaseOf(s, t).Writing? then s else
      var s' := Moved(s.(writer := s.writer - 1), t, Outside);
      if s'.writersq != [] then WakeWriter(s') else WakeReaders(s')
    case SpuriousWake(t) =>
      if PhaseOf(s, t).ReadAsleep? then Moved(s.(readersq := Without(s.readersq, t)), t, ReadWoken)
      else if PhaseOf(s, t).WriteAsleep? then Moved(s.(writersq := Without(s.writersq, t)), t, WriteWoken)
      else s
  }

  // ----- safety

  type Phases = map<Thread, Phase>

  ghost function In(m: Phases, p: Phase): set<Thread> {
    set t | t in m && m[t] == p
  }

  ghost predicate Queued(m: Phases, q: seq<Thread>, p: Phase) {
    && (forall i, j | 0 <= i < j < |q| :: q[i] != q[j])
    && (forall t :: t in q <==> t in m && m[t] == p)
  }

  /** The counters count the threads inside, and the queues hold the threads asleep. */
  ghost predicate Counted(s: Lock) {
    && s.writer == |In(s.phase, Writing)| && s.readers == |In(s.phase, Reading)|
    && Queued(s.phase, s.writersq, WriteAsleep) && Queued(s.phase, s.readersq, ReadAsleep)
  }

  /** At most one writer, and no reader beside it. */
  ghost predicate Exclusive(s: Lock) {
    s.writer <= 1 && (s.writer == 1 ==> s.readers == 0)
  }

  ghost predicate Safe(s: Lock) {
    Counted(s) && Exclusive(s)
  }

  const INIT: Lock := Lock(0, 0, [], [], map[])

  // ----- one thread changes phase

  ghost predicate At(m: Phases, t: Thread, p: Phase) {
    t in m && m[t] == p
  }

  lemma InSet(m: Phases, t: Thread, p: Phase, x: Phase)
    ensures |In(m[t := p], x)| == |In(m, x)| - (if At(m, t, x) then 1 else 0) + (if p == x then 1 else 0)
  {
    assert In(m[t := p], x) == if p == x then In(m, x) + {t} else In(m, x) - {t};
  }

  lemma {:induction false} WithoutIn(q: seq<Thread>, t: Thread, u: Thread)
    requires forall i, j | 0 <= i < j < |q| :: q[i] != q[j]
    ensures u in Without(q, t) <==> u in q && u != t
    ensures forall i, j | 0 <= i < j < |Without(q, t)| :: Without(q, t)[i] != Without(q, t)[j]
  {
    if q != [] {
      WithoutIn(q[1..], t, u);
      WithoutIn(q[1..], t, q[0]);
      assert q == [q[0]] + q[1..];
    }
  }

  lemma QueueLeft(m: Phases, q: seq<Thread>, x: Phase, t: Thread, p: Phase)
    requires Queued(m, q, x) && p != x
    ensures Queued(m[t := p], Without(q, t), x)
  {
    forall u
      ensures u in Without(q, t) <==> u in q && u != t
    {
      WithoutIn(q, t, u);
    }
    WithoutIn(q, t, t);
  }

  // ----- the steps keep it

  /** The counters after thread t moved from its phase to p. */
  lemma CountsMoved(s: Lock, t: Thread, p: Phase)
    requires Counted(s)
    ensures |In(s.phase[t := p], Writing)| == s.writer - (if At(s.phase, t, Writing) then 1 else 0) + (if p.Writing? then 1 else 0)
    ensures |In(s.phase[t := p], Reading)| == s.readers - (if At(s.phase, t, Reading) then 1 else 0) + (if p.Reading? then 1 else 0)
  {
    InSet(s.phase, t, p, Writing);
    InSet(s.phase, t, p, Reading);
  }

  lemma TestReadSafe(s: Lock, t: Thread)
    requires Safe(s) && (PhaseOf(s, t).Outside? || PhaseOf(s, t).ReadWoken?)
    ensures Safe(TestRead(s, t))
  {
    CountsMoved(s, t, ReadAsleep);
    CountsMoved(s, t, Reading);
  }

  lemma TestWriteSafe(s: Lock, t: Thread)
    requires Safe(s) && (PhaseOf(s, t).Outside? || PhaseOf(s, t).WriteWoken?)
    ensures Safe(TestWrite(s, t))
  {
    CountsMoved(s, t, WriteAsleep);
    CountsMoved(s, t, Writing);
  }

  lemma LeaveSafe(s: Lock, t: Thread)
    requires Safe(s)
    ensures PhaseOf(s, t).Reading? ==> Safe(Moved(s.(readers := s.readers - 1), t, Outside))
    ensures PhaseOf(s, t).Writing? ==> Safe(Moved(s.(writer := s.writer - 1), t, Outside)) && s.writer == 1
  {
    if PhaseOf(s, t).Reading? || PhaseOf(s, t).Writing? {
      CountsMoved(s, t, Outside);
      if PhaseOf(s, t).Writing? {
        assert t in In(s.phase, Writing);
      }
    }
  }

  lemma WakeWriterSafe(s: Lock)
    requires Safe(s)
    ensures Safe(WakeWriter(s))
  {
    if s.writersq != [] {
      var t := s.writersq[0];
      assert t in s.writersq;
      CountsMoved(s, t, WriteWoken);
    }
  }

  lemma {:induction false} WakeReadersSafe(s: Lock)
    requires Safe(s)
    ensures Safe(WakeReaders(s)) && WakeReaders(s).readersq == []
    decreases |s.readersq|
  {
    if s.readersq != [] {
      var t := s.readersq[0];
      assert t in s.readersq;
      CountsMoved(s, t, ReadWoken);
      WakeReadersSafe(Moved(s.(readersq := s.readersq[1..]), t, ReadWoken));
    }
  }

  lemma SpuriousSafe(s: Lock, t: Thread)
    requires Safe(s)
    ensures Safe(Next(s, SpuriousWake(t)))
  {
    if PhaseOf(s, t).ReadAsleep? {
      CountsMoved(s, t, ReadWoken);
      QueueLeft(s.phase, s.readersq, ReadAsleep, t, ReadWoken);
    } else if PhaseOf(s, t).WriteAsleep? {
      CountsMoved(s, t, WriteWoken);
      QueueLeft(s.phase, s.writersq, WriteAsleep, t, WriteWoken);
    }
  }

  lemma StepSafe(s: Lock, step: Step)
    requires Safe(s)
    ensures Safe(Next(s, step))
  {
    match step
    case ReadAcquire(t) =>
      if PhaseOf(s, t).Outside? || PhaseOf(s, t).ReadWoken? {
        TestReadSafe(s, t);
      }
    case ReadTry(t) =>
      if PhaseOf(s, t).Outside? {
        TestReadSafe(s, t);
      }
    case ReadRelease(t) =>
      LeaveSafe(s, t);
      if PhaseOf(s, t).Reading? {
        WakeWriterSafe(Moved(s.(readers := s.readers - 1), t, Outside));
      }
    case WriteAcquire(t) =>
      if PhaseOf(s, t).Outside? || PhaseOf(s, t).WriteWoken? {
        TestWriteSafe(s, t);
      }
    case WriteTry(t) =>
      if PhaseOf(s, t).Outside? {
        TestWriteSafe(s, t);
      }
    case WriteRelease(t) =>
      LeaveSafe(s, t);
      if PhaseOf(s, t).Writing? {
        WakeWriterSafe(Moved(s.(writer := s.writer - 1), t, Outside));
        WakeReadersSafe(Moved(s.(writer := s.writer - 1), t, Outside));
      }
    case SpuriousWake(t) =>
      SpuriousSafe(s, t);
  }

  // ----- who gets in, who sleeps and who is woken

  /** Everybody but t is where they were. */
  ghost predicate OthersStay(s: Lock, s': Lock, t: Thread) {
    forall u | u != t :: PhaseOf(s', u) == PhaseOf(s, u)
  }

  /** A reader that comes or was woken gets in exactly when no writer is inside or waiting, and else goes to the end of the
      queue; one that tries gets in in the same case, and else stays outside. */
  lemma ReaderEnters(s: Lock, t: Thread)
    requires PhaseOf(s, t).Outside? || PhaseOf(s, t).ReadWoken?
    ensures var s' := Next(s, ReadAcquire(t));
      && OthersStay(s, s', t) && s'.writer == s.writer && s'.writersq == s.writersq
      && if s.writer == 0 && s.writersq == []
         then PhaseOf(s', t) == Reading && s'.readers == s.readers + 1 && s'.readersq == s.readersq
         else PhaseOf(s', t) == ReadAsleep && s'.readers == s.readers && s'.readersq == s.readersq + [t]
    ensures PhaseOf(s, t).Outside? ==>
      Next(s, ReadTry(t)) == if s.writer == 0 && s.writersq == [] then Next(s, ReadAcquire(t)) else s
  {
  }

  /** A writer gets in exactly when nobody is inside and no writer waits. */
  lemma WriterEnters(s: Lock, t: Thread)
    requires PhaseOf(s, t).Outside? || PhaseOf(s, t).WriteWoken?
    ensures var s' := Next(s, WriteAcquire(t));
      && OthersStay(s, s', t) && s'.readers == s.readers && s'.readersq == s.readersq
      && if s.readers == 0 && s.writer == 0 && s.writersq == []
         then PhaseOf(s', t) == Writing && s'.writer == 1 && s'.writersq == []
         else PhaseOf(s', t) == WriteAsleep && s'.writer == s.writer && s'.writersq == s.writersq + [t]
    ensures PhaseOf(s, t).Outside? ==>
      Next(s, WriteTry(t)) == if s.readers == 0 && s.writer == 0 && s.writersq == [] then Next(s, WriteAcquire(t)) else s
  {
  }

  /** A reader that leaves wakes the first waiting writer exactly when it was the last reader. */
  lemma ReaderLeaves(s: Lock, t: Thread, u: Thread)
    requires Safe(s) && PhaseOf(s, t).Reading? && u != t
    ensures var s' := Next(s, ReadRelease(t));
      && PhaseOf(s', t) == Outside && s'.readers == s.readers - 1 && s'.writer == s.writer && s'.readersq == s.readersq
      && s'.writersq == (if s.readers == 1 && s.writersq != [] then s.writersq[1..] else s.writersq)
      && PhaseOf(s', u) == (if s.readers == 1 && s.writersq != [] && u == s.writersq[0] then WriteWoken else PhaseOf(s, u))
  {
    if s.writersq != [] {
      assert s.writersq[0] in s.writersq;
    }
  }

  lemma {:induction false} WakeReadersPhases(s: Lock, u: Thread)
    ensures PhaseOf(WakeReaders(s), u) == if u in s.readersq then ReadWoken else PhaseOf(s, u)
    decreases |s.readersq|
  {
    if s.readersq != [] {
      WakeReadersPhases(Moved(s.(readersq := s.readersq[1..]), s.readersq[0], ReadWoken), u);
      assert s.readersq == [s.readersq[0]] + s.readersq[1..];
    }
  }

  /** A writer that leaves wakes the first waiting writer, or every waiting reader when no writer waits. */
  lemma WriterLeaves(s: Lock, t: Thread, u: Thread)
    requires Safe(s) && PhaseOf(s, t).Writing? && u != t
    ensures var s' := Next(s, WriteRelease(t)); PhaseOf(s', t) == Outside && s'.writer == 0 && s'.readers == 0
    ensures var s' := Next(s, WriteRelease(t)); s.writersq != [] ==>
      && s'.writersq == s.writersq[1..] && s'.readersq == s.readersq
      && PhaseOf(s', u) == (if u == s.writersq[0] then WriteWoken else PhaseOf(s, u))
    ensures var s' := Next(s, WriteRelease(t)); s.writersq == [] ==>
      && s'.writersq == [] && s'.readersq == []
      && PhaseOf(s', u) == (if u in s.readersq then ReadWoken else PhaseOf(s, u))
  {
    LeaveSafe(s, t);
    var s1 := Moved(s.(writer := s.writer - 1), t, Outside);
    if s.writersq != [] {
      assert s.writersq[0] in s.writersq;
    } else {
      WakeReadersFields(s1);
      WakeReadersSafe(s1);
      WakeReadersPhases(s1, u);
      WakeReadersPhases(s1, t);
      assert t !in s.readersq;
    }
  }

  lemma {:induction false} WithoutOne(q: seq<Thread>, t: Thread) returns (i: int)
    requires t in q
    ensures 0 <= i < |q| && q[i] == t && Without(q, t) == q[..i] + q[i + 1..]
  {
    if q[0] == t {
      i := 0;
    } else {
      i := WithoutOne(q[1..], t);
      i := i + 1;
    }
  }

  /** A spurious wakeup takes one sleeper out of its queue, and does nothing to anybody else. */
  lemma SpuriouslyWoken(s: Lock, t: Thread) returns (i: int)
    requires Safe(s)
    ensures var s' := Next(s, SpuriousWake(t)); OthersStay(s, s', t) && s'.writer == s.writer && s'.readers == s.readers
    ensures var s' := Next(s, SpuriousWake(t)); PhaseOf(s, t).ReadAsleep? ==>
      && PhaseOf(s', t) == ReadWoken && s'.writersq == s.writersq
      && 0 <= i < |s.readersq| && s.readersq[i] == t && s'.readersq == s.readersq[..i] + s.readersq[i + 1..]
    ensures var s' := Next(s, SpuriousWake(t)); PhaseOf(s, t).WriteAsleep? ==>
      && PhaseOf(s', t) == WriteWoken && s'.readersq == s.readersq
      && 0 <= i < |s.writersq| && s.writersq[i] == t && s'.writersq == s.writersq[..i] + s.writersq[i + 1..]
  {
    i := 0;
    if PhaseOf(s, t).ReadAsleep? {
      i := WithoutOne(s.readersq, t);
    } else if PhaseOf(s, t).WriteAsleep? {
      i := WithoutOne(s.writersq, t);
    }
  }

  /** A step of a thread whose phase does not allow it changes nothing. */
  lemma NoStep(s: Lock, step: Step)
    requires match step
             case ReadAcquire(t) => !PhaseOf(s, t).Outside? && !PhaseOf(s, t).ReadWoken?
             case WriteAcquire(t) => !PhaseOf(s, t).Outside? && !PhaseOf(s, t).WriteWoken?
             case ReadTry(t) => !PhaseOf(s, t).Outside?
             case WriteTry(t) => !PhaseOf(s, t).Outside?
             case ReadRelease(t) => !PhaseOf(s, t).Reading?
             case WriteRelease(t) => !PhaseOf(s, t).Writing?
             case SpuriousWake(t) => !PhaseOf(s, t).ReadAsleep? && !PhaseOf(s, t).WriteAsleep?
    ensures Next(s, step) == s
  {
  }

  /** The state after a run. */
  function Run(s: Lock, steps: seq<Step>): Lock
    decreases |steps|
  {
    if steps == [] then s else Run(Next(s, steps[0]), steps[1..])
  }

  lemma {:induction false} RunKeepsSafe(s: Lock, steps: seq<Step>)
    requires Safe(s)
    ensures Safe(Run(s, steps))
    decreases |steps|
  {
    if steps != [] {
      StepSafe(s, steps[0]);
      RunKeepsSafe(Next(s, steps[0]), steps[1..]);
    }
  }

  /** In every interleaving from the start, two threads are inside together only if both read, and the counters are the
      numbers of threads inside. */
  lemma MutualExclusion(steps: seq<Step>, t: Thread, u: Thread)
    ensures var s := Run(INIT, steps);
      && s.writer == |In(s.phase, Writing)| && s.readers == |In(s.phase, Reading)|
      && (PhaseOf(s, t).Writing? && t != u ==> !PhaseOf(s, u).Writing? && !PhaseOf(s, u).Reading?)
  {
    RunKeepsSafe(INIT, steps);
    var s := Run(INIT, steps);
    if PhaseOf(s, t).Writing? {
      assert t in In(s.phase, Writing);
      assert |In(s.phase, Writing) - {t}| == 0;
      assert u !in In(s.phase, Writing) - {t} && u !in In(s.phase, Reading);
    }
  }

  /** A writer that is woken gets the lock exactly when no other writer waits; otherwise it goes back to sleep behind
      them. */
  lemma WokenWriter(s: Lock, t: Thread)
    requires Safe(s) && PhaseOf(s, t).Writing? && s.writersq != []
    ensures var w := s.writersq[0]; var s' := Next(Next(s, WriteRelease(t)), WriteAcquire(w));
      if |s.writersq| == 1 then PhaseOf(s', w).Writing?
      else PhaseOf(s', w).WriteAsleep? && s'.writersq == s.writersq[1..] + [w] && s'.writer == 0 && s'.readers == 0
  {
    LeaveSafe(s, t);
  }

  // ----- where the lock sticks

  /** Nobody is inside, and a writer waits. */
  ghost predicate Stuck(s: Lock) {
    s.writer == 0 && s.readers == 0 && s.writersq != []
  }

  lemma NobodyInside(s: Lock, t: Thread)
    requires Counted(s) && s.writer == 0 && s.readers == 0
    ensures !PhaseOf(s, t).Reading? && !PhaseOf(s, t).Writing?
  {
    assert t !in In(s.phase, Reading) && t !in In(s.phase, Writing);
  }

  /** Only a spurious wakeup ends it: whoever comes, or was woken before, goes to sleep. */
  lemma {:induction false} StuckForever(s: Lock, steps: seq<Step>)
    requires Safe(s) && Stuck(s) && forall i | 0 <= i < |steps| :: !steps[i].SpuriousWake?
    ensures Stuck(Run(s, steps))
    decreases |steps|
  {
    if steps != [] {
      var step := steps[0];
      if !step.SpuriousWake? {
        NobodyInside(s, step.t);
      }
      StepSafe(s, step);
      StuckForever(Next(s, step), steps[1..]);
    }
  }

  /** A release by the writer, or by the last reader, leaves the lock stuck exactly when two writers or more wait. */
  lemma ReleaseSticks(s: Lock, t: Thread)
    requires Safe(s)
    ensures PhaseOf(s, t).Writing? ==> (Stuck(Next(s, WriteRelease(t))) <==> |s.writersq| >= 2)
    ensures PhaseOf(s, t).Reading? && s.readers == 1 ==> (Stuck(Next(s, ReadRelease(t))) <==> |s.writersq| >= 2)
  {
    LeaveSafe(s, t);
    if PhaseOf(s, t).Writing? {
      WakeReadersFields(Moved(s.(writer := s.writer - 1), t, Outside));
    }
    if PhaseOf(s, t).Reading? && s.readers == 1 {
      assert t in In(s.phase, Reading);
      assert s.writer == 0;
    }
  }

  lemma {:induction false} WakeReadersFields(s: Lock)
    ensures var s' := WakeReaders(s); s'.writer == s.writer && s'.readers == s.readers && s'.writersq == s.writersq
    decreases |s.readersq|
  {
    if s.readersq != [] {
      WakeReadersFields(Moved(s.(readersq := s.readersq[1..]), s.readersq[0], ReadWoken));
    }
  }

  /** Three writers and one release are enough to get there. */
  lemma StuckReachable()
    ensures exists steps: seq<Step> :: Stuck(Run(INIT, steps))
  {
    var a, b, c := Thread(0), Thread(1), Thread(2);
    var s1 := Next(INIT, WriteAcquire(a));
    var s2 := Next(s1, WriteAcquire(b));
    var s3 := Next(s2, WriteAcquire(c));
    var s4 := Next(s3, WriteRelease(a));
    assert s3.writersq == [b, c] && Stuck(s4);
    assert Run(s4, []) == s4;
    assert Run(s3, [WriteRelease(a)]) == s4;
    assert Run(s2, [WriteAcquire(c), WriteRelease(a)]) == Run(s3, [WriteRelease(a)]) by {
      assert [WriteAcquire(c), WriteRelease(a)][1..] == [WriteRelease(a)];
    }
    var three := [WriteAcquire(b), WriteAcquire(c), WriteRelease(a)];
    assert three[1..] == [WriteAcquire(c), WriteRelease(a)];
    assert Run(s1, three) == s4;
    assert ([WriteAcquire(a)] + three)[1..] == three;
    assert Run(INIT, [WriteAcquire(a)] + three) == s4;
  }
}
