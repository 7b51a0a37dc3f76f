/** Any number of threads using one reader-writer lock.  Each mutex-protected section is one
    atomic step; between sections a thread may be woken, wake spuriously, or time out. */
module RwProtocol {
  import opened RwLock

  type Tid = nat
  datatype Phase = Asleep | Awake | Expired

  /** timed: the call was given a time at which to give up. */
  datatype Thread = Idle | Waiting(kind: Kind, timed: bool, phase: Phase) | Holding(kind: Kind)

  datatype State = State(lock: Counters, threads: map<Tid, Thread>)

  /** woken: the waiter to which a signal, if one is sent, is delivered. */
  datatype Step =
    | Lock(t: Tid, kind: Kind, timed: bool)
    | Resume(t: Tid)
    | Unlock(t: Tid, woken: set<Tid>)
    | Spurious(t: Tid)
    | Expire(t: Tid)

  predicate Sleeps(threads: map<Tid, Thread>, t: Tid, k: Kind) {
    t in threads && threads[t].Waiting? && threads[t].kind == k && threads[t].phase == Asleep
  }

  predicate IsAwake(threads: map<Tid, Thread>, t: Tid, k: Kind) {
    t in threads && threads[t].Waiting? && threads[t].kind == k && threads[t].phase == Awake
  }

  predicate HasExpired(threads: map<Tid, Thread>, t: Tid, k: Kind) {
    t in threads && threads[t].Waiting? && threads[t].kind == k && threads[t].phase == Expired
  }

  /** A signal goes to one sleeping writer if there is one; POSIX also lets a writer whose wait
      is timing out consume it.  With neither it is lost. */
  ghost predicate SignalReaches(threads: map<Tid, Thread>, woken: set<Tid>) {
    || (exists w :: woken == {w} && (Sleeps(threads, w, Writer) || HasExpired(threads, w, Writer)))
    || (woken == {} && forall w :: !Sleeps(threads, w, Writer))
  }

  ghost predicate Enabled(s: State, step: Step) {
    && step.t in s.threads
    && match step
       case Lock(t, _, _) => s.threads[t].Idle?
       case Resume(t) => s.threads[t].Waiting? && s.threads[t].phase != Asleep
       case Unlock(t, woken) =>
         && s.threads[t].Holding?
         && (match AfterUnlock(s.threads[t].kind, s.lock).1
             case OneWriter => SignalReaches(s.threads, woken)
             case AllReaders => woken == set w | w in s.threads && Sleeps(s.threads, w, Reader)
             case Nobody => woken == {})
       case Spurious(t) => s.threads[t].Waiting? && s.threads[t].phase == Asleep
       case Expire(t) => s.threads[t].Waiting? && s.threads[t].phase == Asleep && s.threads[t].timed
  }

  function Became(k: Kind, timed: bool, o: Outcome): Thread {
    match o
    case Blocks => Waiting(k, timed, Asleep)
    case Acquires => Holding(k)
    case TimesOut => Idle
  }

  /** The sleeping threads among those woken are awake; an expired one stays expired. */
  function Woken(threads: map<Tid, Thread>, woken: set<Tid>): map<Tid, Thread> {
    map t | t in threads ::
      if t in woken && threads[t].Waiting? && threads[t].phase == Asleep
      then threads[t].(phase := Awake)
      else threads[t]
  }

  function Next(s: State, step: Step): State
    requires step.t in s.threads
  {
    var t := step.t;
    match step
    case Lock(_, k, timed) =>
      var (c, o) := AfterEnter(k, s.lock);
      State(c, s.threads[t := Became(k, timed, o)])
    case Resume(_) =>
      if !s.threads[t].Waiting? then s else
        var w := s.threads[t];
        var (c, o) := AfterResume(w.kind, s.lock, w.phase == Expired);
        State(c, s.threads[t := Became(w.kind, w.timed, o)])
    case Unlock(_, woken) =>
      if !s.threads[t].Holding? then s else
        State(AfterUnlock(s.threads[t].kind, s.lock).0, Woken(s.threads[t := Idle], woken))
    case Spurious(_) =>
      if !s.threads[t].Waiting? then s else s.(threads := s.threads[t := s.threads[t].(phase := Awake)])
    case Expire(_) =>
      if !s.threads[t].Waiting? then s else s.(threads := s.threads[t := s.threads[t].(phase := Expired)])
  }

  // ----- The counters count the threads -----

  ghost function Waiters(threads: map<Tid, Thread>, k: Kind): set<Tid> {
    set t | t in threads && threads[t].Waiting? && threads[t].kind == k
  }

  ghost function Holders(threads: map<Tid, Thread>, k: Kind): set<Tid> {
    set t | t in threads && threads[t] == Holding(k)
  }

  ghost function Counts(threads: map<Tid, Thread>): Counters {
    Counters(|Waiters(threads, Reader)|, |Waiters(threads, Writer)|,
             |Holders(threads, Writer)|, |Holders(threads, Reader)|)
  }

  ghost predicate Counted(s: State) { s.lock == Counts(s.threads) }

  /** At most one writer, and no reader beside it. */
  ghost predicate Exclusive(c: Counters) {
    0 <= c.writers <= 1 && (c.writers > 0 ==> c.readers == 0)
  }

  ghost predicate Safe(s: State) { Counted(s) && Exclusive(s.lock) }

  /** What one thread adds to the counters. */
  function Share(x: Thread, d: int): Counters {
    match x
    case Idle => Unlocked()
    case Waiting(k, _, _) => Queued(k, Unlocked(), d)
    case Holding(k) => Held(k, Unlocked(), d)
  }

  function Plus(c: Counters, d: Counters): Counters {
    Counters(c.waitingReaders + d.waitingReaders, c.waitingWriters + d.waitingWriters,
             c.writers + d.writers, c.readers + d.readers)
  }

  lemma Moved(a: set<Tid>, b: set<Tid>, t: Tid, now: bool)
    requires b == a - {t} + (if now then {t} else {})
    ensures |b| == |a| - (if t in a then 1 else 0) + (if now then 1 else 0)
  {
    assert |a - {t}| == |a| - (if t in a then 1 else 0);
  }

  lemma SetUpdate(threads: map<Tid, Thread>, t: Tid, x: Thread, k: Kind)
    requires t in threads
    ensures var now, was := threads[t := x], threads[t];
      && Waiters(now, k) == Waiters(threads, k) - {t} + (if x.Waiting? && x.kind == k then {t} else {})
      && Holders(now, k) == Holders(threads, k) - {t} + (if x == Holding(k) then {t} else {})
      && (t in Waiters(threads, k) <==> was.Waiting? && was.kind == k)
      && (t in Holders(threads, k) <==> was == Holding(k))
  {
  }

  lemma KindUpdate(threads: map<Tid, Thread>, t: Tid, x: Thread, k: Kind)
    requires t in threads
    ensures var now, was := threads[t := x], threads[t];
      && |Waiters(now, k)| == |Waiters(threads, k)| - (if was.Waiting? && was.kind == k then 1 else 0)
                                                    + (if x.Waiting? && x.kind == k then 1 else 0)
      && |Holders(now, k)| == |Holders(threads, k)| - (if was == Holding(k) then 1 else 0)
                                                    + (if x == Holding(k) then 1 else 0)
  {
    var now := threads[t := x];
    SetUpdate(threads, t, x, k);
    Moved(Waiters(threads, k), Waiters(now, k), t, x.Waiting? && x.kind == k);
    Moved(Holders(threads, k), Holders(now, k), t, x == Holding(k));
  }

  lemma CountsUpdate(threads: map<Tid, Thread>, t: Tid, x: Thread)
    requires t in threads
    ensures Counts(threads[t := x]) == Plus(Plus(Counts(threads), Share(threads[t], -1)), Share(x, 1))
  {
    var now := threads[t := x];
    KindUpdate(threads, t, x, Reader);
    KindUpdate(threads, t, x, Writer);
  }

  lemma WokenCounts(threads: map<Tid, Thread>, woken: set<Tid>)
    ensures Counts(Woken(threads, woken)) == Counts(threads)
  {
    var now := Woken(threads, woken);
    assert Waiters(now, Reader) == Waiters(threads, Reader) && Waiters(now, Writer) == Waiters(threads, Writer);
    assert Holders(now, Reader) == Holders(threads, Reader) && Holders(now, Writer) == Holders(threads, Writer);
  }

  /** One thread moves to x and the counters change by its share: they still count. */
  lemma SafeMove(s: State, t: Tid, x: Thread, c: Counters)
    requires Safe(s) && t in s.threads && Exclusive(c)
    requires c == Plus(Plus(s.lock, Share(s.threads[t], -1)), Share(x, 1))
    ensures Safe(State(c, s.threads[t := x]))
  {
    CountsUpdate(s.threads, t, x);
  }

  lemma CountsNonnegative(s: State)
    requires Counted(s)
    ensures s.lock.readers >= 0 && s.lock.waitingReaders >= 0 && s.lock.waitingWriters >= 0
  {
  }

  lemma HolderCounted(s: State, t: Tid)
    requires Counted(s) && t in s.threads && s.threads[t].Holding?
    ensures match s.threads[t].kind case Reader => s.lock.readers > 0 case Writer => s.lock.writers > 0
  {
    assert t in Holders(s.threads, s.threads[t].kind);
  }

  /** The two waiting counters add up to the threads that wait: no holder is among them. */
  lemma WaitersCounted(s: State)
    requires Counted(s)
    ensures s.lock.waitingReaders + s.lock.waitingWriters == |set t | t in s.threads && s.threads[t].Waiting?|
  {
    var r, w := Waiters(s.threads, Reader), Waiters(s.threads, Writer);
    assert (set t | t in s.threads && s.threads[t].Waiting?) == r + w;
    assert r * w == {};
  }

  /** In a state whose counters count its threads, NWaiters is the number of those that wait. */
  method CountWaiters(l: Rwl, ghost s: State) returns (n: int)
    requires l.Abs() == s.lock && Counted(s)
    ensures n == |set t | t in s.threads && s.threads[t].Waiting?|
  {
    n := l.NWaiters();
    WaitersCounted(s);
  }

  /** A section keeps the lock exclusive and changes the counters by its thread's share. */
  lemma EnterShare(k: Kind, timed: bool, c: Counters)
    requires Exclusive(c) && c.readers >= 0
    ensures var (d, o) := AfterEnter(k, c);
      Exclusive(d) && d == Plus(Plus(c, Share(Idle, -1)), Share(Became(k, timed, o), 1))
  {
  }

  lemma ResumeShare(w: Thread, c: Counters)
    requires Exclusive(c) && c.readers >= 0 && w.Waiting?
    ensures var (d, o) := AfterResume(w.kind, c, w.phase == Expired);
      Exclusive(d) && d == Plus(Plus(c, Share(w, -1)), Share(Became(w.kind, w.timed, o), 1))
  {
  }

  lemma SafeEnter(s: State, t: Tid, k: Kind, timed: bool)
    requires Safe(s) && t in s.threads && s.threads[t].Idle?
    ensures Safe(Next(s, Lock(t, k, timed)))
  {
    CountsNonnegative(s);
    EnterShare(k, timed, s.lock);
    var (c, o) := AfterEnter(k, s.lock);
    SafeMove(s, t, Became(k, timed, o), c);
  }

  lemma SafeResume(s: State, t: Tid)
    requires Safe(s) && t in s.threads && s.threads[t].Waiting?
    ensures Safe(Next(s, Resume(t)))
  {
    var w := s.threads[t];
    CountsNonnegative(s);
    ResumeShare(w, s.lock);
    var (c, o) := AfterResume(w.kind, s.lock, w.phase == Expired);
    SafeMove(s, t, Became(w.kind, w.timed, o), c);
  }

  lemma SafeUnlock(s: State, t: Tid, woken: set<Tid>)
    requires Safe(s) && t in s.threads && s.threads[t].Holding?
    ensures Safe(Next(s, Unlock(t, woken)))
  {
    HolderCounted(s, t);
    SafeMove(s, t, Idle, AfterUnlock(s.threads[t].kind, s.lock).0);
    WokenCounts(s.threads[t := Idle], woken);
  }

  /** Every step keeps each counter equal to the number of threads it stands for, and the
      lock exclusive. */
  lemma SafeStep(s: State, step: Step)
    requires Safe(s) && Enabled(s, step)
    ensures Safe(Next(s, step))
  {
    match step
    case Lock(t, k, timed) => SafeEnter(s, t, k, timed);
    case Resume(t) => SafeResume(s, t);
    case Unlock(t, woken) => SafeUnlock(s, t, woken);
    case Spurious(t) => SafeMove(s, t, s.threads[t].(phase := Awake), s.lock);
    case Expire(t) => SafeMove(s, t, s.threads[t].(phase := Expired), s.lock);
  }

  // ----- Wakeups -----

  ghost predicate Free(c: Counters) { c.writers == 0 && c.readers == 0 }

  /** A sleeping writer while the lock is free: some other writer is awake. */
  ghost predicate WriterHeard(s: State) {
    Free(s.lock) && (exists w :: Sleeps(s.threads, w, Writer)) ==> exists w :: IsAwake(s.threads, w, Writer)
  }

  /** A sleeping reader: some writer holds the lock or waits for it. */
  ghost predicate ReaderHeard(s: State) {
    (exists r :: Sleeps(s.threads, r, Reader)) ==> s.lock.writers > 0 || s.lock.waitingWriters > 0
  }

  /** An unlock whose signal is consumed by a writer that is timing out anyway. */
  predicate SignalConsumed(s: State, step: Step) {
    step.Unlock? && step.t in s.threads && exists w :: w in step.woken && HasExpired(s.threads, w, Writer)
  }

  /** An awake writer that does not take this step stays awake. */
  lemma StaysAwake(s: State, step: Step, a: Tid)
    requires Enabled(s, step) && IsAwake(s.threads, a, Writer) && a != step.t
    ensures IsAwake(Next(s, step).threads, a, Writer)
  {
  }

  /** A writer asleep after a step slept before it, or went to sleep in it on a lock that is held. */
  lemma FellAsleep(s: State, step: Step, w: Tid)
    requires Safe(s) && Enabled(s, step) && Sleeps(Next(s, step).threads, w, Writer) && Free(Next(s, step).lock)
    ensures Sleeps(s.threads, w, Writer) && (step.Unlock? || Free(s.lock))
    ensures !IsAwake(s.threads, step.t, Writer)
  {
    CountsNonnegative(s);
  }

  lemma SubsetSize(a: set<Tid>, b: set<Tid>)
    requires a <= b
    ensures |a| <= |b|
  {
    if a != {} {
      var x :| x in a;
      SubsetSize(a - {x}, b - {x});
    }
  }

  lemma UnlockHeard(s: State, step: Step, w: Tid)
    requires Safe(s) && step.Unlock? && Enabled(s, step) && !SignalConsumed(s, step) && Sleeps(s.threads, w, Writer)
    ensures exists a :: IsAwake(Next(s, step).threads, a, Writer)
  {
    SubsetSize({w}, Waiters(s.threads, Writer));
    var a :| step.woken == {a} && (Sleeps(s.threads, a, Writer) || HasExpired(s.threads, a, Writer));
    assert a in step.woken;
    assert IsAwake(Next(s, step).threads, a, Writer);
  }

  lemma WriterHeardStep(s: State, step: Step)
    requires Safe(s) && WriterHeard(s) && Enabled(s, step) && !SignalConsumed(s, step)
    ensures WriterHeard(Next(s, step))
  {
    var n := Next(s, step);
    if Free(n.lock) {
      if w :| Sleeps(n.threads, w, Writer) {
        FellAsleep(s, step, w);
        if step.Unlock? {
          UnlockHeard(s, step, w);
        } else {
          var a :| IsAwake(s.threads, a, Writer);
          StaysAwake(s, step, a);
        }
      }
    }
  }

  /** A consumed signal is lost: it was to wake a sleeping writer, the lock falls free, and
      no other writer is awake. */
  ghost predicate LosesSignal(s: State, step: Step) {
    && SignalConsumed(s, step)
    && s.threads[step.t].Holding? && Free(AfterUnlock(s.threads[step.t].kind, s.lock).0)
    && (exists w :: Sleeps(s.threads, w, Writer)) && !(exists w :: IsAwake(s.threads, w, Writer))
  }

  lemma ConsumedWakesNobody(s: State, step: Step)
    requires Counted(s) && Enabled(s, step) && SignalConsumed(s, step)
    ensures forall w :: Sleeps(Next(s, step).threads, w, Writer) <==> Sleeps(s.threads, w, Writer)
    ensures forall w :: IsAwake(Next(s, step).threads, w, Writer) <==> IsAwake(s.threads, w, Writer)
  {
    var e :| e in step.woken && HasExpired(s.threads, e, Writer);
  }

  /** A step leaves a sleeping writer unheard exactly when it loses a signal. */
  lemma WriterHeardExactly(s: State, step: Step)
    requires Safe(s) && WriterHeard(s) && Enabled(s, step)
    ensures WriterHeard(Next(s, step)) <==> !LosesSignal(s, step)
  {
    var n := Next(s, step);
    if !SignalConsumed(s, step) {
      WriterHeardStep(s, step);
    } else {
      if w :| Sleeps(s.threads, w, Writer) {
        SubsetSize({w}, Waiters(s.threads, Writer));
        assert Sleeps(n.threads, w, Writer) || w in step.woken;
      }
      if a :| IsAwake(s.threads, a, Writer) { StaysAwake(s, step, a); }
      ConsumedWakesNobody(s, step);
    }
  }

  /** The last waiting writer gives up while nobody writes, and a reader sleeps. */
  ghost predicate Strands(s: State, step: Step) {
    && step.Resume? && HasExpired(s.threads, step.t, Writer)
    && s.lock.writers == 0 && s.lock.waitingWriters == 1 && exists r :: Sleeps(s.threads, r, Reader)
  }

  /** A reader asleep after an unlock slept before it and was not woken: writers wait. */
  lemma UnlockReaderHeard(s: State, step: Step)
    requires Safe(s) && ReaderHeard(s) && Enabled(s, step) && step.Unlock?
    ensures ReaderHeard(Next(s, step))
  {
    var n := Next(s, step);
    if r :| Sleeps(n.threads, r, Reader) {
      assert Sleeps(s.threads, r, Reader) && r !in step.woken;
      assert r in Waiters(s.threads, Reader);
    }
  }

  lemma ReaderFellAsleep(s: State, step: Step, r: Tid)
    requires Enabled(s, step) && !step.Unlock? && Sleeps(Next(s, step).threads, r, Reader)
    ensures var n := Next(s, step);
      || (Sleeps(s.threads, r, Reader) && r != step.t)
      || n.lock.writers != 0 || n.lock.waitingWriters != 0
  {
  }

  lemma OtherReaderHeard(s: State, step: Step)
    requires Safe(s) && ReaderHeard(s) && Enabled(s, step) && !step.Unlock? && !Strands(s, step)
    ensures ReaderHeard(Next(s, step))
  {
    var n := Next(s, step);
    SafeStep(s, step);
    CountsNonnegative(n);
    if r :| Sleeps(n.threads, r, Reader) {
      ReaderFellAsleep(s, step, r);
    }
  }

  /** A step leaves every sleeping reader a writer to wait for, except exactly when the last
      waiting writer times out. */
  lemma ReaderHeardStep(s: State, step: Step)
    requires Safe(s) && ReaderHeard(s) && Enabled(s, step)
    ensures ReaderHeard(Next(s, step)) <==> !Strands(s, step)
  {
    if step.Unlock? {
      UnlockReaderHeard(s, step);
    } else if !Strands(s, step) {
      OtherReaderHeard(s, step);
    } else {
      var r :| Sleeps(s.threads, r, Reader);
      assert Sleeps(Next(s, step).threads, r, Reader);
    }
  }

  // ----- Whole runs -----

  ghost predicate Run(s: State, steps: seq<Step>)
    decreases |steps|
  {
    steps == [] || (Enabled(s, steps[0]) && Run(Next(s, steps[0]), steps[1..]))
  }

  /** The states a run goes through, first to last. */
  ghost function Final(s: State, steps: seq<Step>): State
    requires Run(s, steps)
    decreases |steps|
  {
    if steps == [] then s else Final(Next(s, steps[0]), steps[1..])
  }

  ghost predicate Initial(s: State) {
    s.lock == Unlocked() && forall t :: t in s.threads ==> s.threads[t].Idle?
  }

  lemma InitialSafe(s: State)
    requires Initial(s)
    ensures Safe(s) && WriterHeard(s) && ReaderHeard(s)
  {
    assert Waiters(s.threads, Reader) == {} && Waiters(s.threads, Writer) == {};
    assert Holders(s.threads, Reader) == {} && Holders(s.threads, Writer) == {};
  }

  lemma {:induction false} SafeRun(s: State, steps: seq<Step>)
    requires Safe(s) && Run(s, steps)
    ensures Safe(Final(s, steps))
    decreases |steps|
  {
    if steps != [] {
      SafeStep(s, steps[0]);
      SafeRun(Next(s, steps[0]), steps[1..]);
    }
  }

  lemma WritesAlone(f: State, a: Tid, b: Tid)
    requires Safe(f) && a != b && a in f.threads && b in f.threads && f.threads[a] == Holding(Writer)
    ensures !f.threads[b].Holding?
  {
    HolderCounted(f, a);
    if f.threads[b] == Holding(Writer) {
      assert |{a, b}| == 2;
      SubsetSize({a, b}, Holders(f.threads, Writer));
    } else if f.threads[b] == Holding(Reader) {
      HolderCounted(f, b);
    }
  }

  /** Mutual exclusion in every state reachable with any number of threads, timeouts and
      spurious wakeups: a thread that writes is alone, and the counters tell the truth. */
  lemma MutualExclusion(s: State, steps: seq<Step>, a: Tid, b: Tid)
    requires Initial(s) && Run(s, steps) && a != b
    ensures var f := Final(s, steps);
      && f.lock == Counts(f.threads)
      && (a in f.threads && b in f.threads && f.threads[a] == Holding(Writer) ==> !f.threads[b].Holding?)
  {
    InitialSafe(s);
    SafeRun(s, steps);
    var f := Final(s, steps);
    if a in f.threads && b in f.threads && f.threads[a] == Holding(Writer) {
      WritesAlone(f, a, b);
    }
  }

  /** Every state the run goes through, the first and the last included, hears its writers. */
  ghost predicate WriterHeardThroughout(s: State, steps: seq<Step>)
    requires Run(s, steps)
    decreases |steps|
  {
    WriterHeard(s) && (steps == [] || WriterHeardThroughout(Next(s, steps[0]), steps[1..]))
  }

  ghost predicate NoSignalLost(s: State, steps: seq<Step>)
    requires Run(s, steps)
    decreases |steps|
  {
    steps == [] || (!LosesSignal(s, steps[0]) && NoSignalLost(Next(s, steps[0]), steps[1..]))
  }

  ghost predicate ReaderHeardThroughout(s: State, steps: seq<Step>)
    requires Run(s, steps)
    decreases |steps|
  {
    ReaderHeard(s) && (steps == [] || ReaderHeardThroughout(Next(s, steps[0]), steps[1..]))
  }

  ghost predicate NobodyStranded(s: State, steps: seq<Step>)
    requires Run(s, steps)
    decreases |steps|
  {
    steps == [] || (!Strands(s, steps[0]) && NobodyStranded(Next(s, steps[0]), steps[1..]))
  }

  lemma {:induction false} WriterHeardRun(s: State, steps: seq<Step>)
    requires Safe(s) && WriterHeard(s) && Run(s, steps)
    ensures WriterHeardThroughout(s, steps) <==> NoSignalLost(s, steps)
    decreases |steps|
  {
    if steps != [] {
      SafeStep(s, steps[0]);
      WriterHeardExactly(s, steps[0]);
      if !LosesSignal(s, steps[0]) {
        WriterHeardRun(Next(s, steps[0]), steps[1..]);
      }
    }
  }

  lemma {:induction false} ReaderHeardRun(s: State, steps: seq<Step>)
    requires Safe(s) && ReaderHeard(s) && Run(s, steps)
    ensures ReaderHeardThroughout(s, steps) <==> NobodyStranded(s, steps)
    decreases |steps|
  {
    if steps != [] {
      SafeStep(s, steps[0]);
      ReaderHeardStep(s, steps[0]);
      if !Strands(s, steps[0]) {
        ReaderHeardRun(Next(s, steps[0]), steps[1..]);
      }
    }
  }

  /** No call for the write lock is given a time at which to give up. */
  ghost predicate WritersPatient(steps: seq<Step>) {
    forall i :: 0 <= i < |steps| && steps[i].Lock? && steps[i].kind == Writer ==> !steps[i].timed
  }

  ghost predicate NoTimedWriter(s: State) {
    forall t :: t in s.threads && s.threads[t].Waiting? && s.threads[t].kind == Writer ==>
      !s.threads[t].timed && s.threads[t].phase != Expired
  }

  lemma NoTimedWriterStep(s: State, step: Step)
    requires NoTimedWriter(s) && Enabled(s, step) && (step.Lock? && step.kind == Writer ==> !step.timed)
    ensures NoTimedWriter(Next(s, step)) && !SignalConsumed(s, step) && !Strands(s, step)
  {
  }

  /** No sleeper is forgotten, and none will be by a writer that times out. */
  ghost predicate AllHeard(s: State) { Safe(s) && WriterHeard(s) && ReaderHeard(s) && NoTimedWriter(s) }

  lemma AllHeardStep(s: State, step: Step)
    requires AllHeard(s) && Enabled(s, step) && (step.Lock? && step.kind == Writer ==> !step.timed)
    ensures AllHeard(Next(s, step))
  {
    NoTimedWriterStep(s, step);
    SafeStep(s, step);
    WriterHeardStep(s, step);
    ReaderHeardStep(s, step);
  }

  lemma {:induction false} PatientRun(s: State, steps: seq<Step>)
    requires AllHeard(s) && Run(s, steps) && WritersPatient(steps)
    ensures WriterHeardThroughout(s, steps) && ReaderHeardThroughout(s, steps)
    decreases |steps|
  {
    if steps != [] {
      assert forall i :: 0 <= i < |steps[1..]| ==> steps[1..][i] == steps[i + 1];
      AllHeardStep(s, steps[0]);
      PatientRun(Next(s, steps[0]), steps[1..]);
    }
  }

  /** No lost wakeup: when no writer may time out, then in every state of every run a sleeping
      writer beside a free lock has a fellow writer awake, and a reader sleeps only while a
      writer holds the lock or waits for it. */
  lemma NoLostWakeup(s: State, steps: seq<Step>)
    requires Initial(s) && Run(s, steps) && WritersPatient(steps)
    ensures WriterHeardThroughout(s, steps) && ReaderHeardThroughout(s, steps)
  {
    InitialSafe(s);
    PatientRun(s, steps);
  }

  /** With timeouts, the writers' half holds in every state of a run exactly when no step of the
      run loses a signal. */
  lemma NoLostWriter(s: State, steps: seq<Step>)
    requires Initial(s) && Run(s, steps)
    ensures WriterHeardThroughout(s, steps) <==> NoSignalLost(s, steps)
  {
    InitialSafe(s);
    WriterHeardRun(s, steps);
  }

  /** With timeouts, the readers' half holds in every state of a run exactly when the last waiting
      writer never times out over a sleeping reader. */
  lemma NoLostReader(s: State, steps: seq<Step>)
    requires Initial(s) && Run(s, steps)
    ensures ReaderHeardThroughout(s, steps) <==> NobodyStranded(s, steps)
  {
    InitialSafe(s);
    ReaderHeardRun(s, steps);
  }

  /** When the lock is free and threads wait, one of them is past its wait, and when it
      next runs it stops waiting: it takes the lock or gives up. */
  lemma FreeLockMoves(s: State) returns (t: Tid)
    requires Safe(s) && WriterHeard(s) && ReaderHeard(s) && Free(s.lock)
    requires s.lock.waitingReaders + s.lock.waitingWriters > 0
    ensures Enabled(s, Resume(t)) && s.threads[t].Waiting? && !Next(s, Resume(t)).threads[t].Waiting?
  {
    if s.lock.waitingWriters > 0 {
      t :| t in Waiters(s.threads, Writer);
      if Sleeps(s.threads, t, Writer) {
        t :| IsAwake(s.threads, t, Writer);
      }
    } else {
      t :| t in Waiters(s.threads, Reader);
      assert !Sleeps(s.threads, t, Reader);
    }
  }

  /** Whoever holds the lock may unlock it, whomever that wakes. */
  lemma MayUnlock(s: State, t: Tid) returns (woken: set<Tid>)
    requires t in s.threads && s.threads[t].Holding?
    ensures Enabled(s, Unlock(t, woken))
  {
    match AfterUnlock(s.threads[t].kind, s.lock).1
    case OneWriter =>
      woken := {};
      if w :| Sleeps(s.threads, w, Writer) { woken := {w}; }
    case AllReaders => woken := set w | w in s.threads && Sleeps(s.threads, w, Reader);
    case Nobody => woken := {};
  }

  // ----- Writer priority -----

  ghost predicate WaitsThroughout(s: State, steps: seq<Step>, w: Tid)
    requires Run(s, steps)
    decreases |steps|
  {
    steps == [] ||
    (w in Waiters(s.threads, Writer) && WaitsThroughout(Next(s, steps[0]), steps[1..], w))
  }

  lemma NoNewReader(s: State, step: Step, w: Tid)
    requires Safe(s) && Enabled(s, step) && w in Waiters(s.threads, Writer)
    ensures Holders(Next(s, step).threads, Reader) <= Holders(s.threads, Reader)
  {
    SubsetSize({w}, Waiters(s.threads, Writer));
  }

  /** From a state in which a writer waits up to the step by which it stops waiting, no
      thread starts reading. */
  lemma {:induction false} WriterPriority(s: State, steps: seq<Step>, w: Tid)
    requires Safe(s) && Run(s, steps) && WaitsThroughout(s, steps, w)
    ensures var f := Final(s, steps);
      Holders(f.threads, Reader) <= Holders(s.threads, Reader) && f.lock.readers <= s.lock.readers
    decreases |steps|
  {
    if steps != [] {
      NoNewReader(s, steps[0], w);
      SafeStep(s, steps[0]);
      WriterPriority(Next(s, steps[0]), steps[1..], w);
    }
    SafeRun(s, steps);
    SubsetSize(Holders(Final(s, steps).threads, Reader), Holders(s.threads, Reader));
  }

  // ----- What timeouts break -----

  /** The lock is free and some thread sleeps, yet no thread is awake to do anything about it. */
  ghost predicate Stuck(s: State) {
    && Free(s.lock)
    && (exists t :: t in s.threads && s.threads[t].Waiting?)
    && forall t :: t in s.threads ==> s.threads[t].Idle? || (s.threads[t].Waiting? && s.threads[t].phase == Asleep)
  }

  ghost predicate Three(s: State, wr: int, ww: int, rd: int, x: Thread, y: Thread, z: Thread) {
    && s.lock.waitingReaders == wr && s.lock.waitingWriters == ww && s.lock.readers == rd && s.lock.writers == 0
    && s.threads.Keys == {0, 1, 2} && s.threads[0] == x && s.threads[1] == y && s.threads[2] == z
  }

  /** One step of a run. */
  ghost predicate Leads(s: State, step: Step, n: State) {
    Enabled(s, step) && Next(s, step) == n
  }

  lemma Preceded(s: State, step: Step, n: State, steps: seq<Step>) returns (all: seq<Step>)
    requires Leads(s, step, n) && Run(n, steps)
    ensures Run(s, all) && Final(s, all) == Final(n, steps)
  {
    all := [step] + steps;
    assert all[1..] == steps;
  }

  lemma Beginning() returns (s: State)
    ensures Initial(s) && Three(s, 0, 0, 0, Idle, Idle, Idle)
  {
    s := State(Unlocked(), map[0 := Idle, 1 := Idle, 2 := Idle]);
  }

  lemma ReaderTakes(s: State, rd: int) returns (n: State)
    requires Three(s, 0, 0, rd, Idle, Idle, Idle)
    ensures Leads(s, Lock(0, Reader, false), n) && Three(n, 0, 0, rd + 1, Holding(Reader), Idle, Idle)
  {
    n := Next(s, Lock(0, Reader, false));
  }

  lemma WriterQueues(s: State, rd: int, x: Thread) returns (n: State)
    requires Three(s, 0, 0, rd, x, Idle, Idle) && rd > 0
    ensures Leads(s, Lock(1, Writer, true), n) && Three(n, 0, 1, rd, x, Waiting(Writer, true, Asleep), Idle)
  {
    n := Next(s, Lock(1, Writer, true));
  }

  // A reader holds, a timed writer queues, a second reader queues behind it; the writer gives
  // up, the first reader leaves.
  lemma ReaderQueues(s: State, rd: int, x: Thread, y: Thread) returns (n: State)
    requires Three(s, 0, 1, rd, x, y, Idle)
    ensures Leads(s, Lock(2, Reader, false), n) && Three(n, 1, 1, rd, x, y, Waiting(Reader, false, Asleep))
  {
    n := Next(s, Lock(2, Reader, false));
  }

  lemma WriterGivesUp(s: State, rd: int, x: Thread, z: Thread) returns (m: State, n: State)
    requires Three(s, 1, 1, rd, x, Waiting(Writer, true, Asleep), z)
    ensures Leads(s, Expire(1), m) && Leads(m, Resume(1), n) && Three(n, 1, 0, rd, x, Idle, z)
  {
    m := Next(s, Expire(1));
    n := Next(m, Resume(1));
  }

  lemma ReaderLeaves(s: State, rd: int, z: Thread) returns (n: State)
    requires Three(s, 1, 0, rd, Holding(Reader), Idle, z) && z.Waiting?
    ensures Leads(s, Unlock(0, {}), n) && Three(n, 1, 0, rd - 1, Idle, Idle, z)
  {
    n := Next(s, Unlock(0, {}));
  }

  lemma GiveUpRun(s: State, rd: int) returns (steps: seq<Step>)
    requires Three(s, 1, 1, rd, Holding(Reader), Waiting(Writer, true, Asleep), Waiting(Reader, false, Asleep))
    ensures Run(s, steps) && Three(Final(s, steps), 1, 0, rd - 1, Idle, Idle, Waiting(Reader, false, Asleep))
  {
    var m, n := WriterGivesUp(s, rd, Holding(Reader), Waiting(Reader, false, Asleep));
    var l := ReaderLeaves(n, rd, Waiting(Reader, false, Asleep));
    steps := Preceded(n, Unlock(0, {}), l, []);
    steps := Preceded(m, Resume(1), n, steps);
    steps := Preceded(s, Expire(1), m, steps);
  }

  lemma QueueAndGiveUpRun(s: State, rd: int) returns (steps: seq<Step>)
    requires Three(s, 0, 0, rd, Holding(Reader), Idle, Idle) && rd > 0
    ensures Run(s, steps) && Three(Final(s, steps), 1, 0, rd - 1, Idle, Idle, Waiting(Reader, false, Asleep))
  {
    var m := WriterQueues(s, rd, Holding(Reader));
    var n := ReaderQueues(m, rd, Holding(Reader), Waiting(Writer, true, Asleep));
    steps := GiveUpRun(n, rd);
    steps := Preceded(m, Lock(2, Reader, false), n, steps);
    steps := Preceded(s, Lock(1, Writer, true), m, steps);
  }

  lemma StrandingRun(s: State, rd: int) returns (steps: seq<Step>)
    requires Three(s, 0, 0, rd, Idle, Idle, Idle) && rd >= 0
    ensures Run(s, steps) && Three(Final(s, steps), 1, 0, rd, Idle, Idle, Waiting(Reader, false, Asleep))
  {
    var n := ReaderTakes(s, rd);
    steps := QueueAndGiveUpRun(n, rd + 1);
    steps := Preceded(s, Lock(0, Reader, false), n, steps);
  }

  lemma SleepsAlone(f: State, wr: int, ww: int, rd: int, k: Kind)
    requires Three(f, wr, ww, rd, Idle, Idle, Waiting(k, false, Asleep)) && rd == 0
    ensures Stuck(f) && Sleeps(f.threads, 2, k)
    ensures k == Writer ==> !WriterHeard(f)
    ensures k == Reader && ww == 0 ==> !ReaderHeard(f)
  {
    assert Sleeps(f.threads, 2, k);
  }

  /** A timed-out writer can leave a reader asleep beside a free lock with nobody to wake it. */
  lemma StrandedReader() returns (s: State, steps: seq<Step>)
    ensures Initial(s) && Run(s, steps) && Stuck(Final(s, steps)) && !ReaderHeard(Final(s, steps))
  {
    s := Beginning();
    steps := StrandingRun(s, 0);
    SleepsAlone(Final(s, steps), 1, 0, 0, Reader);
  }

  // A reader holds, a timed writer and a patient one queue; the timed one expires, consumes the
  // signal of the reader's unlock, and gives up.
  lemma SecondWriterQueues(s: State, rd: int, x: Thread, y: Thread) returns (n: State)
    requires Three(s, 0, 1, rd, x, y, Idle) && rd > 0
    ensures Leads(s, Lock(2, Writer, false), n) && Three(n, 0, 2, rd, x, y, Waiting(Writer, false, Asleep))
  {
    n := Next(s, Lock(2, Writer, false));
  }

  lemma WriterExpires(s: State, rd: int, x: Thread, z: Thread) returns (n: State)
    requires Three(s, 0, 2, rd, x, Waiting(Writer, true, Asleep), z)
    ensures Leads(s, Expire(1), n) && Three(n, 0, 2, rd, x, Waiting(Writer, true, Expired), z)
  {
    n := Next(s, Expire(1));
  }

  lemma SignalLost(s: State, rd: int, z: Thread) returns (n: State)
    requires Three(s, 0, 2, rd, Holding(Reader), Waiting(Writer, true, Expired), z)
    ensures Leads(s, Unlock(0, {1}), n) && Three(n, 0, 2, rd - 1, Idle, Waiting(Writer, true, Expired), z)
  {
    assert HasExpired(s.threads, 1, Writer);
    n := Next(s, Unlock(0, {1}));
  }

  lemma ExpiredLeaves(s: State, rd: int, z: Thread) returns (n: State)
    requires Three(s, 0, 2, rd, Idle, Waiting(Writer, true, Expired), z)
    ensures Leads(s, Resume(1), n) && Three(n, 0, 1, rd, Idle, Idle, z)
  {
    n := Next(s, Resume(1));
  }

  lemma LosingRun(s: State, rd: int, z: Thread) returns (steps: seq<Step>)
    requires Three(s, 0, 2, rd, Holding(Reader), Waiting(Writer, true, Asleep), z)
    ensures Run(s, steps) && Three(Final(s, steps), 0, 1, rd - 1, Idle, Idle, z)
  {
    var k := WriterExpires(s, rd, Holding(Reader), z);
    var l := SignalLost(k, rd, z);
    var m := ExpiredLeaves(l, rd - 1, z);
    steps := Preceded(l, Resume(1), m, []);
    steps := Preceded(k, Unlock(0, {1}), l, steps);
    steps := Preceded(s, Expire(1), k, steps);
  }

  lemma QueueAndLoseRun(s: State, rd: int) returns (steps: seq<Step>)
    requires Three(s, 0, 0, rd, Holding(Reader), Idle, Idle) && rd > 0
    ensures Run(s, steps) && Three(Final(s, steps), 0, 1, rd - 1, Idle, Idle, Waiting(Writer, false, Asleep))
  {
    var m := WriterQueues(s, rd, Holding(Reader));
    var n := SecondWriterQueues(m, rd, Holding(Reader), Waiting(Writer, true, Asleep));
    steps := LosingRun(n, rd, Waiting(Writer, false, Asleep));
    steps := Preceded(m, Lock(2, Writer, false), n, steps);
    steps := Preceded(s, Lock(1, Writer, true), m, steps);
  }

  lemma LostSignalRun(s: State, rd: int) returns (steps: seq<Step>)
    requires Three(s, 0, 0, rd, Idle, Idle, Idle) && rd >= 0
    ensures Run(s, steps) && Three(Final(s, steps), 0, 1, rd, Idle, Idle, Waiting(Writer, false, Asleep))
  {
    var n := ReaderTakes(s, rd);
    steps := QueueAndLoseRun(n, rd + 1);
    steps := Preceded(s, Lock(0, Reader, false), n, steps);
  }

  /** A timed-out writer can consume the signal meant for another and leave it asleep beside a
      free lock with nobody to wake it. */
  lemma StrandedWriter() returns (s: State, steps: seq<Step>)
    ensures Initial(s) && Run(s, steps) && Stuck(Final(s, steps)) && !WriterHeard(Final(s, steps))
  {
    s := Beginning();
    steps := LostSignalRun(s, 0);
    SleepsAlone(Final(s, steps), 0, 1, 0, Writer);
  }
}
