/** The table and its striped reader-writer locks together: a thread enters the lock of its slot's
    stripe, may block there until an unlock wakes it or it wakes by itself, tries again, works on
    the list, and unlocks. That no two calls clash in a list is here not assumed but follows from
    the locks, as does that no call sleeps on for want of a wakeup. */
module StripedTable {
  import opened RwLock
  import opened TableModel
  import R = RwProtocol
  import T = TableProtocol

  /** A call whose thread waits for its stripe's lock. */
  datatype Wait = Wait(call: T.Call, phase: R.Phase)

  /** The table, the calls that wait, and the lock counters of each stripe. */
  datatype System = System(table: T.State, queued: map<nat, Wait>, locks: seq<Counters>)

  /** woken: the waiters that the returning call's unlock wakes. */
  datatype Action =
    | Enter(t: nat, call: T.Call)
    | Wake(t: nat)
    | Retry(t: nat)
    | Work(t: nat)
    | Return(t: nat, woken: set<nat>)

  function KindOf(call: T.Call): Kind { if call.Insert? then Writer else Reader }

  function Stripe(s: System, call: T.Call): (i: nat)
    requires |s.table.chains| > 0
    ensures i < T.NUM_LOCKS
  {
    T.SlotOf(call, |s.table.chains|) % T.NUM_LOCKS
  }

  ghost predicate WaitsOutside(s: System, t: nat)
    requires |s.table.chains| > 0 && t in s.queued
  {
    && t in s.table.threads && s.table.threads[t].Idle?
    && s.queued[t].phase != R.Expired && Fits(s.queued[t].call.key, |s.table.chains|)
  }

  ghost predicate Shaped(s: System) {
    && |s.table.chains| > 0 && |s.locks| == T.NUM_LOCKS
    && forall t :: t in s.queued ==> WaitsOutside(s, t)
  }

  // ----- each stripe seen as one reader-writer lock -----

  /** How thread t stands to the lock of stripe i. */
  function View(s: System, t: nat, i: nat): R.Thread
    requires |s.table.chains| > 0 && t in s.table.threads
  {
    if t in s.queued then
      var w := s.queued[t];
      if Stripe(s, w.call) == i then R.Waiting(KindOf(w.call), false, w.phase) else R.Idle
    else
      var p := s.table.threads[t];
      if p.Idle? || Stripe(s, p.call) != i then R.Idle else R.Holding(KindOf(p.call))
  }

  function Views(s: System, i: nat): map<nat, R.Thread>
    requires |s.table.chains| > 0
  {
    map t | t in s.table.threads :: View(s, t, i)
  }

  function LockOf(s: System, i: nat): R.State
    requires |s.table.chains| > 0 && i < |s.locks|
  {
    R.State(s.locks[i], Views(s, i))
  }

  // ----- steps -----

  /** What a thread's own state allows, and whom its unlock may wake; that the other threads' work
      does not clash with its own is not asked. */
  ghost predicate Allowed(s: System, a: Action)
    requires Shaped(s)
  {
    && a.t in s.table.threads
    && match a
       case Enter(t, call) =>
         s.table.threads[t].Idle? && t !in s.queued && Fits(call.key, |s.table.chains|)
       case Wake(t) => t in s.queued && s.queued[t].phase == R.Asleep
       case Retry(t) => t in s.queued && s.queued[t].phase == R.Awake
       case Work(t) => s.table.threads[t].Walking? || s.table.threads[t].Linking?
       case Return(t, woken) =>
         && s.table.threads[t].Leaving?
         && R.Enabled(LockOf(s, Stripe(s, s.table.threads[t].call)), R.Unlock(t, woken))
  }

  function Started(s: T.State, t: nat, call: T.Call): T.State {
    s.(threads := s.threads[t := T.Walking(call, |s.log|, 0)], log := s.log + [call])
  }

  /** A thread that has taken its lock starts on its list; one that has not sleeps. */
  function Admitted(s: System, t: nat, call: T.Call, c: Counters, o: Outcome): System
    requires Shaped(s) && t in s.table.threads && s.table.threads[t].Idle?
  {
    var locks := s.locks[Stripe(s, call) := c];
    if o == Acquires then System(Started(s.table, t, call), s.queued - {t}, locks)
    else System(s.table, s.queued[t := Wait(call, R.Asleep)], locks)
  }

  function WorkMove(s: System, t: nat): T.Move
    requires t in s.table.threads
  {
    if s.table.threads[t].Linking? then T.Link(t) else T.Look(t)
  }

  /** Of the calls asleep on stripe i, those woken are awake. */
  function Stirred(s: System, woken: set<nat>, i: nat): map<nat, Wait>
    requires |s.table.chains| > 0
  {
    map t | t in s.queued ::
      if t in woken && s.queued[t].phase == R.Asleep && Stripe(s, s.queued[t].call) == i
      then s.queued[t].(phase := R.Awake)
      else s.queued[t]
  }

  function After(s: System, a: Action): System
    requires Shaped(s) && Allowed(s, a)
  {
    match a
    case Enter(t, call) =>
      var (c, o) := AfterEnter(KindOf(call), s.locks[Stripe(s, call)]);
      Admitted(s, t, call, c, o)
    case Wake(t) => s.(queued := s.queued[t := s.queued[t].(phase := R.Awake)])
    case Retry(t) =>
      var call := s.queued[t].call;
      var (c, o) := AfterResume(KindOf(call), s.locks[Stripe(s, call)], false);
      Admitted(s, t, call, c, o)
    case Work(t) => s.(table := T.Next(s.table, WorkMove(s, t)))
    case Return(t, woken) =>
      var i := Stripe(s, s.table.threads[t].call);
      var c := AfterUnlock(KindOf(s.table.threads[t].call), s.locks[i]).0;
      System(T.Next(s.table, T.Unlock(t)), Stirred(s, woken, i), s.locks[i := c])
  }

  // ----- a step of the system is a step of one lock, and leaves the others alone -----

  ghost predicate SameThread(s: System, n: System, u: nat)
    requires u in s.table.threads && u in n.table.threads
  {
    && n.table.threads[u] == s.table.threads[u] && (u in n.queued <==> u in s.queued)
    && (u in s.queued && u in n.queued ==> n.queued[u] == s.queued[u])
  }

  /** No thread but t differs. */
  ghost predicate OnlyMoves(s: System, n: System, t: nat) {
    && |n.table.chains| == |s.table.chains| > 0 && |n.locks| == |s.locks|
    && t in s.table.threads && n.table.threads.Keys == s.table.threads.Keys
    && forall u :: u in s.table.threads && u != t ==> SameThread(s, n, u)
  }

  lemma ViewsMove(s: System, n: System, t: nat, j: nat)
    requires OnlyMoves(s, n, t)
    ensures Views(n, j) == Views(s, j)[t := View(n, t, j)]
  {
    forall u | u in s.table.threads && u != t
      ensures View(n, u, j) == View(s, u, j)
    {
      assert SameThread(s, n, u);
    }
  }

  lemma ViewsStay(s: System, n: System, t: nat, j: nat)
    requires OnlyMoves(s, n, t) && View(n, t, j) == View(s, t, j)
    ensures Views(n, j) == Views(s, j)
  {
    ViewsMove(s, n, t, j);
    assert Views(s, j)[t := View(s, t, j)] == Views(s, j);
  }

  /** A thread outside or waiting takes its lock or goes on waiting. */
  lemma AdmittedLocks(s: System, t: nat, call: T.Call, c: Counters, o: Outcome, j: nat)
    requires Shaped(s) && t in s.table.threads && s.table.threads[t].Idle? && o != TimesOut && j < T.NUM_LOCKS
    requires t in s.queued ==> s.queued[t].call == call
    ensures var i, n := Stripe(s, call), Admitted(s, t, call, c, o);
      && |n.table.chains| > 0 && |n.locks| == |s.locks|
      && (j != i ==> LockOf(n, j) == LockOf(s, j))
      && (j == i ==> LockOf(n, j) == R.State(c, Views(s, i)[t := R.Became(KindOf(call), false, o)]))
  {
    var n := Admitted(s, t, call, c, o);
    if j == Stripe(s, call) {
      ViewsMove(s, n, t, j);
    } else {
      ViewsStay(s, n, t, j);
    }
  }

  /** A step of work moves only its thread, which goes on with the same call. */
  lemma WorkKeepsCall(s: T.State, t: nat, m: T.Move)
    requires |s.chains| > 0 && (m == T.Look(t) || m == T.Link(t)) && T.Enabled(s, m)
    ensures var n := T.Next(s, m);
      && |n.chains| == |s.chains| && n.threads == s.threads[t := n.threads[t]]
      && !n.threads[t].Idle? && n.threads[t].call == s.threads[t].call
  {
  }

  lemma WorkLocks(s: System, t: nat, j: nat)
    requires Shaped(s) && Allowed(s, Work(t)) && j < T.NUM_LOCKS
    ensures var n := After(s, Work(t)); |n.table.chains| > 0 && |n.locks| == |s.locks| && LockOf(n, j) == LockOf(s, j)
  {
    WorkKeepsCall(s.table, t, WorkMove(s, t));
    ViewsStay(s, After(s, Work(t)), t, j);
  }

  lemma WakeLocks(s: System, t: nat, j: nat)
    requires Shaped(s) && Allowed(s, Wake(t)) && j < T.NUM_LOCKS
    ensures var n, i := After(s, Wake(t)), Stripe(s, s.queued[t].call);
      && R.Enabled(LockOf(s, i), R.Spurious(t))
      && LockOf(n, j) == if j == i then R.Next(LockOf(s, i), R.Spurious(t)) else LockOf(s, j)
  {
    var n := After(s, Wake(t));
    if j == Stripe(s, s.queued[t].call) {
      ViewsMove(s, n, t, j);
    } else {
      ViewsStay(s, n, t, j);
    }
  }

  /** Thread t is back from its call, and the sleepers that it woke are awake. */
  ghost predicate Returned(s: System, n: System, t: nat, woken: set<nat>) {
    && |n.table.chains| == |s.table.chains| > 0
    && t in s.table.threads && !s.table.threads[t].Idle? && t !in s.queued
    && n.table.threads == s.table.threads[t := T.Idle]
    && n.queued == Stirred(s, woken, Stripe(s, s.table.threads[t].call))
  }

  lemma ReturnedView(s: System, n: System, t: nat, woken: set<nat>, j: nat, u: nat)
    requires Returned(s, n, t, woken) && u in s.table.threads
    ensures j != Stripe(s, s.table.threads[t].call) ==> View(n, u, j) == View(s, u, j)
    ensures j == Stripe(s, s.table.threads[t].call) ==>
      View(n, u, j) == R.Woken(Views(s, j)[t := R.Idle], woken)[u]
  {
  }

  lemma ReturnedViews(s: System, n: System, t: nat, woken: set<nat>, j: nat)
    requires Returned(s, n, t, woken)
    ensures Views(n, j) == if j == Stripe(s, s.table.threads[t].call) then R.Woken(Views(s, j)[t := R.Idle], woken)
                           else Views(s, j)
  {
    forall u | u in s.table.threads {
      ReturnedView(s, n, t, woken, j, u);
    }
  }

  lemma ReturnLocks(s: System, t: nat, woken: set<nat>, j: nat)
    requires Shaped(s) && Allowed(s, Return(t, woken)) && j < T.NUM_LOCKS
    ensures var n, i := After(s, Return(t, woken)), Stripe(s, s.table.threads[t].call);
      && |n.table.chains| > 0 && |n.locks| == |s.locks|
      && LockOf(n, j) == if j == i then R.Next(LockOf(s, i), R.Unlock(t, woken)) else LockOf(s, j)
  {
    assert t !in s.queued;
    ReturnedViews(s, After(s, Return(t, woken)), t, woken, j);
    if j == Stripe(s, s.table.threads[t].call) {
      assert Views(s, j)[t] == R.Holding(KindOf(s.table.threads[t].call));
    }
  }

  function StripeOf(s: System, a: Action): (i: nat)
    requires Shaped(s) && Allowed(s, a)
    ensures i < T.NUM_LOCKS
  {
    match a
    case Enter(_, call) => Stripe(s, call)
    case Wake(t) => Stripe(s, s.queued[t].call)
    case Retry(t) => Stripe(s, s.queued[t].call)
    case Work(t) => Stripe(s, s.table.threads[t].call)
    case Return(t, _) => Stripe(s, s.table.threads[t].call)
  }

  /** The step of the stripe's lock; work takes none. */
  function LockStep(s: System, a: Action): R.Step
    requires !a.Work?
  {
    match a
    case Enter(t, call) => R.Lock(t, KindOf(call), false)
    case Wake(t) => R.Spurious(t)
    case Retry(t) => R.Resume(t)
    case Return(t, woken) => R.Unlock(t, woken)
  }

  lemma LocksStep(s: System, a: Action, j: nat)
    requires Shaped(s) && Allowed(s, a) && j < T.NUM_LOCKS
    ensures var n := After(s, a);
      && |n.table.chains| > 0 && |n.locks| == |s.locks|
      && (a.Work? || j != StripeOf(s, a) ==> LockOf(n, j) == LockOf(s, j))
      && (!a.Work? && j == StripeOf(s, a) ==>
            R.Enabled(LockOf(s, j), LockStep(s, a)) && LockOf(n, j) == R.Next(LockOf(s, j), LockStep(s, a)))
  {
    match a
    case Enter(t, call) =>
      var (c, o) := AfterEnter(KindOf(call), s.locks[Stripe(s, call)]);
      AdmittedLocks(s, t, call, c, o, j);
    case Wake(t) => WakeLocks(s, t, j);
    case Retry(t) =>
      var call := s.queued[t].call;
      var (c, o) := AfterResume(KindOf(call), s.locks[Stripe(s, call)], false);
      AdmittedLocks(s, t, call, c, o, j);
    case Work(t) => WorkLocks(s, t, j);
    case Return(t, woken) => ReturnLocks(s, t, woken, j);
  }

  // ----- the invariant -----

  ghost predicate HeardAt(s: System, i: nat)
    requires Shaped(s) && i < T.NUM_LOCKS
  {
    R.AllHeard(LockOf(s, i))
  }

  /** The counters of every stripe count its threads, every lock is exclusive, and no call sleeps
      on a lock that nobody will wake it for. */
  ghost predicate Inv(s: System) {
    Shaped(s) && forall i :: 0 <= i < T.NUM_LOCKS ==> HeardAt(s, i)
  }

  lemma WaitsOn(s: System, a: Action, u: nat)
    requires Shaped(s) && Allowed(s, a) && u in After(s, a).queued
    requires |After(s, a).table.chains| == |s.table.chains|
    ensures WaitsOutside(After(s, a), u)
  {
    assert u in s.queued ==> WaitsOutside(s, u);
  }

  lemma StepSizes(s: System, a: Action)
    requires Shaped(s) && Allowed(s, a)
    ensures |After(s, a).table.chains| == |s.table.chains| && |After(s, a).locks| == |s.locks|
  {
  }

  lemma StepShaped(s: System, a: Action)
    requires Shaped(s) && Allowed(s, a)
    ensures Shaped(After(s, a))
  {
    StepSizes(s, a);
    forall u | u in After(s, a).queued {
      WaitsOn(s, a, u);
    }
  }

  lemma StepInv(s: System, a: Action)
    requires Inv(s) && Allowed(s, a)
    ensures Inv(After(s, a))
  {
    StepShaped(s, a);
    forall j | 0 <= j < T.NUM_LOCKS
      ensures HeardAt(After(s, a), j)
    {
      assert HeardAt(s, j);
      LocksStep(s, a, j);
      if !a.Work? && j == StripeOf(s, a) {
        R.AllHeardStep(LockOf(s, j), LockStep(s, a));
      }
    }
  }

  /** A lock that can be taken finds no thread at work in its stripe that would clash. */
  lemma TakenAlone(s: System, call: T.Call, u: nat)
    requires Inv(s) && u in s.table.threads
    requires !Waits(KindOf(call), s.locks[Stripe(s, call)])
    ensures T.Compatible(s.table.threads[u], T.Walking(call, 0, 0), |s.table.chains|)
  {
    var i := Stripe(s, call);
    assert HeardAt(s, i);
    if !s.table.threads[u].Idle? && Stripe(s, s.table.threads[u].call) == i {
      assert u !in s.queued;
      R.HolderCounted(LockOf(s, i), u);
    }
  }

  // ----- who is admitted -----

  /** The slots of the two calls are guarded by one lock. */
  ghost predicate ShareLock(s: System, a: T.Call, b: T.Call)
    requires |s.table.chains| > 0
  {
    T.SlotOf(a, |s.table.chains|) % T.NUM_LOCKS == T.SlotOf(b, |s.table.chains|) % T.NUM_LOCKS
  }

  ghost predicate WorksHere(s: System, u: nat, call: T.Call)
    requires |s.table.chains| > 0 && u in s.table.threads
  {
    !s.table.threads[u].Idle? && ShareLock(s, s.table.threads[u].call, call)
  }

  /** A call at work under this call's lock excludes it: one of the two inserts. */
  ghost predicate Excludes(s: System, u: nat, call: T.Call)
    requires |s.table.chains| > 0 && u in s.table.threads
  {
    WorksHere(s, u, call) && (s.table.threads[u].call.Insert? || call.Insert?)
  }

  /** An insertion waits for this call's lock. */
  ghost predicate InsertWaits(s: System, u: nat, call: T.Call)
    requires |s.table.chains| > 0 && u in s.queued
  {
    s.queued[u].call.Insert? && ShareLock(s, s.queued[u].call, call)
  }

  /** No call at work excludes this one and, if it is a lookup, no insertion waits before it. */
  ghost predicate Admissible(s: System, call: T.Call)
    requires |s.table.chains| > 0
  {
    && (forall u :: u in s.table.threads ==> !Excludes(s, u, call))
    && (call.Find? ==> forall u :: u in s.queued ==> !InsertWaits(s, u, call))
  }

  ghost predicate MayTry(s: System, a: Action) {
    Shaped(s) && Allowed(s, a) && (a.Enter? || a.Retry?)
  }

  function CallOf(s: System, a: Action): T.Call
    requires (a.Enter? || a.Retry?) && (a.Retry? ==> a.t in s.queued)
  {
    if a.Enter? then a.call else s.queued[a.t].call
  }

  lemma HoldersHere(s: System, call: T.Call, k: Kind)
    requires Inv(s)
    ensures var i := Stripe(s, call);
      |R.Holders(Views(s, i), k)| > 0 <==>
      exists u :: u in s.table.threads && WorksHere(s, u, call) && s.table.threads[u].call.Insert? == (k == Writer)
  {
    var hs := R.Holders(Views(s, Stripe(s, call)), k);
    if |hs| > 0 {
      var u :| u in hs;
      assert WorksHere(s, u, call);
    }
    if u :| u in s.table.threads && WorksHere(s, u, call) && s.table.threads[u].call.Insert? == (k == Writer) {
      assert u !in s.queued;
      assert u in hs;
    }
  }

  lemma WritersWaitHere(s: System, call: T.Call)
    requires Inv(s)
    ensures var i := Stripe(s, call);
      |R.Waiters(Views(s, i), Writer)| > 0 <==> exists u :: u in s.queued && InsertWaits(s, u, call)
  {
    var ws := R.Waiters(Views(s, Stripe(s, call)), Writer);
    if |ws| > 0 {
      var u :| u in ws;
      assert InsertWaits(s, u, call);
    }
    if u :| u in s.queued && InsertWaits(s, u, call) {
      assert WaitsOutside(s, u);
      assert u in ws;
    }
  }

  lemma WaitsExactly(s: System, call: T.Call)
    requires Inv(s)
    ensures Waits(KindOf(call), s.locks[Stripe(s, call)]) <==> !Admissible(s, call)
  {
    assert HeardAt(s, Stripe(s, call));
    HoldersHere(s, call, Reader);
    HoldersHere(s, call, Writer);
    WritersWaitHere(s, call);
    forall u | u in s.table.threads && WorksHere(s, u, call)
      ensures s.table.threads[u].call.Insert? || call.Insert? ==> Excludes(s, u, call)
    {
    }
  }

  /** A call is let in, on entry or when it tries again, exactly when no call at work excludes it
      and no insertion goes before it. */
  lemma LetInExactly(s: System, a: Action)
    requires Inv(s) && MayTry(s, a)
    ensures a.t !in After(s, a).queued <==> Admissible(s, CallOf(s, a))
  {
    WaitsExactly(s, CallOf(s, a));
  }

  // ----- nobody is forgotten -----

  /** A step that brings a call on: it takes its lock, works on its list, or returns. */
  ghost predicate Progress(s: System, a: Action)
    requires Shaped(s)
  {
    Allowed(s, a) && !a.Enter? && !a.Wake? && (a.Retry? ==> a.t !in After(s, a).queued)
  }

  ghost predicate WaitsByFreeLock(s: System, t: nat) {
    Shaped(s) && t in s.queued && R.Free(s.locks[Stripe(s, s.queued[t].call)])
  }

  /** Call u, of the same stripe as call t, has been woken and takes the lock when it next runs. */
  ghost predicate MovesUp(s: System, t: nat, u: nat) {
    && Shaped(s) && t in s.queued && u in s.queued && s.queued[u].phase == R.Awake
    && Stripe(s, s.queued[u].call) == Stripe(s, s.queued[t].call) && Progress(s, Retry(u))
  }

  lemma FreeLockTaken(s: System, t: nat) returns (u: nat)
    requires Inv(s) && WaitsByFreeLock(s, t)
    ensures MovesUp(s, t, u)
  {
    var i := Stripe(s, s.queued[t].call);
    assert HeardAt(s, i) && WaitsOutside(s, t);
    assert t in R.Waiters(Views(s, i), KindOf(s.queued[t].call));
    R.CountsNonnegative(LockOf(s, i));
    u := R.FreeLockMoves(LockOf(s, i));
    assert WaitsOutside(s, u);
    LocksStep(s, Retry(u), i);
    assert View(After(s, Retry(u)), u, i) == LockOf(After(s, Retry(u)), i).threads[u];
  }

  lemma NoHolders(s: System, i: nat)
    requires Inv(s) && i < T.NUM_LOCKS && T.Quiet(s.table)
    ensures R.Free(s.locks[i])
  {
    assert HeardAt(s, i);
    assert R.Holders(Views(s, i), Reader) == {} && R.Holders(Views(s, i), Writer) == {};
  }

  lemma WorkerMoves(s: System, t: nat) returns (a: Action)
    requires Inv(s) && t in s.table.threads && !s.table.threads[t].Idle?
    ensures Progress(s, a)
  {
    if s.table.threads[t].Leaving? {
      assert t !in s.queued;
      var woken := R.MayUnlock(LockOf(s, Stripe(s, s.table.threads[t].call)), t);
      a := Return(t, woken);
    } else {
      a := Work(t);
    }
  }

  lemma SomeoneMoves(s: System) returns (a: Action)
    requires Inv(s) && (!T.Quiet(s.table) || s.queued != map[])
    ensures Progress(s, a)
  {
    if t :| t in s.table.threads && !s.table.threads[t].Idle? {
      a := WorkerMoves(s, t);
    } else {
      var t :| t in s.queued;
      NoHolders(s, Stripe(s, s.queued[t].call));
      var u := FreeLockTaken(s, t);
      a := Retry(u);
    }
  }

  // ----- the table's own steps -----

  /** What the action does to the table: nothing, or one of its steps. */
  function Moves(s: System, a: Action): seq<T.Move>
    requires Shaped(s) && Allowed(s, a)
  {
    match a
    case Enter(t, call) => if Waits(KindOf(call), s.locks[Stripe(s, call)]) then [] else [T.Lock(t, call)]
    case Wake(_) => []
    case Retry(t) =>
      var call := s.queued[t].call;
      if Waits(KindOf(call), s.locks[Stripe(s, call)]) then [] else [T.Lock(t, call)]
    case Work(t) => [WorkMove(s, t)]
    case Return(t, _) => [T.Unlock(t)]
  }

  lemma TakenMayLock(s: System, t: nat, call: T.Call)
    requires Inv(s) && t in s.table.threads && s.table.threads[t].Idle?
    requires Fits(call.key, |s.table.chains|) && !Waits(KindOf(call), s.locks[Stripe(s, call)])
    ensures T.Enabled(s.table, T.Lock(t, call))
  {
    forall u | u in s.table.threads
      ensures T.Compatible(s.table.threads[u], T.Walking(call, 0, 0), |s.table.chains|)
    {
      TakenAlone(s, call, u);
    }
  }

  /** The locks admit a call only where the table allows it. */
  lemma StepRefines(s: System, a: Action)
    requires Inv(s) && Allowed(s, a)
    ensures var ms, n := Moves(s, a), After(s, a).table;
      if ms == [] then n == s.table else |ms| == 1 && T.Enabled(s.table, ms[0]) && n == T.Next(s.table, ms[0])
  {
    match a
    case Enter(t, call) => if Moves(s, a) != [] { TakenMayLock(s, t, call); }
    case Wake(_) =>
    case Retry(t) =>
      assert WaitsOutside(s, t);
      if Moves(s, a) != [] { TakenMayLock(s, t, s.queued[t].call); }
    case Work(_) =>
    case Return(_, _) =>
  }

  ghost predicate Runs(s: System, acts: seq<Action>)
    requires Inv(s)
    decreases acts
  {
    acts == [] || (Allowed(s, acts[0]) && (StepInv(s, acts[0]); Runs(After(s, acts[0]), acts[1..])))
  }

  ghost function End(s: System, acts: seq<Action>): System
    requires Inv(s) && Runs(s, acts)
    decreases acts
  {
    if acts == [] then s else
      StepInv(s, acts[0]);
      End(After(s, acts[0]), acts[1..])
  }

  /** Every run under the locks is a run of the table with its mutual exclusion assumed. */
  lemma {:induction false} RunRefines(s: System, acts: seq<Action>) returns (ms: seq<T.Move>)
    requires Inv(s) && Runs(s, acts)
    ensures T.Follows(s.table, ms) && T.After(s.table, ms) == End(s, acts).table
    decreases acts
  {
    if acts == [] {
      ms := [];
    } else {
      StepInv(s, acts[0]);
      StepRefines(s, acts[0]);
      var first := Moves(s, acts[0]);
      var rest := RunRefines(After(s, acts[0]), acts[1..]);
      ms := first + rest;
      if first == [] {
        assert ms == rest;
      } else {
        assert ms[0] == first[0] && ms[1..] == rest;
      }
    }
  }

  ghost predicate Begins(s: System) {
    && T.Begins(s.table) && s.queued == map[] && |s.locks| == T.NUM_LOCKS
    && forall i :: 0 <= i < T.NUM_LOCKS ==> s.locks[i] == Unlocked()
  }

  lemma BeginsInv(s: System)
    requires Begins(s)
    ensures Inv(s)
  {
    forall i | 0 <= i < T.NUM_LOCKS
      ensures HeardAt(s, i)
    {
      R.InitialSafe(LockOf(s, i));
    }
  }

  ghost predicate RunsFromStart(s: System, acts: seq<Action>) {
    Begins(s) && (BeginsInv(s); Runs(s, acts))
  }

  ghost function Reached(s: System, acts: seq<Action>): System
    requires RunsFromStart(s, acts)
  {
    BeginsInv(s);
    End(s, acts)
  }

  lemma {:induction false} EndInv(s: System, acts: seq<Action>)
    requires Inv(s) && Runs(s, acts)
    ensures Inv(End(s, acts))
    decreases acts
  {
    if acts != [] {
      StepInv(s, acts[0]);
      EndInv(After(s, acts[0]), acts[1..]);
    }
  }

  /** Whenever in a run a call waits for a lock that is free, some waiting call of that stripe has
      been woken and takes the lock when it next runs. */
  lemma NobodyForgotten(s: System, acts: seq<Action>, t: nat) returns (u: nat)
    requires RunsFromStart(s, acts) && WaitsByFreeLock(Reached(s, acts), t)
    ensures MovesUp(Reached(s, acts), t, u)
  {
    BeginsInv(s);
    EndInv(s, acts);
    u := FreeLockTaken(Reached(s, acts), t);
  }

  /** In every reached state a call that enters or tries again takes its lock exactly when no call at
      work in a slot of that lock clashes with it and, for a lookup, no insertion into such a slot
      waits. */
  lemma AdmittedExactly(s: System, acts: seq<Action>, a: Action)
    requires RunsFromStart(s, acts) && MayTry(Reached(s, acts), a)
    ensures var r := Reached(s, acts); a.t !in After(r, a).queued <==> Admissible(r, CallOf(r, a))
  {
    BeginsInv(s);
    EndInv(s, acts);
    LetInExactly(Reached(s, acts), a);
  }

  /** No deadlock: until every call has returned, some call can move on without waking by itself. */
  lemma NoDeadlock(s: System, acts: seq<Action>) returns (a: Action)
    requires RunsFromStart(s, acts)
    requires !T.Quiet(Reached(s, acts).table) || Reached(s, acts).queued != map[]
    ensures Shaped(Reached(s, acts)) && Progress(Reached(s, acts), a)
  {
    BeginsInv(s);
    EndInv(s, acts);
    a := SomeoneMoves(Reached(s, acts));
  }

  /** Every run of calls under the striped locks answers as a finite map does when the calls run
      one at a time in the order in which they took their locks; when no thread is at work, the
      table holds that map. */
  lemma LockedLinearizable(s: System, m: map<Key, nat>, acts: seq<Action>)
    requires RunsFromStart(s, acts) && Represents(s.table.chains, m)
    ensures var r := Reached(s, acts).table;
      && (forall i :: i in r.results ==>
            i < |r.log| && r.results[i] == T.MapAnswer(T.MapAfter(m, r.log[..i]), r.log[i]))
      && (T.Quiet(r) ==> Represents(r.chains, T.MapAfter(m, r.log)))
  {
    BeginsInv(s);
    var ms := RunRefines(s, acts);
    T.Linearizable(s.table, m, ms);
    if T.Quiet(T.After(s.table, ms)) {
      T.AtRest(s.table, m, ms);
    }
  }
}
