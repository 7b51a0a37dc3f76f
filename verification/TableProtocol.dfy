/** Inserts and lookups by many threads at once, in a table that is not resized. A thread takes
    the striped lock of its slot, examines one node per step, links its new node, and unlocks;
    the steps of all threads interleave freely. */
module TableProtocol {
  import opened TableModel

  const NUM_LOCKS := 10000
  datatype Call = Insert(key: Key, val: nat) | Find(key: Key)

  /** Where a thread is: outside, at some node of its list, past the last node and about to link
      a new one there, or about to unlock and return. */
  datatype Pc =
    | Idle
    | Walking(call: Call, id: nat, pos: nat)
    | Linking(call: Call, id: nat, pos: nat)
    | Leaving(call: Call, id: nat, result: nat)

  /** The lists, the threads, the calls in the order in which they took their locks, and what
      the finished ones returned. */
  datatype State = State(chains: seq<Chain>, threads: map<nat, Pc>, log: seq<Call>, results: map<nat, int>)

  datatype Move = Lock(t: nat, call: Call) | Look(t: nat) | Link(t: nat) | Unlock(t: nat)

  function SlotOf(call: Call, size: int): nat
    requires size > 0
  {
    Slot(call.key, size)
  }

  predicate Compatible(p: Pc, q: Pc, size: int)
    requires size > 0
  {
    p.Idle? || q.Idle? || (p.call.Find? && q.call.Find?)
    || SlotOf(p.call, size) % NUM_LOCKS != SlotOf(q.call, size) % NUM_LOCKS
  }

  ghost predicate MayLock(s: State, call: Call)
    requires |s.chains| > 0
  {
    forall u :: u in s.threads ==> Compatible(s.threads[u], Walking(call, 0, 0), |s.chains|)
  }

  ghost predicate Enabled(s: State, m: Move)
    requires |s.chains| > 0
  {
    && m.t in s.threads
    && match m
       case Lock(t, call) => s.threads[t].Idle? && Fits(call.key, |s.chains|) && MayLock(s, call)
       case Look(t) => s.threads[t].Walking?
       case Link(t) => s.threads[t].Linking?
       case Unlock(t) => s.threads[t].Leaving?
  }

  /** What follows the pos-th node is overwritten by the link to the new one. */
  function LinkedAfter(c: Chain, pos: nat, e: Entry): Chain {
    (if pos <= |c| then c[..pos] else c) + [e]
  }

  /** One look at the list: at a node, or at its end. */
  function Looked(c: Chain, p: Pc): Pc
    requires p.Walking?
  {
    if p.pos < |c| then
      if c[p.pos].hash == Hash(p.call.key) && c[p.pos].key == p.call.key then
        Leaving(p.call, p.id, if p.call.Insert? then 1 else c[p.pos].val)
      else
        Walking(p.call, p.id, p.pos + 1)
    else if p.call.Insert? then
      Linking(p.call, p.id, p.pos)
    else
      Leaving(p.call, p.id, 0)
  }

  /** One step of one thread. */
  function Next(s: State, m: Move): State
    requires |s.chains| > 0 && Enabled(s, m)
  {
    match m
    case Lock(t, call) =>
      s.(threads := s.threads[t := Walking(call, |s.log|, 0)], log := s.log + [call])
    case Look(t) =>
      var p := s.threads[t];
      s.(threads := s.threads[t := Looked(s.chains[SlotOf(p.call, |s.chains|)], p)])
    case Link(t) =>
      var p := s.threads[t];
      var i := SlotOf(p.call, |s.chains|);
      var e := Stored(p.call.key, if p.call.Insert? then p.call.val else 0);
      s.(chains := s.chains[i := LinkedAfter(s.chains[i], p.pos, e)],
         threads := s.threads[t := Leaving(p.call, p.id, 0)])
    case Unlock(t) =>
      var p := s.threads[t];
      s.(threads := s.threads[t := Idle], results := s.results[p.id := p.result])
  }

  ghost predicate Begins(s: State) {
    && |s.chains| > 0 && s.log == [] && s.results == map[]
    && forall u :: u in s.threads ==> s.threads[u].Idle?
  }

  ghost predicate Follows(s: State, ms: seq<Move>)
    decreases ms
  {
    ms == [] || (|s.chains| > 0 && Enabled(s, ms[0]) && Follows(Next(s, ms[0]), ms[1..]))
  }

  function After(s: State, ms: seq<Move>): State
    requires Follows(s, ms)
    decreases ms
  {
    if ms == [] then s else After(Next(s, ms[0]), ms[1..])
  }

  // ----- one operation at a time -----

  function Apply(t: seq<Chain>, call: Call): (r: (seq<Chain>, int))
    requires |t| > 0
    ensures |r.0| == |t|
  {
    match call
    case Insert(k, v) => Inserted(t, k, v)
    case Find(k) => (t, Lookup(t, k))
  }

  function Replay(t: seq<Chain>, log: seq<Call>): (r: seq<Chain>)
    requires |t| > 0
    ensures |r| == |t|
  {
    if log == [] then t else Apply(Replay(t, log[..|log| - 1]), log[|log| - 1]).0
  }

  function Answer(t: seq<Chain>, log: seq<Call>, i: nat): int
    requires |t| > 0 && i < |log|
  {
    Apply(Replay(t, log[..i]), log[i]).1
  }

  lemma ReplayMore(t: seq<Chain>, log: seq<Call>, call: Call)
    requires |t| > 0
    ensures Replay(t, log + [call]) == Apply(Replay(t, log), call).0
    ensures Answer(t, log + [call], |log|) == Apply(Replay(t, log), call).1
    ensures forall i :: 0 <= i < |log| ==> Answer(t, log + [call], i) == Answer(t, log, i)
  {
    var more := log + [call];
    assert more[..|log|] == log;
    forall i | 0 <= i < |log|
      ensures Answer(t, more, i) == Answer(t, log, i)
    {
      assert more[..i] == log[..i];
    }
  }

  // ----- the invariant -----

  /** What the call will answer, and leave in its list, when it alone works on list c. */
  function Outcome(c: Chain, call: Call): (r: (Chain, int))
    ensures call.Find? ==> r.0 == c
  {
    var i := Seek(c, Hash(call.key), call.key);
    match call
    case Insert(k, v) => if i < |c| then (c, 1) else (c + [Stored(k, v)], 0)
    case Find(k) => (c, if i < |c| then c[i].val else 0)
  }

  lemma ApplyOutcome(t: seq<Chain>, call: Call)
    requires |t| > 0
    ensures var i := SlotOf(call, |t|);
      Apply(t, call).0 == t[i := Outcome(t[i], call).0] && Apply(t, call).1 == Outcome(t[i], call).1
  {
  }

  /** A thread at work will answer as the replay does, and its list is as the replay has it,
      save for what an insertion has still to link. */
  ghost predicate OnTrack(s: State, replay: seq<Chain>, t0: seq<Chain>, p: Pc)
    requires |s.chains| == |t0| == |replay| > 0
  {
    match p
    case Idle => true
    case Walking(call, id, pos) =>
      var i := SlotOf(call, |t0|);
      && id < |s.log|
      && pos <= Seek(s.chains[i], Hash(call.key), call.key)
      && Answer(t0, s.log, id) == Outcome(s.chains[i], call).1
      && (call.Insert? ==> replay[i] == Outcome(s.chains[i], call).0)
    case Linking(call, id, pos) =>
      var c := s.chains[SlotOf(call, |t0|)];
      && id < |s.log|
      && call.Insert?
      && pos == |c| == Seek(c, Hash(call.key), call.key)
      && Answer(t0, s.log, id) == Outcome(c, call).1
      && replay[SlotOf(call, |t0|)] == Outcome(c, call).0
    case Leaving(call, id, r) => id < |s.log| && Answer(t0, s.log, id) == r
  }

  predicate Inserting(p: Pc, slot: nat, size: int)
    requires size > 0
  {
    (p.Walking? || p.Linking?) && p.call.Insert? && SlotOf(p.call, size) == slot
  }

  ghost predicate SlotSettled(s: State, replay: seq<Chain>, slot: nat)
    requires |s.chains| == |replay| > 0 && slot < |replay|
  {
    s.chains[slot] == replay[slot] || exists u :: u in s.threads && Inserting(s.threads[u], slot, |replay|)
  }

  ghost predicate Excluded(s: State)
    requires |s.chains| > 0
  {
    forall u, w :: u in s.threads && w in s.threads && u != w ==>
      Compatible(s.threads[u], s.threads[w], |s.chains|)
  }

  ghost predicate AllOnTrack(s: State, replay: seq<Chain>, t0: seq<Chain>)
    requires |s.chains| == |t0| == |replay| > 0
  {
    forall u :: u in s.threads ==> OnTrack(s, replay, t0, s.threads[u])
  }

  ghost predicate AllSettled(s: State, replay: seq<Chain>)
    requires |s.chains| == |replay| > 0
  {
    forall i :: 0 <= i < |replay| ==> SlotSettled(s, replay, i)
  }

  ghost predicate Inv(s: State, t0: seq<Chain>) {
    && |s.chains| == |t0| > 0
    && Excluded(s)
    && var replay := Replay(t0, s.log);
    && AllOnTrack(s, replay, t0)
    && AllSettled(s, replay)
    && (forall i :: i in s.results ==> i < |s.log| && s.results[i] == Answer(t0, s.log, i))
  }

  /** No insertion is under way where a thread may lock, so the list there is as replayed. */
  lemma LockedSettled(s: State, replay: seq<Chain>, call: Call)
    requires |s.chains| == |replay| > 0 && MayLock(s, call) && AllSettled(s, replay)
    ensures var i := SlotOf(call, |replay|); s.chains[i] == replay[i]
  {
    var i := SlotOf(call, |replay|);
    assert SlotSettled(s, replay, i);
    forall u | u in s.threads
      ensures !Inserting(s.threads[u], i, |replay|)
    {
      assert Compatible(s.threads[u], Walking(call, 0, 0), |replay|);
    }
  }

  /** The other threads stay excluded when t turns to work that suits them all, or to none. */
  lemma StaysExcluded(s: State, r: State, t: nat)
    requires |r.chains| == |s.chains| > 0 && t in r.threads && Excluded(s)
    requires r.threads == s.threads[t := r.threads[t]]
    requires forall u :: u in s.threads && u != t ==> Compatible(s.threads[u], r.threads[t], |s.chains|)
    ensures Excluded(r)
  {
    forall u, w | u in r.threads && w in r.threads && u != w
      ensures Compatible(r.threads[u], r.threads[w], |r.chains|)
    {
      assert u != t && w != t ==> Compatible(s.threads[u], s.threads[w], |s.chains|);
    }
  }

  lemma LockKeepsTrack(s: State, r: State, t0: seq<Chain>, was: seq<Chain>, now: seq<Chain>, p: Pc, call: Call)
    requires |s.chains| == |t0| == |was| == |now| > 0 && r.chains == s.chains && r.log == s.log + [call]
    requires OnTrack(s, was, t0, p) && Compatible(p, Walking(call, 0, 0), |t0|)
    requires forall i :: 0 <= i < |s.log| ==> Answer(t0, r.log, i) == Answer(t0, s.log, i)
    requires var i := SlotOf(call, |t0|); now == was[i := Outcome(was[i], call).0]
    ensures OnTrack(r, now, t0, p)
  {
  }

  lemma LockKeepsSettled(s: State, r: State, was: seq<Chain>, now: seq<Chain>, t: nat, call: Call)
    requires |s.chains| == |was| == |now| > 0 && r.chains == s.chains
    requires t in s.threads && s.threads[t].Idle? && r.threads == s.threads[t := Walking(call, |s.log|, 0)]
    requires AllSettled(s, was)
    requires var i := SlotOf(call, |was|); now == was[i := Outcome(was[i], call).0]
    ensures AllSettled(r, now)
  {
    forall j | 0 <= j < |now|
      ensures SlotSettled(r, now, j)
    {
      assert SlotSettled(s, was, j);
      if now[j] != was[j] {
        assert Inserting(r.threads[t], j, |now|);
      } else if s.chains[j] != was[j] {
        var u :| u in s.threads && Inserting(s.threads[u], j, |was|);
        assert Inserting(r.threads[u], j, |now|);
      }
    }
  }

  lemma LockStep(s: State, t0: seq<Chain>, t: nat, call: Call)
    requires Inv(s, t0) && Enabled(s, Lock(t, call))
    ensures Inv(Next(s, Lock(t, call)), t0)
  {
    var r := Next(s, Lock(t, call));
    var was, now := Replay(t0, s.log), Replay(t0, r.log);
    ReplayMore(t0, s.log, call);
    ApplyOutcome(was, call);
    LockedSettled(s, was, call);
    forall u | u in s.threads
      ensures Compatible(s.threads[u], r.threads[t], |s.chains|)
    {
      assert Compatible(s.threads[u], Walking(call, 0, 0), |s.chains|);
    }
    StaysExcluded(s, r, t);
    forall u | u in r.threads
      ensures OnTrack(r, now, t0, r.threads[u])
    {
      if u != t {
        assert OnTrack(s, was, t0, s.threads[u]);
        LockKeepsTrack(s, r, t0, was, now, s.threads[u], call);
      }
    }
    LockKeepsSettled(s, r, was, now, t, call);
  }

  lemma OwnStepKeepsTrack(s: State, r: State, replay: seq<Chain>, t0: seq<Chain>, p: Pc, q: Pc)
    requires |s.chains| == |t0| == |replay| == |r.chains| > 0 && r.log == s.log
    requires !p.Idle? && Compatible(q, p, |t0|) && OnTrack(s, replay, t0, q)
    requires var i := SlotOf(p.call, |t0|);
      && r.chains == s.chains[i := r.chains[i]]
      && (r.chains[i] != s.chains[i] ==> p.call.Insert?)
    ensures OnTrack(r, replay, t0, q)
  {
    if !q.Idle? {
      assert r.chains[SlotOf(q.call, |t0|)] == s.chains[SlotOf(q.call, |t0|)];
    }
  }

  lemma OwnStepKeepsSettled(s: State, r: State, replay: seq<Chain>, t: nat)
    requires |s.chains| == |replay| == |r.chains| > 0 && AllSettled(s, replay)
    requires t in s.threads && t in r.threads && r.threads == s.threads[t := r.threads[t]] && !s.threads[t].Idle?
    requires var i := SlotOf(s.threads[t].call, |replay|);
      && r.chains == s.chains[i := r.chains[i]]
      && SlotSettled(r, replay, i)
    ensures AllSettled(r, replay)
  {
    forall j | 0 <= j < |replay|
      ensures SlotSettled(r, replay, j)
    {
      assert SlotSettled(s, replay, j);
      if j != SlotOf(s.threads[t].call, |replay|) && s.chains[j] != replay[j] {
        var u :| u in s.threads && Inserting(s.threads[u], j, |replay|);
        assert Inserting(r.threads[u], j, |replay|);
      }
    }
  }

  /** A thread that holds its lock may move on within its own list. */
  lemma OwnStep(s: State, r: State, t0: seq<Chain>, t: nat)
    requires Inv(s, t0) && t in s.threads && !s.threads[t].Idle? && r.log == s.log && |r.chains| == |s.chains|
    requires t in r.threads && r.threads == s.threads[t := r.threads[t]]
    requires r.threads[t].Idle? || r.threads[t].call == s.threads[t].call
    requires var i := SlotOf(s.threads[t].call, |t0|);
      && r.chains == s.chains[i := r.chains[i]]
      && (r.chains[i] != s.chains[i] ==> s.threads[t].call.Insert?)
      && SlotSettled(r, Replay(t0, s.log), i)
    requires OnTrack(r, Replay(t0, s.log), t0, r.threads[t])
    requires forall i :: i in r.results ==> i < |r.log| && r.results[i] == Answer(t0, r.log, i)
    ensures Inv(r, t0)
  {
    var replay := Replay(t0, s.log);
    var p := s.threads[t];
    forall u | u in s.threads && u != t
      ensures Compatible(s.threads[u], r.threads[t], |t0|)
    {
      assert Compatible(s.threads[u], p, |t0|);
    }
    StaysExcluded(s, r, t);
    forall u | u in r.threads && u != t
      ensures OnTrack(r, replay, t0, r.threads[u])
    {
      assert OnTrack(s, replay, t0, s.threads[u]);
      OwnStepKeepsTrack(s, r, replay, t0, p, s.threads[u]);
    }
    OwnStepKeepsSettled(s, r, replay, t);
  }

  /** After one look, the call is still bound for its outcome. */
  lemma LookOutcome(c: Chain, p: Pc)
    requires p.Walking? && p.pos <= Seek(c, Hash(p.call.key), p.call.key)
    ensures var q := Looked(c, p);
      && (q.Walking? ==> q.pos <= Seek(c, Hash(q.call.key), q.call.key))
      && (q.Linking? ==> q.call.Insert? && q.pos == |c| == Seek(c, Hash(q.call.key), q.call.key))
      && (q.Leaving? ==> q.result == Outcome(c, q.call).1 && c == Outcome(c, q.call).0)
      && !q.Idle?
  {
    var k, i := p.call.key, Seek(c, Hash(p.call.key), p.call.key);
    if p.pos < |c| && c[p.pos].hash == Hash(k) && c[p.pos].key == k {
      assert i == p.pos;
    } else if p.pos < |c| {
      assert i != p.pos;
    }
  }

  lemma SettledAfterLook(s: State, r: State, replay: seq<Chain>, t: nat)
    requires |s.chains| == |replay| > 0 && r.chains == s.chains && t in s.threads && s.threads[t].Walking?
    requires var p := s.threads[t];
      var i := SlotOf(p.call, |replay|);
      && r.threads == s.threads[t := Looked(s.chains[i], p)]
      && SlotSettled(s, replay, i)
      && p.pos <= Seek(s.chains[i], Hash(p.call.key), p.call.key)
      && (p.call.Insert? ==> replay[i] == Outcome(s.chains[i], p.call).0)
    ensures SlotSettled(r, replay, SlotOf(s.threads[t].call, |replay|))
  {
    var p := s.threads[t];
    var i := SlotOf(p.call, |replay|);
    if r.chains[i] != replay[i] {
      var u :| u in s.threads && Inserting(s.threads[u], i, |replay|);
      assert Inserting(r.threads[u], i, |replay|);
    }
  }

  lemma LookStep(s: State, t0: seq<Chain>, t: nat)
    requires Inv(s, t0) && Enabled(s, Look(t))
    ensures Inv(Next(s, Look(t)), t0)
  {
    var r := Next(s, Look(t));
    var replay := Replay(t0, s.log);
    var p := s.threads[t];
    var i := SlotOf(p.call, |t0|);
    assert OnTrack(s, replay, t0, p);
    LookOutcome(s.chains[i], p);
    assert SlotSettled(r, replay, i) by {
      SettledAfterLook(s, r, replay, t);
    }
    OwnStep(s, r, t0, t);
  }

  lemma LinkStep(s: State, t0: seq<Chain>, t: nat)
    requires Inv(s, t0) && Enabled(s, Link(t))
    ensures Inv(Next(s, Link(t)), t0)
  {
    var r := Next(s, Link(t));
    var replay := Replay(t0, s.log);
    var p := s.threads[t];
    var i := SlotOf(p.call, |t0|);
    assert OnTrack(s, replay, t0, p);
    assert s.chains[i][..p.pos] == s.chains[i];
    assert r.chains[i] == replay[i];
    OwnStep(s, r, t0, t);
  }

  lemma UnlockStep(s: State, t0: seq<Chain>, t: nat)
    requires Inv(s, t0) && Enabled(s, Unlock(t))
    ensures Inv(Next(s, Unlock(t)), t0)
  {
    var r := Next(s, Unlock(t));
    var replay := Replay(t0, s.log);
    var i := SlotOf(s.threads[t].call, |t0|);
    assert OnTrack(s, replay, t0, s.threads[t]);
    assert s.chains[i] == replay[i] by {
      assert SlotSettled(s, replay, i);
      forall u | u in s.threads
        ensures !Inserting(s.threads[u], i, |t0|)
      {
        assert u != t ==> Compatible(s.threads[u], s.threads[t], |t0|);
      }
    }
    OwnStep(s, r, t0, t);
  }

  lemma {:induction false} RunInv(s: State, t0: seq<Chain>, ms: seq<Move>)
    requires Inv(s, t0) && Follows(s, ms)
    ensures Inv(After(s, ms), t0)
    decreases ms
  {
    if ms != [] {
      match ms[0] {
        case Lock(t, call) => LockStep(s, t0, t, call);
        case Look(t) => LookStep(s, t0, t);
        case Link(t) => LinkStep(s, t0, t);
        case Unlock(t) => UnlockStep(s, t0, t);
      }
      RunInv(Next(s, ms[0]), t0, ms[1..]);
    }
  }

  // ----- against the map -----

  function MapAfter(m: map<Key, nat>, log: seq<Call>): map<Key, nat> {
    if log == [] then m else
      var was := MapAfter(m, log[..|log| - 1]);
      match log[|log| - 1]
      case Insert(k, v) => Bind(was, k, v)
      case Find(_) => was
  }

  function MapAnswer(m: map<Key, nat>, call: Call): int {
    match call
    case Insert(k, _) => if k in m then 1 else 0
    case Find(k) => if k in m then m[k] else 0
  }

  /** The keys of all calls fit a table of this size. */
  ghost predicate CallsFit(log: seq<Call>, size: int)
    requires size > 0
  {
    forall i :: 0 <= i < |log| ==> Fits(log[i].key, size)
  }

  lemma {:induction false} ReplayRefines(t0: seq<Chain>, m: map<Key, nat>, log: seq<Call>)
    requires Represents(t0, m) && CallsFit(log, |t0|)
    ensures Represents(Replay(t0, log), MapAfter(m, log))
  {
    if log != [] {
      var before := log[..|log| - 1];
      ReplayRefines(t0, m, before);
      match log[|log| - 1] {
        case Insert(k, v) => InsertRefines(Replay(t0, before), MapAfter(m, before), k, v);
        case Find(_) =>
      }
    }
  }

  lemma AnswerRefines(t0: seq<Chain>, m: map<Key, nat>, log: seq<Call>, i: nat)
    requires Represents(t0, m) && CallsFit(log, |t0|) && i < |log|
    ensures Answer(t0, log, i) == MapAnswer(MapAfter(m, log[..i]), log[i])
  {
    var t, now := Replay(t0, log[..i]), MapAfter(m, log[..i]);
    ReplayRefines(t0, m, log[..i]);
    match log[i] {
      case Insert(k, v) => InsertRefines(t, now, k, v);
      case Find(k) => LookupRefines(t, now, k);
    }
  }

  ghost predicate Quiet(s: State) {
    forall u :: u in s.threads ==> s.threads[u].Idle?
  }

  lemma QuietSettled(s: State, t0: seq<Chain>)
    requires Inv(s, t0) && Quiet(s)
    ensures s.chains == Replay(t0, s.log)
  {
    forall i | 0 <= i < |t0|
      ensures s.chains[i] == Replay(t0, s.log)[i]
    {
      assert SlotSettled(s, Replay(t0, s.log), i);
    }
  }

  ghost predicate Busy(p: Pc, id: nat) { !p.Idle? && p.id == id }

  /** Every logged call has returned or is some thread's. */
  ghost predicate Accounted(s: State) {
    forall i :: 0 <= i < |s.log| ==> i in s.results || exists u :: u in s.threads && Busy(s.threads[u], i)
  }

  lemma StepAccounted(s: State, m: Move)
    requires |s.chains| > 0 && Accounted(s) && Enabled(s, m)
    ensures Accounted(Next(s, m)) && |Next(s, m).chains| == |s.chains|
  {
    var r := Next(s, m);
    forall i | 0 <= i < |r.log| && i !in r.results
      ensures exists u :: u in r.threads && Busy(r.threads[u], i)
    {
      if i < |s.log| {
        var u :| u in s.threads && Busy(s.threads[u], i);
        assert Busy(r.threads[u], i);
      } else {
        assert Busy(r.threads[m.t], i);
      }
    }
  }

  lemma {:induction false} RunFits(s: State, ms: seq<Move>)
    requires |s.chains| > 0 && CallsFit(s.log, |s.chains|) && Follows(s, ms)
    ensures |After(s, ms).chains| == |s.chains| && CallsFit(After(s, ms).log, |s.chains|)
    decreases ms
  {
    if ms != [] {
      RunFits(Next(s, ms[0]), ms[1..]);
    }
  }

  lemma {:induction false} RunAccounted(s: State, ms: seq<Move>)
    requires |s.chains| > 0 && Accounted(s) && Follows(s, ms)
    ensures Accounted(After(s, ms))
    decreases ms
  {
    if ms != [] {
      StepAccounted(s, ms[0]);
      RunAccounted(Next(s, ms[0]), ms[1..]);
    }
  }

  lemma BeginsInv(s: State)
    requires Begins(s)
    ensures Inv(s, s.chains)
  {
  }

  lemma QuietReturned(s: State)
    requires Accounted(s) && Quiet(s)
    ensures forall i :: 0 <= i < |s.log| ==> i in s.results
  {
  }

  /** Every interleaving answers as a finite map does when the calls run one at a time in the
      order in which they took their locks. */
  lemma Linearizable(s: State, m: map<Key, nat>, ms: seq<Move>)
    requires Begins(s) && Represents(s.chains, m) && Follows(s, ms)
    ensures var r := After(s, ms);
      forall i :: i in r.results ==>
        i < |r.log| && r.results[i] == MapAnswer(MapAfter(m, r.log[..i]), r.log[i])
  {
    var t0, r := s.chains, After(s, ms);
    BeginsInv(s);
    RunInv(s, t0, ms);
    RunFits(s, ms);
    forall i | i in r.results
      ensures i < |r.log| && r.results[i] == MapAnswer(MapAfter(m, r.log[..i]), r.log[i])
    {
      AnswerRefines(t0, m, r.log, i);
    }
  }

  /** Once no thread is at work, every call that took its lock has returned, and the lists are,
      entry for entry, those of the one-at-a-time run, so the table holds its map. */
  lemma AtRest(s: State, m: map<Key, nat>, ms: seq<Move>)
    requires Begins(s) && Represents(s.chains, m) && Follows(s, ms) && Quiet(After(s, ms))
    ensures var r := After(s, ms);
      && (forall i :: 0 <= i < |r.log| ==> i in r.results)
      && r.chains == Replay(s.chains, r.log)
      && Represents(r.chains, MapAfter(m, r.log))
  {
    var t0, r := s.chains, After(s, ms);
    BeginsInv(s);
    RunInv(s, t0, ms);
    RunFits(s, ms);
    RunAccounted(s, ms);
    QuietReturned(r);
    QuietSettled(r, t0);
    ReplayRefines(t0, m, r.log);
  }
}
