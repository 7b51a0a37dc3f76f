/** The reader-writer lock: its counters, and the sections that a thread runs while it holds
    the internal mutex. */
module RwLock {
  datatype Counters = Counters(waitingReaders: int, waitingWriters: int, writers: int, readers: int)

  function Unlocked(): Counters { Counters(0, 0, 0, 0) }

  datatype Kind = Reader | Writer

  /** How a section of a lock call ends: the thread goes to sleep, holds the lock, or gives up. */
  datatype Outcome = Blocks | Acquires | TimesOut

  /** Whom an unlocking thread wakes. */
  datatype Wakeup = Nobody | OneWriter | AllReaders

  predicate Waits(k: Kind, c: Counters) {
    match k
    case Reader => c.writers != 0 || c.waitingWriters != 0
    case Writer => c.writers != 0 || c.readers != 0
  }

  /** One more, or fewer, thread of this kind waiting. */
  function Queued(k: Kind, c: Counters, d: int): Counters {
    match k
    case Reader => c.(waitingReaders := c.waitingReaders + d)
    case Writer => c.(waitingWriters := c.waitingWriters + d)
  }

  function Held(k: Kind, c: Counters, d: int): Counters {
    match k
    case Reader => c.(readers := c.readers + d)
    case Writer => c.(writers := c.writers + d)
  }

  function AfterCheck(k: Kind, c: Counters): (Counters, Outcome) {
    if Waits(k, c) then (c, Blocks) else (Held(k, Queued(k, c, -1), 1), Acquires)
  }

  /** The section from the call to the first wait or to the return. */
  function AfterEnter(k: Kind, c: Counters): (Counters, Outcome) {
    AfterCheck(k, Queued(k, c, 1))
  }

  /** The section after a wait has returned. */
  function AfterResume(k: Kind, c: Counters, expired: bool): (Counters, Outcome) {
    if expired then (Queued(k, c, -1), TimesOut) else AfterCheck(k, c)
  }

  function AfterUnlock(k: Kind, c: Counters): (Counters, Wakeup) {
    var d := Held(k, c, -1);
    (d, if d.waitingWriters != 0 then OneWriter
        else if k == Writer && d.waitingReaders != 0 then AllReaders else Nobody)
  }

  /** The lock object.  Each method is what runs between taking the internal mutex and
      releasing it, by return or by waiting. */
  class Rwl {
    var nWaitingReaders: int
    var nWaitingWriters: int
    var nWriters: int
    var nReaders: int

    function Abs(): Counters
      reads this
    {
      Counters(nWaitingReaders, nWaitingWriters, nWriters, nReaders)
    }

    constructor ()
      ensures Abs() == Unlocked()
    {
      nWaitingReaders, nWaitingWriters, nWriters, nReaders := 0, 0, 0, 0;
    }

    method NWaiters() returns (n: int)
      ensures n == Abs().waitingReaders + Abs().waitingWriters
    {
      n := nWaitingReaders + nWaitingWriters;
    }

    method RLockCheck() returns (o: Outcome)
      modifies this
      ensures (Abs(), o) == AfterCheck(Reader, old(Abs()))
    {
      if nWriters != 0 || nWaitingWriters != 0 {
        return Blocks;
      }
      nWaitingReaders := nWaitingReaders - 1;
      nReaders := nReaders + 1;
      return Acquires;
    }

    method RLockEnter() returns (o: Outcome)
      modifies this
      ensures (Abs(), o) == AfterEnter(Reader, old(Abs()))
    {
      nWaitingReaders := nWaitingReaders + 1;
      o := RLockCheck();
    }

    method RLockResume(expired: bool) returns (o: Outcome)
      modifies this
      ensures (Abs(), o) == AfterResume(Reader, old(Abs()), expired)
    {
      if expired {
        nWaitingReaders := nWaitingReaders - 1;
        return TimesOut;
      }
      o := RLockCheck();
    }

    method RUnlock() returns (w: Wakeup)
      modifies this
      ensures (Abs(), w) == AfterUnlock(Reader, old(Abs()))
    {
      nReaders := nReaders - 1;
      w := if nWaitingWriters != 0 then OneWriter else Nobody;
    }

    method WLockCheck() returns (o: Outcome)
      modifies this
      ensures (Abs(), o) == AfterCheck(Writer, old(Abs()))
    {
      if nWriters != 0 || nReaders != 0 {
        return Blocks;
      }
      nWaitingWriters := nWaitingWriters - 1;
      nWriters := nWriters + 1;
      return Acquires;
    }

    method WLockEnter() returns (o: Outcome)
      modifies this
      ensures (Abs(), o) == AfterEnter(Writer, old(Abs()))
    {
      nWaitingWriters := nWaitingWriters + 1;
      o := WLockCheck();
    }

    method WLockResume(expired: bool) returns (o: Outcome)
      modifies this
      ensures (Abs(), o) == AfterResume(Writer, old(Abs()), expired)
    {
      if expired {
        nWaitingWriters := nWaitingWriters - 1;
        return TimesOut;
      }
      o := WLockCheck();
    }

    method WUnlock() returns (w: Wakeup)
      modifies this
      ensures (Abs(), w) == AfterUnlock(Writer, old(Abs()))
    {
      nWriters := nWriters - 1;
      if nWaitingWriters != 0 {
        w := OneWriter;
      } else if nWaitingReaders != 0 {
        w := AllReaders;
      } else {
        w := Nobody;
      }
    }
  }
}
