/** Allocation traces: what the test driver asks of the allocator, and what holds of the
    heap in every state a well-formed trace reaches. */
module Trace {
  import opened Layout
  import opened ChunkModel
  import opened HeapInvariant
  import opened HeapLaws

  datatype Op = Alloc(index: nat, size: nat) | Resize(index: nat, size: nat) | Release(index: nat)
  datatype Block = Block(addr: nat, size: nat)

  /** The heap and the block each live id holds. */
  datatype TraceState = TraceState(heap: State, blocks: map<nat, Block>)

  function Start(lo: nat): TraceState {
    TraceState(State(lo, lo, [], []), map[])
  }

  /** A block has a live chunk of its own, large enough but not by much too large. */
  ghost predicate Owned(st: State, b: Block) {
    && 0 < b.size && IsLive(st, b.addr)
    && b.size + HEADER <= BlockAt(st, b.addr).size < b.size + HEADER + ALIGNMENT + MIN_GUARD
  }

  ghost predicate Differ(b: Block, c: Block) { b.addr != c.addr }

  ghost predicate AllOwned(st: State, blocks: map<nat, Block>) {
    && (forall i {:trigger Owned(st, blocks[i])} :: i in blocks ==> Owned(st, blocks[i]))
    && (forall i, j {:trigger Differ(blocks[i], blocks[j])} :: i in blocks && j in blocks && i != j ==>
          Differ(blocks[i], blocks[j]))
  }

  ghost predicate TraceInv(ts: TraceState) {
    Inv(ts.heap) && AllOwned(ts.heap, ts.blocks)
  }

  /** Requests are for at least one byte and do not exhaust the heap; only live ids are
      resized or released. */
  predicate StepOk(ts: TraceState, op: Op, limit: nat) {
    match op
    case Alloc(_, n) => n > 0 && SizeFitsInt(n) && HasRoom(ts.heap, n, limit)
    case Resize(i, n) => i in ts.blocks && n > 0 && SizeFitsInt(n) && HasRoom(ts.heap, n, limit)
    case Release(i) => i in ts.blocks
  }

  function Extended(ts: TraceState, i: nat, n: nat): TraceState
    requires n > 0
  {
    var heap := Malloc(ts.heap, n);
    TraceState(heap, ts.blocks[i := Block(heap.live[0].Payload(), n)])
  }

  function Released(ts: TraceState, i: nat): TraceState
    requires i in ts.blocks && IsLive(ts.heap, ts.blocks[i].addr)
  {
    TraceState(Free(ts.heap, ts.blocks[i].addr), ts.blocks - {i})
  }

  /** A resize: the id moves to a fresh block and its old chunk is freed. */
  function Resized(ts: TraceState, i: nat, n: nat): TraceState
    requires i in ts.blocks && n > 0 && IsLive(Malloc(ts.heap, n), ts.blocks[i].addr)
  {
    var t := Extended(ts, i, n);
    TraceState(Free(t.heap, ts.blocks[i].addr), t.blocks)
  }

  lemma OwnedKept(st: State, n: nat, b: Block)
    requires Inv(st) && n > 0 && Owned(st, b)
    ensures Owned(Malloc(st, n), b) && b.addr != Malloc(st, n).live[0].Payload()
  {
    StillLive(st, n, b.addr);
  }

  lemma OwnedNew(st: State, n: nat)
    requires Inv(st) && n > 0
    ensures Owned(Malloc(st, n), Block(Malloc(st, n).live[0].Payload(), n))
  {
    var r := Malloc(st, n);
    MallocInv(st, n);
    assert LiveIndex(r.live, r.live[0].Payload()) == 0;
  }

  lemma OwnedAfterFree(st: State, p: nat, b: Block)
    requires Inv(st) && IsLive(st, p) && Owned(st, b) && b.addr != p
    ensures Owned(Free(st, p), b)
  {
    LiveWithout(st, p, b.addr);
  }

  lemma ExtendedInv(ts: TraceState, i: nat, n: nat)
    requires TraceInv(ts) && n > 0
    ensures TraceInv(Extended(ts, i, n))
  {
    var t := Extended(ts, i, n);
    MallocKeepsInv(ts.heap, n);
    OwnedNew(ts.heap, n);
    forall j | j in t.blocks ensures Owned(t.heap, t.blocks[j]) && (j != i ==> Differ(t.blocks[j], t.blocks[i])) {
      if j != i { assert Owned(ts.heap, ts.blocks[j]); OwnedKept(ts.heap, n, ts.blocks[j]); }
    }
    forall j, k | j in t.blocks && k in t.blocks && j != k ensures Differ(t.blocks[j], t.blocks[k]) {
      if j != i && k != i { assert Differ(ts.blocks[j], ts.blocks[k]); }
    }
  }

  /** An id keeps its old block until the request that replaces it has been met. */
  lemma OldBlock(ts: TraceState, i: nat, n: nat)
    requires TraceInv(ts) && i in ts.blocks && n > 0
    ensures IsLive(ts.heap, ts.blocks[i].addr) && IsLive(Malloc(ts.heap, n), ts.blocks[i].addr)
    ensures forall j :: j in Extended(ts, i, n).blocks ==> Differ(Extended(ts, i, n).blocks[j], ts.blocks[i])
  {
    var t := Extended(ts, i, n);
    assert Owned(ts.heap, ts.blocks[i]);
    OwnedKept(ts.heap, n, ts.blocks[i]);
    forall j | j in t.blocks ensures Differ(t.blocks[j], ts.blocks[i]) {
      if j != i { assert Differ(ts.blocks[j], ts.blocks[i]); }
    }
  }

  lemma FreedInv(st: State, p: nat, blocks: map<nat, Block>)
    requires Inv(st) && IsLive(st, p) && AllOwned(st, blocks)
    requires forall j :: j in blocks ==> blocks[j].addr != p
    ensures Inv(Free(st, p)) && AllOwned(Free(st, p), blocks)
  {
    FreeInv(st, p);
    forall j | j in blocks ensures Owned(Free(st, p), blocks[j]) {
      assert Owned(st, blocks[j]);
      OwnedAfterFree(st, p, blocks[j]);
    }
  }

  lemma ReleasedInv(ts: TraceState, i: nat)
    requires TraceInv(ts) && i in ts.blocks
    ensures IsLive(ts.heap, ts.blocks[i].addr) && TraceInv(Released(ts, i))
  {
    var rest := ts.blocks - {i};
    assert Owned(ts.heap, ts.blocks[i]);
    forall j | j in rest ensures Owned(ts.heap, rest[j]) && rest[j].addr != ts.blocks[i].addr {
      assert Owned(ts.heap, ts.blocks[j]) && Differ(ts.blocks[j], ts.blocks[i]);
    }
    forall j, k | j in rest && k in rest && j != k ensures Differ(rest[j], rest[k]) {
      assert Differ(ts.blocks[j], ts.blocks[k]);
    }
    FreedInv(ts.heap, ts.blocks[i].addr, rest);
  }

  lemma ResizedInv(ts: TraceState, i: nat, n: nat)
    requires TraceInv(ts) && i in ts.blocks && n > 0
    ensures IsLive(Malloc(ts.heap, n), ts.blocks[i].addr) && TraceInv(Resized(ts, i, n))
  {
    OldBlock(ts, i, n);
    ExtendedInv(ts, i, n);
    FreedInv(Malloc(ts.heap, n), ts.blocks[i].addr, Extended(ts, i, n).blocks);
  }

  ghost function Step(ts: TraceState, op: Op, limit: nat): (r: TraceState)
    requires TraceInv(ts) && StepOk(ts, op, limit)
    ensures TraceInv(r)
  {
    match op
    case Alloc(i, n) => ExtendedInv(ts, i, n); Extended(ts, i, n)
    case Resize(i, n) => ResizedInv(ts, i, n); Resized(ts, i, n)
    case Release(i) => ReleasedInv(ts, i); Released(ts, i)
  }

  /** What an operation does to the table of ids: it gives its own id a block of the size asked for,
      or takes it out, and changes no other. */
  lemma StepBlocks(ts: TraceState, op: Op, limit: nat)
    requires TraceInv(ts) && StepOk(ts, op, limit)
    ensures var r := Step(ts, op, limit);
      && (forall j :: j != op.index ==> (j in r.blocks <==> j in ts.blocks))
      && (forall j :: j != op.index && j in r.blocks && j in ts.blocks ==> r.blocks[j] == ts.blocks[j])
      && (op.Release? <==> op.index !in r.blocks)
      && (!op.Release? ==> op.index in r.blocks && r.blocks[op.index].size == op.size)
  {
  }

  /** An allocation for an id that has a block: nobody can free that block any more. */
  predicate Loses(ts: TraceState, op: Op) { op.Alloc? && op.index in ts.blocks }

  lemma StepLive(ts: TraceState, op: Op, limit: nat)
    requires TraceInv(ts) && StepOk(ts, op, limit)
    ensures var r := Step(ts, op, limit);
      |r.heap.live| - |r.blocks| == |ts.heap.live| - |ts.blocks| + if Loses(ts, op) then 1 else 0
  {
    match op
    case Alloc(i, n) => MallocSize(ts.heap, n);
    case Resize(i, n) =>
      MallocSize(ts.heap, n);
      ResizedInv(ts, i, n);
      assert ts.blocks[i := Extended(ts, i, n).blocks[i]].Keys == ts.blocks.Keys;
    case Release(i) =>
      ReleasedInv(ts, i);
      assert (ts.blocks - {i}).Keys == ts.blocks.Keys - {i};
      assert |(ts.blocks - {i}).Keys| == |ts.blocks.Keys| - 1;
  }

  ghost predicate WellFormed(ts: TraceState, ops: seq<Op>, limit: nat)
    requires TraceInv(ts)
    decreases |ops|
  {
    ops == [] || (StepOk(ts, ops[0], limit) && WellFormed(Step(ts, ops[0], limit), ops[1..], limit))
  }

  ghost function Run(ts: TraceState, ops: seq<Op>, limit: nat): (r: TraceState)
    requires TraceInv(ts) && WellFormed(ts, ops, limit)
    ensures TraceInv(r)
    decreases |ops|
  {
    if ops == [] then ts else Run(Step(ts, ops[0], limit), ops[1..], limit)
  }

  lemma StartInv(lo: nat)
    requires lo > 0 && lo % ALIGNMENT == 0
    ensures TraceInv(Start(lo))
  {
  }

  /** A trace from the empty heap at lo. */
  ghost predicate WellFormedTrace(lo: nat, ops: seq<Op>, limit: nat)
    requires lo > 0 && lo % ALIGNMENT == 0
  {
    StartInv(lo);
    WellFormed(Start(lo), ops, limit)
  }

  /** The state such a trace reaches. */
  ghost function Reached(lo: nat, ops: seq<Op>, limit: nat): (r: TraceState)
    requires lo > 0 && lo % ALIGNMENT == 0 && WellFormedTrace(lo, ops, limit)
    ensures TraceInv(r)
  {
    StartInv(lo);
    Run(Start(lo), ops, limit)
  }

  /** How many blocks the trace loses. */
  ghost function Lost(ts: TraceState, ops: seq<Op>, limit: nat): nat
    requires TraceInv(ts) && WellFormed(ts, ops, limit)
    decreases |ops|
  {
    if ops == [] then 0
    else (if Loses(ts, ops[0]) then 1 else 0) + Lost(Step(ts, ops[0], limit), ops[1..], limit)
  }

  ghost function LostBlocks(lo: nat, ops: seq<Op>, limit: nat): nat
    requires lo > 0 && lo % ALIGNMENT == 0 && WellFormedTrace(lo, ops, limit)
  {
    StartInv(lo);
    Lost(Start(lo), ops, limit)
  }

  lemma {:induction false} RunLive(ts: TraceState, ops: seq<Op>, limit: nat)
    requires TraceInv(ts) && WellFormed(ts, ops, limit)
    ensures var r := Run(ts, ops, limit);
      |r.heap.live| - |r.blocks| == |ts.heap.live| - |ts.blocks| + Lost(ts, ops, limit)
    decreases |ops|
  {
    if ops != [] {
      StepLive(ts, ops[0], limit);
      RunLive(Step(ts, ops[0], limit), ops[1..], limit);
    }
  }

  /** The allocator leaks nothing: the live chunks are as many as the ids that have a block, and one
      more for each allocation that replaced an id's block without freeing it. */
  lemma NoLeaks(lo: nat, ops: seq<Op>, limit: nat)
    requires lo > 0 && lo % ALIGNMENT == 0 && WellFormedTrace(lo, ops, limit)
    ensures var ts := Reached(lo, ops, limit); |ts.heap.live| == |ts.blocks| + LostBlocks(lo, ops, limit)
  {
    StartInv(lo);
    RunLive(Start(lo), ops, limit);
  }

  /** A trace that loses a block: it allocates twice for one id. */
  lemma AllocatedTwice(lo: nat, limit: nat)
    requires lo > 0 && lo % ALIGNMENT == 0 && lo + 96 <= limit
    ensures WellFormedTrace(lo, [Alloc(0, 1), Alloc(0, 1)], limit)
    ensures LostBlocks(lo, [Alloc(0, 1), Alloc(0, 1)], limit) == 1
  {
    var ops := [Alloc(0, 1), Alloc(0, 1)];
    StartInv(lo);
    var t := Step(Start(lo), ops[0], limit);
    assert ops[1..] == [Alloc(0, 1)];
    assert StepOk(t, Alloc(0, 1), limit);
    assert [Alloc(0, 1)][1..] == [];
  }

  /** In every state a well-formed trace reaches from the empty heap, each byte of the heap
      lies in exactly one chunk, the chunk sizes of the two lists add up to the heap size, every
      chunk is on the grid and at least MIN_CHUNK bytes long, the free list is coalesced, and
      every live id has a chunk of its own with little to spare. */
  lemma ReachableHeaps(lo: nat, ops: seq<Op>, limit: nat)
    requires lo > 0 && lo % ALIGNMENT == 0 && WellFormedTrace(lo, ops, limit)
    ensures var ts := Reached(lo, ops, limit); var st := ts.heap;
      && Total(st.free) + Total(st.live) == st.brk - st.lo && Gapped(st.free)
      && (forall x :: st.lo <= x < st.brk <==> Covers(st.free, x) || Covers(st.live, x))
      && (forall x :: !(Covers(st.free, x) && Covers(st.live, x)))
      && (forall c :: c in st.free || c in st.live ==> OnGrid(c) && MIN_CHUNK <= c.size)
      && (forall i :: i in ts.blocks ==> Owned(st, ts.blocks[i]))
  {
    var ts := Reached(lo, ops, limit);
    var st := ts.heap;
    forall x ensures st.lo <= x < st.brk <==> Covers(st.free, x) || Covers(st.live, x)
      ensures !(Covers(st.free, x) && Covers(st.live, x))
    {
      OneList(st, x);
    }
    forall c | c in st.free || c in st.live ensures OnGrid(c) && MIN_CHUNK <= c.size {
      if c in st.free {
        var i :| 0 <= i < |st.free| && st.free[i] == c;
        assert OnGrid(st.free[i]);
      } else {
        var i :| 0 <= i < |st.live| && st.live[i] == c;
        assert OnGrid(st.live[i]);
      }
    }
    forall i | i in ts.blocks ensures Owned(st, ts.blocks[i]) {
      assert Owned(ts.heap, ts.blocks[i]);
    }
  }
}
