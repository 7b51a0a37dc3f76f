/** The explicit-free-list allocator: header fields edited in place in the byte heap,
    proved against the operations of ChunkModel. */
module Allocator {
  import opened Layout
  import opened ChunkModel
  import opened HeapInvariant
  import opened HeaderLists
  import opened Memlib

  ghost function Headered(st: State): set<nat> {
    Starts(st.free) + Starts(st.live)
  }

  lemma ChunkStarting(st: State, a: nat) returns (c: Chunk)
    requires a in Headered(st)
    ensures (c in st.free || c in st.live) && c.addr == a
  {
    NotAmong(st.free, a);
    NotAmong(st.live, a);
    if a in Starts(st.free) {
      var i :| 0 <= i < |st.free| && st.free[i].addr == a;
      c := st.free[i];
    } else {
      var i :| 0 <= i < |st.live| && st.live[i].addr == a;
      c := st.live[i];
    }
  }

  /** n bytes at src in memory m are found at dst in memory t. */
  ghost predicate Copied(base: nat, m: Bytes, src: nat, t: Bytes, dst: nat, n: nat) {
    && base <= src && src - base + n <= |m| && base <= dst && dst - base + n <= |t|
    && forall i :: dst - base <= i < dst - base + n ==> t[i] == m[i - dst + src]
  }

  /** How many of the first n payload bytes the chunk has. */
  function PayloadPart(c: Chunk, n: nat): nat {
    if n + HEADER < c.size then n else if c.size < HEADER then 0 else c.size - HEADER
  }

  function CopySize(st: State, p: nat, n: nat): nat
    requires IsLive(st, p)
  {
    PayloadPart(BlockAt(st, p), n)
  }

  /** The two memories differ at most in the n bytes at lo. */
  ghost predicate OnlyWithin(base: nat, m: Bytes, n: Bytes, lo: nat, k: nat) {
    |m| == |n| && forall i :: 0 <= i < |m| && !(lo <= base + i < lo + k) ==> n[i] == m[i]
  }

  ghost predicate SameBytes(m: Bytes, n: Bytes, base: nat, lo: nat, hi: nat) {
    |m| == |n| && forall i :: 0 <= i < |m| && lo <= base + i < hi ==> m[i] == n[i]
  }

  /** Every block live in both states has the payload it had. */
  ghost predicate PayloadsKept(s: State, t: State, base: nat, m: Bytes, n: Bytes) {
    forall c :: c in s.live && c in t.live ==> SameBytes(m, n, base, c.Payload(), c.End())
  }

  lemma CopyKept(s: State, t: State, base: nat, b0: Bytes, b1: Bytes, b2: Bytes, c: Chunk, n: nat)
    requires ApartFrom(s.live, c) && PayloadsKept(s, t, base, b0, b1)
    requires n + HEADER <= c.size && OnlyWithin(base, b1, b2, c.Payload(), n)
    ensures PayloadsKept(s, t, base, b0, b2)
  {
    forall d | d in s.live && d in t.live ensures SameBytes(b0, b2, base, d.Payload(), d.End()) {
      var j :| 0 <= j < |s.live| && s.live[j] == d;
      assert SameBytes(b0, b1, base, d.Payload(), d.End());
    }
  }

  lemma KeptThroughFree(s: State, mid: State, p: nat, base: nat, b0: Bytes, b1: Bytes, b2: Bytes)
    requires IsLive(mid, p) && PayloadsKept(s, mid, base, b0, b1)
    requires PayloadsKept(mid, ChunkModel.Free(mid, p), base, b1, b2)
    ensures PayloadsKept(s, ChunkModel.Free(mid, p), base, b0, b2)
  {
    forall c | c in s.live && c in ChunkModel.Free(mid, p).live
      ensures SameBytes(b0, b2, base, c.Payload(), c.End())
    {
      assert SameBytes(b0, b1, base, c.Payload(), c.End()) && SameBytes(b1, b2, base, c.Payload(), c.End());
    }
  }

  /** The block a request hands out, beside one that was live before. */
  lemma NewBlock(s: State, n: nat, c: Chunk)
    requires Inv(s) && n > 0 && c in s.live
    ensures var t := ChunkModel.Malloc(s, n); var d := t.live[0];
      && ApartFrom(s.live, d) && n + HEADER <= d.size && d in t.live && c in t.live && c.Apart(d)
  {
    MallocInv(s, n);
    var i :| 0 <= i < |s.live| && s.live[i] == c;
    assert ChunkModel.Malloc(s, n).live[i + 1] == c;
  }

  lemma CopiedFrom(base: nat, b0: Bytes, b1: Bytes, b2: Bytes, c: Chunk, dst: nat, n: nat)
    requires SameBytes(b0, b1, base, c.Payload(), c.End()) && Copied(base, b1, c.Payload(), b2, dst, n)
    requires c.Payload() + n <= c.End()
    ensures Copied(base, b0, c.Payload(), b2, dst, n)
  {
  }

  /** Freeing the old block after a request leaves the new one live. */
  lemma NewBlockStays(s: State, n: nat, p: nat)
    requires Inv(s) && n > 0 && IsLive(s, p)
    ensures var mid := ChunkModel.Malloc(s, n);
      IsLive(mid, p) && mid.live[0] in mid.live && mid.live[0] in Without(mid.live, LiveIndex(mid.live, p))
      && mid.live[0].Payload() + n <= mid.live[0].End()
  {
    var mid := ChunkModel.Malloc(s, n);
    StillLive(s, n, p);
    MallocInv(s, n);
    assert LiveIndex(mid.live, p) > 0;
    assert Without(mid.live, LiveIndex(mid.live, p))[0] == mid.live[0];
  }

  lemma CopiedKept(base: nat, b0: Bytes, p: nat, b1: Bytes, b2: Bytes, c: Chunk, n: nat)
    requires Copied(base, b0, p, b1, c.Payload(), n) && SameBytes(b1, b2, base, c.Payload(), c.End())
    requires c.Payload() + n <= c.End()
    ensures Copied(base, b0, p, b2, c.Payload(), n)
  {
  }

  lemma CopiedThroughFree(s: State, mid: State, n: nat, p: nat, base: nat, b0: Bytes, b1: Bytes, b2: Bytes)
    requires Inv(s) && n > 0 && IsLive(s, p) && mid == ChunkModel.Malloc(s, n) && IsLive(mid, p)
    requires PayloadsKept(mid, ChunkModel.Free(mid, p), base, b1, b2)
    requires Copied(base, b0, p, b1, mid.live[0].Payload(), CopySize(s, p, n))
    ensures Copied(base, b0, p, b2, mid.live[0].Payload(), CopySize(s, p, n))
  {
    NewBlockStays(s, n, p);
    CopiedKept(base, b0, p, b1, b2, mid.live[0], CopySize(s, p, n));
  }

  /** Writes confined to headers of the old and the new state reach no payload that is live
      in both. */
  lemma PayloadIsolation(s: State, t: State, base: nat, m: Bytes, n: Bytes)
    requires Inv(s) && Inv(t) && KeptOutside(Headered(s) + Headered(t), base, m, n)
    ensures PayloadsKept(s, t, base, m, n)
  {
    forall c, i | c in s.live && c in t.live && 0 <= i < |m| && c.Payload() <= base + i < c.End()
      ensures m[i] == n[i]
    {
      if InHeader(Headered(s) + Headered(t), base + i) {
        var a :| a in Headered(s) + Headered(t) && a <= base + i < a + HEADER;
        var r := if a in Headered(s) then s else t;
        var d := ChunkStarting(r, a);
        PayloadClear(r, c, d);
        assert false;
      }
    }
  }

  lemma TaggedWithout(m: Headers, s: seq<Chunk>, k: nat, status: nat)
    requires Tagged(m, s, status) && k < |s|
    ensures Tagged(m, Without(s, k), status)
  {
    var t := Without(s, k);
    assert forall i :: 0 <= i < |t| ==> t[i] == s[if i < k then i else i + 1];
  }

  lemma KeptIn(m: Headers, n: Headers, head: nat, s: seq<Chunk>, status: nat)
    requires Linked(m, head, s, status) && Starts(s) <= n.Keys && forall a :: a in n ==> a in m && n[a] == m[a]
    ensures Linked(n, head, s, status)
  {
    forall i | 0 <= i < |s| ensures s[i].addr in n && n[s[i].addr] == m[s[i].addr] { StartsAt(s, i); }
    LinkedKept(m, n, head, s, status);
  }

  lemma AddFrontStarts(f: seq<Chunk>, c: Chunk)
    ensures Starts(AddFront(f, c)) <= Starts(f) + {c.addr}
  {
    StartsCons(c, f);
    if f != [] { StartsCons(Chunk(c.addr, c.size + f[0].size), f[1..]); }
  }

  lemma {:induction false} InsertFreeStarts(f: seq<Chunk>, c: Chunk)
    ensures Starts(InsertFree(f, c)) <= Starts(f) + {c.addr}
  {
    if f == [] || c.addr < f[0].addr {
      AddFrontStarts(f, c);
    } else if f[0].End() == c.addr {
      AddFrontStarts(f[1..], Chunk(f[0].addr, f[0].size + c.size));
    } else {
      InsertFreeStarts(f[1..], c);
      StartsCons(f[0], InsertFree(f[1..], c));
    }
  }

  /** The bytes above the break hold no header. */
  lemma TopClear(st: State, heap: Heap)
    requires Inv(st) && st.brk == heap.brk && heap.hdr.Keys == Headered(st)
    ensures Clear(heap.hdr, heap.brk)
  {
    forall a | a in heap.hdr ensures a != heap.brk && NoOverlap(heap.brk, a) {
      var d := ChunkStarting(st, a);
    }
  }

  lemma FirstFitIs(f: seq<Chunk>, pass: Pass, need: nat, k: nat)
    requires k <= |f| && (forall i :: 0 <= i < k ==> !Takes(pass, f[i].size, need))
    requires k < |f| ==> Takes(pass, f[k].size, need)
    ensures FirstFit(f, pass, need) == k
  {
  }

  ghost predicate Representable(s: seq<Chunk>) {
    forall i :: 0 <= i < |s| ==> s[i].size > 0 && s[i].End() < WORD_LIMIT
  }

  /** Where the remainder of a split goes. */
  ghost predicate SplitReady(f: seq<Chunk>, k: nat, need: nat)
    requires k < |f| && f[k].size > need
  {
    var rest, rem := Without(f, k), Chunk(f[k].addr + need, f[k].size - need);
    Representable(rest) && Representable([rem]) && Insertable(rest, rem)
  }

  /** Which headers there are after a split. */
  ghost predicate SplitHeaders(st: State, k: nat, need: nat)
    requires k < |st.free| && st.free[k].size > need
  {
    && Starts(TakePart(st, k, need).free) !! Starts(TakePart(st, k, need).live)
    && Headered(TakePart(st, k, need)) == Headered(st) + {st.free[k].addr + need}
  }

  /** The remainder of a split can be inserted where the split chunk was. */
  ghost predicate SplitsCleanly(f: seq<Chunk>, k: nat, need: nat) {
    k < |f| && HEADER <= need < f[k].size && Gapped(f) && Representable(f)
  }

  /** A split point lies inside its chunk, clear of every header. */
  lemma InteriorClear(st: State, k: nat, need: nat, heap: Heap)
    requires Inv(st) && heap.Valid() && st.brk == heap.brk && st.lo == heap.base && heap.hdr.Keys == Headered(st)
    requires Splits(st, k, need)
    ensures SplitsCleanly(st.free, k, need) && heap.Fits(st.free[k].addr + need)
    ensures Clear(heap.hdr, st.free[k].addr + need)
  {
    var c := st.free[k];
    forall a | a in heap.hdr ensures a != c.addr + need && NoOverlap(c.addr + need, a) {
      var d := ChunkStarting(st, a);
      if d in st.live {
        ListsApart(st, c, d);
      } else {
        var i :| 0 <= i < |st.free| && st.free[i] == d;
        if i != k { FreeApart(st.free, i, k); }
      }
    }
  }

  lemma SplitFits(f: seq<Chunk>, k: nat, need: nat)
    requires SplitsCleanly(f, k, need)
    ensures SplitReady(f, k, need)
  {
    var rest := Without(f, k);
    GappedWithout(f, k);
    forall i | 0 <= i < |rest|
      ensures rest[i].size > 0 && rest[i].End() < WORD_LIMIT && rest[i].Apart(Chunk(f[k].addr + need, f[k].size - need))
    {
      var j := if i < k then i else i + 1;
      assert rest[i] == f[j];
      FreeApart(f, j, k);
    }
  }

  lemma Exchanged(f: set<nat>, l: set<nat>, a: nat, b: nat, f': set<nat>, l': set<nat>)
    requires f !! l && a in f && b !in f && b !in l && f' == f - {a} + {b} && l' == l + {a}
    ensures f' !! l' && f' + l' == f + l + {b}
  {
  }

  lemma SplitStarts(st: State, k: nat, need: nat)
    requires SplitsCleanly(st.free, k, need) && Distinct(st.free) && Starts(st.free) !! Starts(st.live)
    requires st.free[k].addr + need !in Headered(st)
    ensures SplitHeaders(st, k, need)
  {
    StartsAt(st.free, k);
    SplitFreeStarts(st.free, k, need);
    StartsCons(Chunk(st.free[k].addr, need), st.live);
    ghost var r := TakePart(st, k, need);
    var a := st.free[k].addr;
    Exchanged(Starts(st.free), Starts(st.live), a, a + need, Starts(r.free), Starts(r.live));
  }

  lemma SplitFacts(st: State, k: nat, need: nat, heap: Heap)
    requires Inv(st) && heap.Valid() && st.brk == heap.brk && st.lo == heap.base && heap.hdr.Keys == Headered(st)
    requires Splits(st, k, need) && Distinct(st.free) && Starts(st.free) !! Starts(st.live)
    ensures st.free[k].size < WORD_LIMIT && SplitReady(st.free, k, need) && SplitHeaders(st, k, need)
    ensures heap.Fits(st.free[k].addr + need) && Clear(heap.hdr, st.free[k].addr + need)
  {
    InteriorClear(st, k, need, heap);
    SplitFits(st.free, k, need);
    SplitStarts(st, k, need);
  }

  lemma HeadersPresent(m: Headers, head: nat, s: seq<Chunk>, status: nat)
    requires Linked(m, head, s, status)
    ensures Starts(s) <= m.Keys && (s != [] ==> head in Starts(s)) && (s == [] ==> head == 0)
  {
    forall a | a in Starts(s) ensures a in m {
      NotAmong(s, a);
      var i :| 0 <= i < |s| && s[i].addr == a;
    }
  }

  lemma LinkedAsInserted(m: Headers, head: nat, f: seq<Chunk>, k: nat, c: Chunk)
    requires FitsAt(f, k, c) && Linked(m, head, MergePrev(MergeNext(Inserted(f, k, c), k), k), 0)
    ensures Linked(m, head, InsertFree(f, c), 0)
  {
    InsertionSteps(f, k, c);
  }

  lemma SortedOthers(m: Headers, f: seq<Chunk>, k: nat, c: Chunk)
    requires 0 !in m && k <= |f| && c.addr in m
    ensures var n := LinkedBetween(WithStatus(m, c.addr, 0), AddrAt(f, k - 1), c.addr, AddrAt(f, k));
      forall a :: a in m && a != c.addr && a !in Starts(f) ==> a in n && n[a] == m[a]
  {
    var was := WithStatus(m, c.addr, 0);
    forall a | a in m && a != c.addr && a !in Starts(f)
      ensures var n := LinkedBetween(was, AddrAt(f, k - 1), c.addr, AddrAt(f, k)); a in n && n[a] == m[a]
    {
      LinkedBetweenOthers(was, f, k, c.addr, a);
    }
  }

  lemma InsertedTagged(m: Headers, n: Headers, f: seq<Chunk>, k: nat, c: Chunk)
    requires Tagged(m, f, 0) && k <= |f| && SameTags(m, n)
    requires c.addr in m && m[c.addr].size == c.size && m[c.addr].status == 0
    ensures Tagged(n, Inserted(f, k, c), 0)
    ensures AddrAt(Inserted(f, k, c), 0) == if k == 0 then c.addr else AddrAt(f, 0)
  {
    InsertedAt(f, k, c);
  }

  lemma SortedInsertion(m: Headers, head: nat, f: seq<Chunk>, k: nat, c: Chunk)
    requires Linked(m, head, f, 0) && 0 !in m && k <= |f|
    requires c.addr in m && m[c.addr].size == c.size && c.addr !in Starts(f)
    ensures var n := LinkedBetween(WithStatus(m, c.addr, 0), AddrAt(f, k - 1), c.addr, AddrAt(f, k));
      && Linked(n, if k == 0 then c.addr else head, Inserted(f, k, c), 0)
      && (forall a :: a in m && a != c.addr && a !in Starts(f) ==> a in n && n[a] == m[a])
  {
    var was := WithStatus(m, c.addr, 0);
    NotAmong(f, c.addr);
    ChainKept(m, was, f);
    LinkedBetweenChain(was, f, k, c);
    InsertedDistinct(f, k, c);
    InsertedTagged(was, LinkedBetween(was, AddrAt(f, k - 1), c.addr, AddrAt(f, k)), f, k, c);
    SortedOthers(m, f, k, c);
  }

  lemma InsertedRepresentable(f: seq<Chunk>, k: nat, c: Chunk)
    requires FitsAt(f, k, c) && Representable(f) && Representable([c])
    ensures var s := Inserted(f, k, c);
      Representable(s) && (k + 2 < |s| ==> s[k+1].End() < s[k+2].addr) && s[k] == c
  {
    InsertedAt(f, k, c);
    assert [c][0] == c;
    if k + 1 < |f| { assert GapAt(f, k); }
  }

  lemma InsertedStarts(f: seq<Chunk>, k: nat, c: Chunk)
    requires k <= |f|
    ensures Starts(Inserted(f, k, c)) <= Starts(f) + {c.addr}
  {
    InsertedAt(f, k, c);
    forall a | a in Starts(Inserted(f, k, c)) && a != c.addr ensures a in Starts(f) {
      NotAmong(f, a);
      NotAmong(Inserted(f, k, c), a);
    }
  }

  lemma JoinedIndex(s: seq<Chunk>, k: nat, i: nat)
    requires k < |s| && i < |MergeNext(s, k)|
    ensures var t := MergeNext(s, k); var j := if i <= k || |t| == |s| then i else i + 1;
      j < |s| && t[i].addr == s[j].addr && (i != k ==> t[i] == s[j])
  {
  }

  lemma JoinedRepresentable(s: seq<Chunk>, k: nat)
    requires k < |s| && Representable(s)
    ensures var t := MergeNext(s, k); Representable(t) && k < |t| && t[k].addr == s[k].addr
  {
    var t := MergeNext(s, k);
    forall i | 0 <= i < |t| ensures t[i].size > 0 && t[i].End() < WORD_LIMIT { JoinedIndex(s, k, i); }
  }

  lemma JoinedStarts(s: seq<Chunk>, k: nat)
    requires k < |s|
    ensures Starts(MergeNext(s, k)) <= Starts(s)
  {
    var t := MergeNext(s, k);
    forall a | a in Starts(t) ensures a in Starts(s) {
      NotAmong(t, a);
      var i :| 0 <= i < |t| && t[i].addr == a;
      JoinedIndex(s, k, i);
      StartsAt(s, if i <= k || |t| == |s| then i else i + 1);
    }
  }

  /** The walk over the list stops before the first chunk above h. */
  ghost predicate StopsAt(f: seq<Chunk>, h: nat, k: nat) {
    k <= |f| && (k > 0 ==> f[k-1].addr <= h) && (k < |f| ==> h < f[k].addr)
  }

  /** Links to headers of the heap are machine words. */
  lemma HeaderRange(heap: Heap, h: nat)
    requires heap.Valid() && Closed(heap.hdr, h)
    ensures heap.hdr[h].next < WORD_LIMIT && heap.hdr[h].prev < WORD_LIMIT && h < WORD_LIMIT
  {
    heap.HeaderFits(h);
    if heap.hdr[h].next != 0 { heap.HeaderFits(heap.hdr[h].next); }
    if heap.hdr[h].prev != 0 { heap.HeaderFits(heap.hdr[h].prev); }
  }

  class Allocator {
    const heap: Heap
    var freeHead: nat
    var liveHead: nat
    ghost var st: State

    /** The bytes represent st: one header per chunk, linked into the two lists. */
    ghost predicate Represents()
      reads this, heap, heap.bytes
    {
      && heap.Valid() && st.lo == heap.base && st.brk == heap.brk
      && heap.hdr.Keys == Headered(st) && 0 !in heap.hdr
      && Linked(heap.hdr, freeHead, st.free, 0) && Linked(heap.hdr, liveHead, st.live, 1)
      && Starts(st.free) !! Starts(st.live)
    }

    ghost predicate Valid()
      reads this, heap, heap.bytes
    {
      Represents() && Inv(st)
    }

    lemma BlockBounds(c: Chunk)
      requires Valid() && c in st.live
      ensures c.addr in heap.hdr && heap.hdr[c.addr].size == c.size && MIN_CHUNK <= c.size
      ensures heap.base <= c.addr && c.End() <= heap.Limit()
      ensures heap.ClearOfHeaders(c.Payload(), c.size - HEADER)
    {
      var i :| 0 <= i < |st.live| && st.live[i] == c;
      forall a | a in heap.hdr ensures a + HEADER <= c.Payload() || c.End() <= a {
        var d := ChunkStarting(st, a);
        PayloadClear(st, c, d);
      }
    }

    constructor (heap: Heap)
      ensures this.heap == heap
    {
      this.heap := heap;
      freeHead, liveHead := 0, 0;
      st := State(0, 0, [], []);
    }

    /** Both lists empty, over an empty heap. */
    method Init()
      requires heap.Valid() && heap.brk == heap.base && heap.hdr == map[]
      modifies this
      ensures Valid() && st == State(heap.base, heap.base, [], [])
    {
      freeHead := 0;
      liveHead := 0;
      st := State(heap.base, heap.base, [], []);
    }

    // ----- List surgery -----

    method RemoveFromList(h: nat)
      requires heap.Valid() && Closed(heap.hdr, h)
      modifies this`freeHead, this`liveHead, heap`hdr, heap.bytes
      ensures heap.Valid() && heap.hdr == Unlinked(old(heap.hdr), h) && heap.hdr.Keys == old(heap.hdr.Keys)
      ensures freeHead == if old(freeHead) == h then old(heap.hdr)[h].next else old(freeHead)
      ensures liveHead == if old(liveHead) == h then old(heap.hdr)[h].next else old(liveHead)
      ensures KeptOutside(old(heap.hdr.Keys), heap.base, old(heap.bytes[..]), heap.bytes[..])
    {
      var hd := heap.Load(h);
      if h == freeHead {
        freeHead := hd.next;
      }
      if h == liveHead {
        liveHead := hd.next;
      }
      HeaderRange(heap, h);
      if hd.prev != 0 {
        heap.Store(hd.prev, Next, hd.next);
      }
      hd := heap.Load(h);
      if hd.next != 0 {
        heap.Store(hd.next, Prev, hd.prev);
      }
    }

    /** merge_regions: nxt is swallowed exactly when h ends where it begins. */
    method MergeRegions(h: nat, nxt: nat) returns (merged: bool)
      requires heap.Valid() && 0 !in heap.hdr && h != nxt
      requires h != 0 ==> h in heap.hdr
      requires nxt != 0 ==> Closed(heap.hdr, nxt)
      requires h != 0 && nxt != 0 && h + heap.hdr[h].size == nxt ==>
                 heap.hdr[h].size + heap.hdr[nxt].size < WORD_LIMIT && heap.hdr[nxt].next != h
      modifies heap`hdr, heap.bytes
      ensures merged <==> h != 0 && nxt != 0 && h + old(heap.hdr)[h].size == nxt
      ensures heap.Valid() && heap.hdr.Keys == old(heap.hdr.Keys)
      ensures heap.hdr == if merged then Merged(old(heap.hdr), h, nxt) else old(heap.hdr)
      ensures KeptOutside(old(heap.hdr.Keys), heap.base, old(heap.bytes[..]), heap.bytes[..])
    {
      if h == 0 || nxt == 0 {
        return false;
      }
      var a := heap.Load(h);
      if h + a.size != nxt {
        return false;
      }
      HeaderRange(heap, nxt);
      heap.HeaderFits(h);
      var b := heap.Load(nxt);
      heap.Store(h, Next, b.next);
      if b.next != 0 {
        heap.Store(b.next, Prev, h);
      }
      a := heap.Load(h);
      b := heap.Load(nxt);
      heap.Store(h, Size, a.size + b.size);
      heap.Store(h, Status, 0);
      return true;
    }

    method InsertLive(h: nat)
      requires heap.Valid() && 0 !in heap.hdr && h in heap.hdr && liveHead != h
      requires liveHead != 0 ==> liveHead in heap.hdr
      modifies this`liveHead, heap`hdr, heap.bytes
      ensures heap.Valid() && heap.hdr.Keys == old(heap.hdr.Keys) && liveHead == h
      ensures heap.hdr == LinkedBetween(WithStatus(old(heap.hdr), h, 1), 0, h, old(liveHead))
      ensures KeptOutside(old(heap.hdr.Keys), heap.base, old(heap.bytes[..]), heap.bytes[..])
    {
      heap.HeaderFits(h);
      if liveHead != 0 { heap.HeaderFits(liveHead); }
      heap.Store(h, Status, 1);
      heap.Store(h, Next, liveHead);
      if liveHead != 0 {
        heap.Store(liveHead, Prev, h);
      }
      heap.Store(h, Prev, 0);
      liveHead := h;
    }

    // ----- Address-ordered insertion -----

    /** h goes between temp and the header before it. */
    method LinkBefore(h: nat, temp: nat)
      requires heap.Valid() && h in heap.hdr && h != temp && Closed(heap.hdr, temp)
      requires heap.hdr[temp].prev != 0 && heap.hdr[temp].prev != h
      modifies heap`hdr, heap.bytes
      ensures heap.Valid() && heap.hdr.Keys == old(heap.hdr.Keys)
      ensures heap.hdr == LinkedBetween(old(heap.hdr), old(heap.hdr)[temp].prev, h, temp)
      ensures KeptOutside(old(heap.hdr.Keys), heap.base, old(heap.bytes[..]), heap.bytes[..])
    {
      heap.HeaderFits(h);
      HeaderRange(heap, temp);
      heap.Store(h, Next, temp);
      var t := heap.Load(temp);
      heap.Store(t.prev, Next, h);
      heap.Store(h, Prev, t.prev);
      heap.Store(temp, Prev, h);
    }

    /** h becomes the whole free list, or its head before temp. */
    method LinkFirst(h: nat, temp: nat)
      requires heap.Valid() && 0 !in heap.hdr && h in heap.hdr && temp != h && (temp != 0 ==> temp in heap.hdr)
      modifies this`freeHead, heap`hdr, heap.bytes
      ensures heap.Valid() && heap.hdr.Keys == old(heap.hdr.Keys) && freeHead == h
      ensures heap.hdr == LinkedBetween(old(heap.hdr), 0, h, temp)
      ensures KeptOutside(old(heap.hdr.Keys), heap.base, old(heap.bytes[..]), heap.bytes[..])
    {
      heap.HeaderFits(h);
      if temp == 0 {
        heap.Store(h, Prev, 0);
        heap.Store(h, Next, 0);
      } else {
        heap.HeaderFits(temp);
        heap.Store(h, Next, temp);
        heap.Store(h, Prev, 0);
        heap.Store(temp, Prev, h);
      }
      freeHead := h;
    }

    /** The walk of insert_free_list, when h lies above the head of the list. */
    method LinkAfterHead(h: nat, ghost f: seq<Chunk>) returns (ghost k: nat)
      requires heap.Valid() && 0 !in heap.hdr && h in heap.hdr && heap.hdr[h].status == 0
      requires freeHead == AddrAt(f, 0) && Chain(heap.hdr, f) && Distinct(f) && h !in Starts(f)
      requires f != [] && f[0].addr <= h
      modifies heap`hdr, heap.bytes
      ensures k > 0 && StopsAt(f, h, k)
      ensures heap.Valid() && heap.hdr.Keys == old(heap.hdr.Keys)
      ensures heap.hdr == LinkedBetween(old(heap.hdr), AddrAt(f, k - 1), h, AddrAt(f, k))
      ensures KeptOutside(old(heap.hdr.Keys), heap.base, old(heap.bytes[..]), heap.bytes[..])
    {
      var temp, last := freeHead, 0;
      k := 0;
      NotAmong(f, h);
      while temp != 0
        invariant 0 <= k <= |f| && temp == AddrAt(f, k) && last == AddrAt(f, k - 1)
        invariant heap.Valid() && heap.hdr == old(heap.hdr) && heap.bytes[..] == old(heap.bytes[..])
        invariant k > 0 ==> f[k-1].addr <= h
        decreases |f| - k
      {
        ChainClosed(heap.hdr, f, k);
        if h < temp {
          LinkBefore(h, temp);
          return;
        }
        last := temp;
        var t := heap.Load(temp);
        temp := t.next;
        k := k + 1;
      }
      assert LinkedAt(heap.hdr, f, k - 1);
      heap.HeaderFits(last);
      heap.HeaderFits(h);
      heap.Store(last, Next, h);
      heap.Store(h, Prev, last);
      heap.Store(h, Next, 0);
    }

    /** The first half of insert_free_list: h goes in before the first chunk above it. */
    method LinkSorted(h: nat, ghost f: seq<Chunk>) returns (alone: bool, ghost k: nat)
      requires heap.Valid() && 0 !in heap.hdr && h in heap.hdr
      requires Linked(heap.hdr, freeHead, f, 0) && h !in Starts(f)
      modifies this`freeHead, heap`hdr, heap.bytes
      ensures alone <==> f == []
      ensures StopsAt(f, h, k)
      ensures heap.Valid() && heap.hdr.Keys == old(heap.hdr.Keys)
      ensures heap.hdr == LinkedBetween(WithStatus(old(heap.hdr), h, 0), AddrAt(f, k - 1), h, AddrAt(f, k))
      ensures freeHead == if k == 0 then h else old(freeHead)
      ensures KeptOutside(old(heap.hdr.Keys), heap.base, old(heap.bytes[..]), heap.bytes[..])
    {
      var temp := freeHead;
      k := 0;
      alone := temp == 0;
      heap.HeaderFits(h);
      heap.Store(h, Status, 0);
      if temp != 0 { assert LinkedAt(old(heap.hdr), f, 0); NotAmong(f, h); }
      if temp == 0 || h < temp {
        LinkFirst(h, temp);
      } else {
        ChainKept(old(heap.hdr), heap.hdr, f);
        k := LinkAfterHead(h, f);
      }
    }

    /** Merging the k-th chunk of the list with the next, if there is one and they touch. */
    method MergeAt(h: nat, nxt: nat, ghost s: seq<Chunk>, ghost k: nat) returns (merged: bool)
      requires heap.Valid() && 0 !in heap.hdr && Linked(heap.hdr, freeHead, s, 0) && Representable(s)
      requires k < |s| && s[k].addr == h && nxt == AddrAt(s, k + 1)
      modifies heap`hdr, heap.bytes
      ensures merged <==> k + 1 < |s| && s[k].End() == s[k+1].addr
      ensures heap.Valid() && heap.hdr.Keys == old(heap.hdr.Keys)
      ensures Linked(heap.hdr, freeHead, MergeNext(s, k), 0)
      ensures merged ==> heap.hdr[nxt] == old(heap.hdr)[nxt]
      ensures forall a :: a in heap.hdr && a !in Starts(s) ==> heap.hdr[a] == old(heap.hdr)[a]
      ensures KeptOutside(old(heap.hdr.Keys), heap.base, old(heap.bytes[..]), heap.bytes[..])
    {
      ChainClosed(heap.hdr, s, k);
      if k + 1 < |s| { ChainClosed(heap.hdr, s, k + 1); MergedChain(heap.hdr, s, k); }
      merged := MergeRegions(h, nxt);
      if merged {
        forall a | a in heap.hdr && a !in Starts(s) ensures heap.hdr[a] == old(heap.hdr)[a] {
          MergedOthers(old(heap.hdr), s, k, a);
        }
        assert MergeNext(s, k) == JoinedAt(s, k);
      }
    }

    /** Merging h with its successor, and trying once more; the second try never merges. */
    method MergeForward(h: nat, ghost s: seq<Chunk>, ghost k: nat)
      requires heap.Valid() && 0 !in heap.hdr && Linked(heap.hdr, freeHead, s, 0) && Representable(s)
      requires k < |s| && s[k].addr == h
      requires k + 2 < |s| ==> s[k+1].End() < s[k+2].addr
      modifies heap`hdr, heap.bytes
      ensures heap.Valid() && heap.hdr.Keys == old(heap.hdr.Keys)
      ensures Linked(heap.hdr, freeHead, MergeNext(s, k), 0)
      ensures forall a :: a in heap.hdr && a !in Starts(s) ==> heap.hdr[a] == old(heap.hdr)[a]
      ensures KeptOutside(old(heap.hdr.Keys), heap.base, old(heap.bytes[..]), heap.bytes[..])
    {
      ChainClosed(heap.hdr, s, k);
      var hd := heap.Load(h);
      var merged := MergeAt(h, hd.next, s, k);
      if merged {
        ghost var t := MergeNext(s, k);
        assert t == JoinedAt(s, k);
        ChainClosed(heap.hdr, t, k);
        if k + 1 < |t| { ChainClosed(heap.hdr, t, k + 1); }
        hd := heap.Load(h);
        var again := MergeRegions(h, hd.next);
        assert !again;
      }
    }

    /** Merging h into its predecessor, and trying once more through h's stale header. */
    method MergeBackward(h: nat, ghost s: seq<Chunk>, ghost k: nat)
      requires heap.Valid() && 0 !in heap.hdr && Linked(heap.hdr, freeHead, s, 0) && Representable(s)
      requires k < |s| && s[k].addr == h
      modifies heap`hdr, heap.bytes
      ensures heap.Valid() && heap.hdr.Keys == old(heap.hdr.Keys)
      ensures Linked(heap.hdr, freeHead, MergePrev(s, k), 0)
      ensures forall a :: a in heap.hdr && a !in Starts(s) ==> heap.hdr[a] == old(heap.hdr)[a]
      ensures KeptOutside(old(heap.hdr.Keys), heap.base, old(heap.bytes[..]), heap.bytes[..])
    {
      ChainClosed(heap.hdr, s, k);
      var hd := heap.Load(h);
      if hd.prev == 0 {
        var merged := MergeRegions(0, h);
        return;
      }
      ChainClosed(heap.hdr, s, k - 1);
      var merged := MergeAt(hd.prev, h, s, k - 1);
      if merged {
        assert MergePrev(s, k) == JoinedAt(s, k - 1);
        hd := heap.Load(h);
        var again := MergeRegions(hd.prev, h);
        assert !again;
      }
    }

    method Coalesce(h: nat, ghost s: seq<Chunk>, ghost k: nat)
      requires heap.Valid() && 0 !in heap.hdr && Linked(heap.hdr, freeHead, s, 0) && Representable(s)
      requires k < |s| && s[k].addr == h
      requires k + 2 < |s| ==> s[k+1].End() < s[k+2].addr
      modifies heap`hdr, heap.bytes
      ensures heap.Valid() && heap.hdr.Keys == old(heap.hdr.Keys)
      ensures Linked(heap.hdr, freeHead, MergePrev(MergeNext(s, k), k), 0)
      ensures forall a :: a in heap.hdr && a !in Starts(s) ==> heap.hdr[a] == old(heap.hdr)[a]
      ensures KeptOutside(old(heap.hdr.Keys), heap.base, old(heap.bytes[..]), heap.bytes[..])
    {
      JoinedRepresentable(s, k);
      JoinedStarts(s, k);
      MergeForward(h, s, k);
      MergeBackward(h, MergeNext(s, k), k);
    }

    /** insert_free_list: h joins the free list in address order, coalesced with the
        neighbours it touches.  Headers swallowed by a merge stay behind as stale bytes. */
    method InsertFreeList(h: nat, ghost f: seq<Chunk>, ghost c: Chunk)
      requires heap.Valid() && 0 !in heap.hdr && h in heap.hdr && heap.hdr[h].size == c.size
      requires Linked(heap.hdr, freeHead, f, 0) && h !in Starts(f) && Representable(f) && Representable([c])
      requires c.addr == h && Insertable(f, c)
      modifies this`freeHead, heap`hdr, heap.bytes
      ensures heap.Valid() && heap.hdr.Keys == old(heap.hdr.Keys)
      ensures Linked(heap.hdr, freeHead, InsertFree(f, c), 0)
      ensures forall a :: a in heap.hdr && a != h && a !in Starts(f) ==> heap.hdr[a] == old(heap.hdr)[a]
      ensures KeptOutside(old(heap.hdr.Keys), heap.base, old(heap.bytes[..]), heap.bytes[..])
    {
      ghost var m, head := heap.hdr, freeHead;
      var alone;
      ghost var k;
      alone, k := LinkSorted(h, f);
      WalkFits(f, k, c);
      SortedInsertion(m, head, f, k, c);
      InsertedRepresentable(f, k, c);
      InsertedStarts(f, k, c);
      if !alone {
        Coalesce(h, Inserted(f, k, c), k);
      }
      LinkedAsInserted(heap.hdr, freeHead, f, k, c);
    }

    // ----- Taking a chunk off the free list -----

    /** remove_from_list then insert_allocated_list: from the free to the live list. */
    method MoveToLive(temp: nat, ghost f: seq<Chunk>, ghost k: nat, ghost l: seq<Chunk>, ghost c: Chunk)
      requires heap.Valid() && 0 !in heap.hdr && c.addr == temp
      requires Chain(heap.hdr, f) && Distinct(f) && k < |f| && f[k].addr == temp && freeHead == AddrAt(f, 0)
      requires Tagged(heap.hdr, Without(f, k), 0) && temp in heap.hdr && heap.hdr[temp].size == c.size
      requires Linked(heap.hdr, liveHead, l, 1) && Starts(f) !! Starts(l)
      modifies this`freeHead, this`liveHead, heap`hdr, heap.bytes
      ensures heap.Valid() && heap.hdr.Keys == old(heap.hdr.Keys)
      ensures Linked(heap.hdr, freeHead, Without(f, k), 0) && Linked(heap.hdr, liveHead, [c] + l, 1)
      ensures KeptOutside(old(heap.hdr.Keys), heap.base, old(heap.bytes[..]), heap.bytes[..])
    {
      ChainClosed(heap.hdr, f, k);
      UnlinkedLists(heap.hdr, freeHead, f, k, 0, liveHead, l, 1);
      StartsWithout(f, k);
      StartsAt(f, k);
      RemoveFromList(temp);
      HeadersPresent(heap.hdr, liveHead, l, 1);
      PushedLists(heap.hdr, c, 1, liveHead, l, freeHead, Without(f, k), 0);
      InsertLive(temp);
    }

    /** A close fit moves whole to the live list. */
    method TakeWholeChunk(temp: nat, ghost k: nat)
      requires Represents() && k < |st.free| && temp == st.free[k].addr
      modifies this, heap`hdr, heap.bytes
      ensures Represents() && st == TakeWhole(old(st), k)
      ensures KeptOutside(old(Headered(st)), heap.base, old(heap.bytes[..]), heap.bytes[..])
    {
      ghost var c := st.free[k];
      HeadersPresent(heap.hdr, freeHead, st.free, 0);
      StartsAt(st.free, k);
      StartsWithout(st.free, k);
      StartsCons(c, st.live);
      MoveToLive(temp, st.free, k, st.live, c);
      st := TakeWhole(st, k);
    }

    method SetSizeStatus(h: nat, size: nat, status: nat)
      requires heap.Valid() && h in heap.hdr && size < WORD_LIMIT && status < WORD_LIMIT
      modifies heap`hdr, heap.bytes
      ensures heap.Valid() && heap.hdr == Resized(old(heap.hdr), h, size, status)
      ensures heap.hdr.Keys == old(heap.hdr.Keys)
      ensures KeptOutside(old(heap.hdr.Keys), heap.base, old(heap.bytes[..]), heap.bytes[..])
    {
      heap.Store(h, Size, size);
      heap.Store(h, Status, status);
    }

    /** init_header and set_chunk_size_status on the bytes at h: a fresh free header. */
    method FreshHeader(h: nat, size: nat)
      requires heap.Valid() && heap.Fits(h) && size < WORD_LIMIT && Clear(heap.hdr, h)
      modifies heap`hdr, heap.bytes
      ensures heap.Valid() && heap.hdr == old(heap.hdr)[h := Header(size, 0, 0, 0)]
      ensures KeptOutside(old(heap.hdr.Keys) + {h}, heap.base, old(heap.bytes[..]), heap.bytes[..])
    {
      heap.Track(h);
      assert heap.hdr.Keys == old(heap.hdr.Keys) + {h};
      heap.Store(h, Next, 0);
      heap.Store(h, Prev, 0);
      heap.Store(h, Status, 0);
      SetSizeStatus(h, size, 0);
    }

    /** The front of a free chunk goes live; the rest is on no list yet. */
    method CarveFront(temp: nat, newsize: nat, ghost f: seq<Chunk>, ghost k: nat, ghost l: seq<Chunk>)
      requires heap.Valid() && 0 !in heap.hdr && newsize < WORD_LIMIT
      requires Linked(heap.hdr, freeHead, f, 0) && k < |f| && f[k].addr == temp
      requires Linked(heap.hdr, liveHead, l, 1) && Starts(f) !! Starts(l)
      modifies this`freeHead, this`liveHead, heap`hdr, heap.bytes
      ensures heap.Valid() && heap.hdr.Keys == old(heap.hdr.Keys)
      ensures Linked(heap.hdr, freeHead, Without(f, k), 0)
      ensures Linked(heap.hdr, liveHead, [Chunk(temp, newsize)] + l, 1)
      ensures KeptOutside(old(heap.hdr.Keys), heap.base, old(heap.bytes[..]), heap.bytes[..])
    {
      HeadersPresent(heap.hdr, freeHead, f, 0);
      StartsAt(f, k);
      ResizedChain(heap.hdr, f, k, newsize, 1);
      LinkedFramed(heap.hdr, Resized(heap.hdr, temp, newsize, 1), {temp}, liveHead, l, 1);
      SetSizeStatus(temp, newsize, 1);
      MoveToLive(temp, f, k, l, Chunk(temp, newsize));
    }

    /** The rest of a split chunk becomes a free chunk of its own. */
    method ReturnRemainder(next: nat, size: nat, ghost f: seq<Chunk>, ghost l: seq<Chunk>)
      requires heap.Valid() && 0 !in heap.hdr && heap.Fits(next) && size < WORD_LIMIT
      requires Clear(heap.hdr, next)
      requires Linked(heap.hdr, freeHead, f, 0) && Linked(heap.hdr, liveHead, l, 1) && Starts(f) !! Starts(l)
      requires Representable(f) && Representable([Chunk(next, size)])
      requires Insertable(f, Chunk(next, size))
      modifies this`freeHead, heap`hdr, heap.bytes
      ensures heap.Valid() && heap.hdr.Keys == old(heap.hdr.Keys) + {next}
      ensures Linked(heap.hdr, freeHead, InsertFree(f, Chunk(next, size)), 0)
      ensures Linked(heap.hdr, liveHead, l, 1)
      ensures KeptOutside(old(heap.hdr.Keys) + {next}, heap.base, old(heap.bytes[..]), heap.bytes[..])
    {
      ghost var m, b, keys := heap.hdr, heap.bytes[..], heap.hdr.Keys + {next};
      HeadersPresent(m, freeHead, f, 0);
      HeadersPresent(m, liveHead, l, 1);
      FreshHeader(next, size);
      LinkedFramed(m, heap.hdr, {next}, freeHead, f, 0);
      LinkedFramed(m, heap.hdr, {next}, liveHead, l, 1);
      ghost var m2, b2 := heap.hdr, heap.bytes[..];
      InsertFreeList(next, f, Chunk(next, size));
      LinkedFramed(m2, heap.hdr, Starts(f) + {next}, liveHead, l, 1);
      KeptSteps(keys, heap.base, b, keys, b2, keys, heap.bytes[..]);
    }

    method SplitChunk(temp: nat, newsize: nat, ghost f: seq<Chunk>, ghost k: nat, ghost l: seq<Chunk>)
      requires heap.Valid() && 0 !in heap.hdr && newsize < WORD_LIMIT
      requires Linked(heap.hdr, freeHead, f, 0) && k < |f| && f[k].addr == temp && newsize < f[k].size < WORD_LIMIT
      requires Linked(heap.hdr, liveHead, l, 1) && Starts(f) !! Starts(l)
      requires heap.Fits(temp + newsize) && Clear(heap.hdr, temp + newsize)
      requires SplitReady(f, k, newsize)
      modifies this`freeHead, this`liveHead, heap`hdr, heap.bytes
      ensures heap.Valid() && heap.hdr.Keys == old(heap.hdr.Keys) + {temp + newsize}
      ensures Linked(heap.hdr, freeHead, InsertFree(Without(f, k), Chunk(temp + newsize, f[k].size - newsize)), 0)
      ensures Linked(heap.hdr, liveHead, [Chunk(temp, newsize)] + l, 1)
      ensures KeptOutside(old(heap.hdr.Keys) + {temp + newsize}, heap.base, old(heap.bytes[..]), heap.bytes[..])
    {
      ghost var keys, b0 := heap.hdr.Keys, heap.bytes[..];
      HeadersPresent(heap.hdr, freeHead, f, 0);
      StartsAt(f, k);
      StartsWithout(f, k);
      StartsCons(Chunk(temp, newsize), l);
      var hd := heap.Load(temp);
      CarveFront(temp, newsize, f, k, l);
      ghost var b1 := heap.bytes[..];
      ReturnRemainder(temp + newsize, hd.size - newsize, Without(f, k), [Chunk(temp, newsize)] + l);
      KeptSteps(keys + {temp + newsize}, heap.base, b0, keys, b1, keys + {temp + newsize}, heap.bytes[..]);
    }

    /** A split: the front of the chunk goes live, the rest becomes a new free chunk. */
    method TakePartChunk(temp: nat, newsize: nat, ghost k: nat)
      requires Represents() && k < |st.free| && temp == st.free[k].addr && newsize < st.free[k].size < WORD_LIMIT
      requires SplitReady(st.free, k, newsize) && SplitHeaders(st, k, newsize)
      requires heap.Fits(temp + newsize) && Clear(heap.hdr, temp + newsize)
      modifies this, heap`hdr, heap.bytes
      ensures Represents() && st == TakePart(old(st), k, newsize)
      ensures KeptOutside(old(Headered(st)) + Headered(st), heap.base, old(heap.bytes[..]), heap.bytes[..])
    {
      SplitChunk(temp, newsize, st.free, k, st.live);
      st := TakePart(st, k, newsize);
      assert old(Headered(st)) + Headered(st) == Headered(st);
    }

    // ----- The search -----

    method TakeSplit(temp: nat, newsize: nat, ghost k: nat)
      requires Valid() && Splits(st, k, newsize) && temp == st.free[k].addr
      modifies this, heap`hdr, heap.bytes
      ensures Represents() && st == TakePart(old(st), k, newsize)
      ensures KeptOutside(old(Headered(st)) + Headered(st), heap.base, old(heap.bytes[..]), heap.bytes[..])
    {
      SplitFacts(st, k, newsize, heap);
      TakePartChunk(temp, newsize, k);
    }

    method TakeChunk(temp: nat, pass: Pass, newsize: nat, ghost k: nat)
      requires Valid() && newsize % ALIGNMENT == 0 && MIN_CHUNK <= newsize
      requires k < |st.free| && temp == st.free[k].addr && Takes(pass, st.free[k].size, newsize)
      modifies this, heap`hdr, heap.bytes
      ensures Valid()
      ensures st == if pass == CloseFit then TakeWhole(old(st), k) else TakePart(old(st), k, newsize)
      ensures KeptOutside(old(Headered(st)) + Headered(st), heap.base, old(heap.bytes[..]), heap.bytes[..])
    {
      if pass == CloseFit {
        TakeWholeInv(st, k);
        TakeWholeChunk(temp, k);
        KeptWider(old(Headered(st)), old(Headered(st)) + Headered(st), heap.base, old(heap.bytes[..]), heap.bytes[..]);
      } else {
        TakePartInv(st, k, newsize);
        TakeSplit(temp, newsize, k);
      }
    }

    /** The walk: to the first chunk the pass takes, or past the last. */
    method FindFit(pass: Pass, newsize: nat) returns (temp: nat, ghost k: nat)
      requires Represents()
      ensures temp == AddrAt(st.free, FirstFit(st.free, pass, newsize)) && k == FirstFit(st.free, pass, newsize)
      ensures k < |st.free| <==> temp != 0
    {
      temp, k := freeHead, 0;
      while temp != 0
        invariant 0 <= k <= |st.free| && temp == AddrAt(st.free, k)
        invariant forall i :: 0 <= i < k ==> !Takes(pass, st.free[i].size, newsize)
        decreases |st.free| - k
      {
        ChainClosed(heap.hdr, st.free, k);
        var hd := heap.Load(temp);
        if hd.status == 0 && Takes(pass, hd.size, newsize) {
          FirstFitIs(st.free, pass, newsize, k);
          return;
        }
        temp := hd.next;
        k := k + 1;
      }
      FirstFitIs(st.free, pass, newsize, k);
    }

    /** One pass over the free list.  p is null when the pass takes no chunk. */
    method SearchPass(pass: Pass, newsize: nat) returns (p: nat)
      requires Valid() && newsize % ALIGNMENT == 0 && MIN_CHUNK <= newsize
      modifies this, heap`hdr, heap.bytes
      ensures Valid()
      ensures FirstFit(old(st.free), pass, newsize) == |old(st.free)| ==> p == 0 && st == old(st)
      ensures var k := FirstFit(old(st.free), pass, newsize);
        k < |old(st.free)| ==>
          && p == old(st.free)[k].Payload()
          && st == if pass == CloseFit then TakeWhole(old(st), k) else TakePart(old(st), k, newsize)
      ensures KeptOutside(old(Headered(st)) + Headered(st), heap.base, old(heap.bytes[..]), heap.bytes[..])
    {
      var temp;
      ghost var k;
      temp, k := FindFit(pass, newsize);
      if temp == 0 {
        return 0;
      }
      TakeChunk(temp, pass, newsize, k);
      return temp + HEADER;
    }

    /** find_memory: a close fit if there is one, else a split if that is possible. */
    method FindMemory(size: nat) returns (p: nat)
      requires Valid() && (size > 0 ==> SizeFitsInt(size))
      modifies this, heap`hdr, heap.bytes
      ensures Valid()
      ensures if size == 0 || Find(old(st.free), Need(size)) == Nothing then p == 0 && st == old(st)
              else st == ChunkModel.Malloc(old(st), size) && p == st.live[0].Payload()
      ensures KeptOutside(old(Headered(st)) + Headered(st), heap.base, old(heap.bytes[..]), heap.bytes[..])
    {
      if size == 0 {
        return 0;
      }
      NeedBounds(size);
      var newsize := Need(size);
      var i := 0;
      while i < 2
        invariant 0 <= i <= 2 && Valid() && st == old(st)
        invariant i >= 1 ==> FirstFit(st.free, CloseFit, newsize) == |st.free|
        invariant i == 2 ==> FirstFit(st.free, Split, newsize) == |st.free|
        invariant KeptOutside(Headered(st), heap.base, old(heap.bytes[..]), heap.bytes[..])
      {
        ghost var b := heap.bytes[..];
        p := SearchPass(if i == 0 then CloseFit else Split, newsize);
        KeptSteps(old(Headered(st)) + Headered(st), heap.base, old(heap.bytes[..]), old(Headered(st)), b,
                  old(Headered(st)) + Headered(st), heap.bytes[..]);
        if p != 0 {
          return p;
        }
        assert old(Headered(st)) + Headered(st) == Headered(st);
        i := i + 1;
      }
      p := 0;
    }

    // ----- malloc, free, realloc -----

    /** The break moves up and a header is written at its old place, on no list yet. */
    method ExtendTop(newsize: nat) returns (h: nat)
      requires Represents() && MIN_CHUNK <= newsize && heap.brk + newsize <= heap.Limit()
      requires Clear(heap.hdr, heap.brk)
      modifies heap`hdr, heap`brk, heap.bytes
      ensures h == old(heap.brk) && heap.Valid() && heap.brk == h + newsize
      ensures heap.hdr.Keys == old(heap.hdr.Keys) + {h} && h !in old(heap.hdr) && heap.hdr[h].size == newsize
      ensures Linked(heap.hdr, freeHead, st.free, 0) && Linked(heap.hdr, liveHead, st.live, 1)
      ensures KeptOutside(heap.hdr.Keys, heap.base, old(heap.bytes[..]), heap.bytes[..])
    {
      ghost var m, f, l := heap.hdr, st.free, st.live;
      HeadersPresent(m, freeHead, f, 0);
      HeadersPresent(m, liveHead, l, 1);
      h := heap.Sbrk(newsize);
      heap.Track(h);
      LinkedFramed(m, heap.hdr, {h}, freeHead, f, 0);
      LinkedFramed(m, heap.hdr, {h}, liveHead, l, 1);
      ghost var m1 := heap.hdr;
      SetSizeStatus(h, newsize, 1);
      LinkedFramed(m1, heap.hdr, {h}, freeHead, f, 0);
      LinkedFramed(m1, heap.hdr, {h}, liveHead, l, 1);
    }

    /** The heap grows by a chunk that goes straight to the live list. */
    method GrowHeap(newsize: nat) returns (h: nat)
      requires Represents() && MIN_CHUNK <= newsize && heap.brk + newsize <= heap.Limit()
      requires Clear(heap.hdr, heap.brk)
      modifies this, heap`hdr, heap`brk, heap.bytes
      ensures Represents() && st == Grow(old(st), newsize) && h == old(heap.brk)
      ensures KeptOutside(Headered(st), heap.base, old(heap.bytes[..]), heap.bytes[..])
    {
      ghost var f, l := st.free, st.live;
      h := ExtendTop(newsize);
      PushedLists(heap.hdr, Chunk(h, newsize), 1, liveHead, l, freeHead, f, 0);
      InsertLive(h);
      StartsCons(Chunk(h, newsize), l);
      st := Grow(st, newsize);
    }

    method MallocBlock(size: nat) returns (p: nat)
      requires Valid() && (size > 0 ==> SizeFitsInt(size) && HasRoom(st, size, heap.Limit()))
      modifies this, heap`hdr, heap`brk, heap.bytes
      ensures Valid()
      ensures if size == 0 then p == 0 && st == old(st)
              else st == ChunkModel.Malloc(old(st), size) && p == st.live[0].Payload()
      ensures KeptOutside(old(Headered(st)) + Headered(st), heap.base, old(heap.bytes[..]), heap.bytes[..])
    {
      if size == 0 {
        return 0;
      }
      p := FindMemory(size);
      if p != 0 {
        return p;
      }
      ghost var b, keys := heap.bytes[..], old(Headered(st));
      NeedBounds(size);
      TopClear(st, heap);
      GrowInv(st, Need(size));
      var newsize := Need(size);
      var h := GrowHeap(newsize);
      KeptSteps(keys + Headered(st), heap.base, old(heap.bytes[..]), keys + keys, b, Headered(st), heap.bytes[..]);
      return h + HEADER;
    }

    method Malloc(size: nat) returns (p: nat)
      requires Valid() && (size > 0 ==> SizeFitsInt(size) && HasRoom(st, size, heap.Limit()))
      modifies this, heap`hdr, heap`brk, heap.bytes
      ensures Valid()
      ensures if size == 0 then p == 0 && st == old(st)
              else st == ChunkModel.Malloc(old(st), size) && p == st.live[0].Payload()
      ensures PayloadsKept(old(st), st, heap.base, old(heap.bytes[..]), heap.bytes[..])
    {
      p := MallocBlock(size);
      PayloadIsolation(old(st), st, heap.base, old(heap.bytes[..]), heap.bytes[..]);
    }

    /** The list work of mm_free: off the live list, onto the free list. */
    method Unlive(h: nat, ghost f: seq<Chunk>, ghost l: seq<Chunk>, ghost k: nat)
      requires heap.Valid() && 0 !in heap.hdr && Starts(f) !! Starts(l)
      requires Linked(heap.hdr, freeHead, f, 0) && Linked(heap.hdr, liveHead, l, 1) && k < |l| && l[k].addr == h
      requires Representable(f) && Representable([l[k]]) && Insertable(f, l[k])
      modifies this`freeHead, this`liveHead, heap`hdr, heap.bytes
      ensures heap.Valid() && heap.hdr.Keys == old(heap.hdr.Keys)
      ensures Linked(heap.hdr, freeHead, InsertFree(f, l[k]), 0) && Linked(heap.hdr, liveHead, Without(l, k), 1)
      ensures KeptOutside(old(heap.hdr.Keys), heap.base, old(heap.bytes[..]), heap.bytes[..])
    {
      ghost var m := heap.hdr;
      HeadersPresent(m, liveHead, l, 1);
      StartsAt(l, k);
      StartsWithout(l, k);
      ChainClosed(m, l, k);
      TaggedWithout(m, l, k, 1);
      UnlinkedLists(m, liveHead, l, k, 1, freeHead, f, 0);
      RemoveFromList(h);
      ghost var m1 := heap.hdr;
      InsertFreeList(h, f, l[k]);
      LinkedFramed(m1, heap.hdr, Starts(f) + {h}, liveHead, Without(l, k), 1);
    }

    method ReleaseChunk(h: nat, ghost k: nat)
      requires Represents() && k < |st.live| && st.live[k].addr == h
      requires Representable(st.free) && Representable([st.live[k]]) && Insertable(st.free, st.live[k])
      modifies this, heap`hdr, heap.bytes
      ensures Represents() && st == Release(old(st), k)
      ensures KeptOutside(old(Headered(st)), heap.base, old(heap.bytes[..]), heap.bytes[..])
    {
      ghost var f, l := InsertFree(st.free, st.live[k]), Without(st.live, k);
      Unlive(h, st.free, st.live, k);
      StartsWithout(st.live, k);
      StartsAt(st.live, k);
      InsertFreeStarts(st.free, st.live[k]);
      HeadersPresent(heap.hdr, freeHead, f, 0);
      HeadersPresent(heap.hdr, liveHead, l, 1);
      ghost var m := heap.hdr;
      heap.Retain(Starts(f) + Starts(l));
      KeptIn(m, heap.hdr, freeHead, f, 0);
      KeptIn(m, heap.hdr, liveHead, l, 1);
      st := Release(st, k);
    }

    method Free(ptr: nat)
      requires Valid() && IsLive(st, ptr)
      modifies this, heap`hdr, heap.bytes
      ensures Valid() && st == ChunkModel.Free(old(st), ptr)
      ensures PayloadsKept(old(st), st, heap.base, old(heap.bytes[..]), heap.bytes[..])
    {
      ghost var k := LiveIndex(st.live, ptr);
      ReleaseInv(st, k);
      LimboApart(st, k);
      var h := ptr - HEADER;
      ReleaseChunk(h, k);
      KeptWider(old(Headered(st)), old(Headered(st)) + Headered(st), heap.base, old(heap.bytes[..]), heap.bytes[..]);
      PayloadIsolation(old(st), st, heap.base, old(heap.bytes[..]), heap.bytes[..]);
    }

    /** The memcpy of mm_realloc, from block c to block d. */
    method CopyPayload(ptr: nat, newptr: nat, size: nat, ghost c: Chunk, ghost d: Chunk)
      requires Valid() && c in st.live && d in st.live && c.Apart(d) && size + HEADER <= d.size
      requires ptr == c.Payload() && newptr == d.Payload()
      modifies heap.bytes
      ensures Valid()
      ensures Copied(heap.base, old(heap.bytes[..]), ptr, heap.bytes[..], newptr, PayloadPart(c, size))
      ensures OnlyWithin(heap.base, old(heap.bytes[..]), heap.bytes[..], newptr, PayloadPart(c, size))
    {
      BlockBounds(c);
      BlockBounds(d);
      var h := heap.Load(ptr - HEADER);
      var copySize := h.size - HEADER;
      if size < copySize {
        copySize := size;
      }
      heap.Copy(newptr, ptr, copySize);
    }

    /** A fresh block holding the old block's data; the old block is still live. */
    method MoveBlock(ptr: nat, size: nat, ghost c: Chunk) returns (newptr: nat)
      requires Valid() && c in st.live && c.Payload() == ptr
      requires size > 0 && SizeFitsInt(size) && HasRoom(st, size, heap.Limit())
      modifies this, heap`hdr, heap`brk, heap.bytes
      ensures Valid() && st == ChunkModel.Malloc(old(st), size) && newptr == st.live[0].Payload()
      ensures Copied(heap.base, old(heap.bytes[..]), ptr, heap.bytes[..], newptr, PayloadPart(c, size))
      ensures PayloadsKept(old(st), st, heap.base, old(heap.bytes[..]), heap.bytes[..])
    {
      NewBlock(st, size, c);
      newptr := Malloc(size);
      ghost var d, b := st.live[0], heap.bytes[..];
      CopyPayload(ptr, newptr, size, c, d);
      CopyKept(old(st), st, heap.base, old(heap.bytes[..]), b, heap.bytes[..], d, PayloadPart(c, size));
      CopiedFrom(heap.base, old(heap.bytes[..]), b, heap.bytes[..], c, newptr, PayloadPart(c, size));
    }

    /** A fresh block with the old block's data, then the old block goes. */
    method Realloc(ptr: nat, size: nat) returns (newptr: nat)
      requires Valid() && (ptr != 0 ==> IsLive(st, ptr))
      requires size > 0 ==> SizeFitsInt(size) && HasRoom(st, size, heap.Limit())
      modifies this, heap`hdr, heap`brk, heap.bytes
      ensures Valid() && MayRealloc(old(st), ptr, size) && st == ChunkModel.Realloc(old(st), ptr, size)
      ensures newptr == if size == 0 then 0 else ChunkModel.Malloc(old(st), size).live[0].Payload()
      ensures size > 0 && ptr != 0 ==>
                Copied(heap.base, old(heap.bytes[..]), ptr, heap.bytes[..], newptr, CopySize(old(st), ptr, size))
      ensures PayloadsKept(old(st), st, heap.base, old(heap.bytes[..]), heap.bytes[..])
    {
      newptr := 0;
      if size > 0 {
        if ptr != 0 {
          StillLive(st, size, ptr);
          newptr := MoveBlock(ptr, size, BlockAt(st, ptr));
        } else {
          newptr := Malloc(size);
        }
      }
      if ptr != 0 {
        ghost var mid, b := st, heap.bytes[..];
        Free(ptr);
        KeptThroughFree(old(st), mid, ptr, heap.base, old(heap.bytes[..]), b, heap.bytes[..]);
        if size > 0 {
          CopiedThroughFree(old(st), mid, size, ptr, heap.base, old(heap.bytes[..]), b, heap.bytes[..]);
        }
      }
    }
  }
}
