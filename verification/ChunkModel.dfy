/** The allocator's heap as values: which chunks tile it, and which list each is on.

    A chunk is a 32-byte header followed by its payload.  The free list is kept in
    address order, the list of live chunks most recently inserted first.  The
    operations below are what the byte-level allocator is proved against. */
module ChunkModel {
  import CArith
  import opened Layout

  const ALIGNMENT: nat := 16
  const MIN_GUARD: nat := 1024
  const MIN_CHUNK: nat := 48

  datatype Chunk = Chunk(addr: nat, size: nat) {
    function End(): nat { addr + size }
    function Payload(): nat { addr + HEADER }
    predicate Has(x: int) { addr <= x < addr + size }
    predicate Apart(c: Chunk) { End() <= c.addr || c.End() <= addr }
  }

  datatype State = State(lo: nat, brk: nat, free: seq<Chunk>, live: seq<Chunk>)

  // ----- The operations -----

  /** The next multiple of 16: adding 15 and clearing the low four bits. */
  function Align(n: nat): (r: nat)
    ensures r % ALIGNMENT == 0 && n <= r < n + ALIGNMENT
  {
    (n + (ALIGNMENT - 1)) / ALIGNMENT * ALIGNMENT
  }

  /** The chunk size that a request of n bytes needs. */
  function Need(n: nat): nat { Align(n) + HEADER }

  /** The size arithmetic of a request does not overflow an int. */
  predicate SizeFitsInt(n: nat) { Need(n) + MIN_GUARD <= CArith.INT_MAX }

  function Without<T>(s: seq<T>, k: nat): seq<T>
    requires k < |s|
  {
    s[..k] + s[k+1..]
  }

  /** c joined with the first chunk of the list when the two touch. */
  function AddFront(f: seq<Chunk>, c: Chunk): seq<Chunk> {
    if f != [] && c.End() == f[0].addr then [Chunk(c.addr, c.size + f[0].size)] + f[1..] else [c] + f
  }

  /** c inserted in address order, coalesced with the neighbours it touches. */
  function InsertFree(f: seq<Chunk>, c: Chunk): seq<Chunk> {
    if f == [] || c.addr < f[0].addr then AddFront(f, c)
    else if f[0].End() == c.addr then AddFront(f[1..], Chunk(f[0].addr, f[0].size + c.size))
    else [f[0]] + InsertFree(f[1..], c)
  }

  datatype Pass = CloseFit | Split

  /** Whether the search, in the given pass, takes a free chunk of this size. */
  predicate Takes(pass: Pass, size: nat, need: nat) {
    match pass
    case CloseFit => need <= size < need + MIN_GUARD
    case Split => size > need + HEADER
  }

  /** The index of the first chunk the pass takes, or |f|. */
  function FirstFit(f: seq<Chunk>, pass: Pass, need: nat): (k: nat)
    ensures k <= |f|
    ensures forall i :: 0 <= i < k ==> !Takes(pass, f[i].size, need)
    ensures k < |f| ==> Takes(pass, f[k].size, need)
  {
    if f == [] || Takes(pass, f[0].size, need) then 0 else 1 + FirstFit(f[1..], pass, need)
  }

  datatype Found = Nothing | Whole(index: nat) | Part(index: nat)

  /** The two-pass search of the free list. */
  function Find(f: seq<Chunk>, need: nat): (r: Found)
    ensures r.Whole? ==> r.index < |f|
    ensures r.Part? ==> r.index < |f| && f[r.index].size > need
  {
    var k := FirstFit(f, CloseFit, need);
    if k < |f| then Whole(k)
    else
      var j := FirstFit(f, Split, need);
      if j < |f| then Part(j) else Nothing
  }

  function TakeWhole(st: State, k: nat): State
    requires k < |st.free|
  {
    st.(free := Without(st.free, k), live := [st.free[k]] + st.live)
  }

  /** The front of free chunk k goes live; the rest is inserted as a free chunk anew. */
  function TakePart(st: State, k: nat, need: nat): State
    requires k < |st.free| && st.free[k].size > need
  {
    var c := st.free[k];
    st.(free := InsertFree(Without(st.free, k), Chunk(c.addr + need, c.size - need)),
        live := [Chunk(c.addr, need)] + st.live)
  }

  function Grow(st: State, need: nat): State {
    st.(brk := st.brk + need, live := [Chunk(st.brk, need)] + st.live)
  }

  /** The state after a request of n > 0 bytes; the new chunk heads the live list. */
  function Malloc(st: State, n: nat): (r: State)
    requires n > 0
    ensures r.live != [] && r.live[1..] == st.live
  {
    match Find(st.free, Need(n))
    case Whole(k) => TakeWhole(st, k)
    case Part(k) => TakePart(st, k, Need(n))
    case Nothing => Grow(st, Need(n))
  }

  /** The request is met without growing the heap past the given limit. */
  predicate HasRoom(st: State, n: nat, limit: nat) {
    Find(st.free, Need(n)) == Nothing ==> st.brk + Need(n) <= limit
  }

  /** The index of the live chunk whose payload starts at p, or |live|. */
  function LiveIndex(live: seq<Chunk>, p: nat): (k: nat)
    ensures k <= |live|
    ensures forall i :: 0 <= i < k ==> live[i].Payload() != p
    ensures k < |live| ==> live[k].Payload() == p
  {
    if live == [] || live[0].Payload() == p then 0 else 1 + LiveIndex(live[1..], p)
  }

  predicate IsLive(st: State, p: nat) { LiveIndex(st.live, p) < |st.live| }

  function BlockAt(st: State, p: nat): (c: Chunk)
    requires IsLive(st, p)
    ensures c in st.live && c.Payload() == p
  {
    st.live[LiveIndex(st.live, p)]
  }

  function Free(st: State, p: nat): State
    requires IsLive(st, p)
  {
    st.(free := InsertFree(st.free, BlockAt(st, p)), live := Without(st.live, LiveIndex(st.live, p)))
  }

  predicate MayRealloc(st: State, p: nat, n: nat) {
    p == 0 || IsLive(if n == 0 then st else Malloc(st, n), p)
  }

  /** A resize: a fresh block if n > 0, then the old block, if there is one, is freed. */
  function Realloc(st: State, p: nat, n: nat): State
    requires MayRealloc(st, p, n)
  {
    var grown := if n == 0 then st else Malloc(st, n);
    if p == 0 then grown else Free(grown, p)
  }

  // ----- The heap invariant -----

  ghost predicate GapAt(f: seq<Chunk>, i: nat)
    requires i + 1 < |f|
  {
    f[i].End() < f[i + 1].addr
  }

  /** In address order with a gap between neighbours: sorted, disjoint and fully coalesced. */
  ghost predicate Gapped(f: seq<Chunk>) {
    forall i :: 0 <= i < |f| - 1 ==> GapAt(f, i)
  }

  ghost predicate PairwiseApart(s: seq<Chunk>) {
    forall i, j :: 0 <= i < j < |s| ==> s[i].Apart(s[j])
  }

  ghost predicate ApartFrom(s: seq<Chunk>, c: Chunk) {
    forall i :: 0 <= i < |s| ==> s[i].Apart(c)
  }

  ghost predicate Sized(s: seq<Chunk>, lo: nat, brk: nat) {
    forall i :: 0 <= i < |s| ==> MIN_CHUNK <= s[i].size && lo <= s[i].addr && s[i].End() <= brk
  }

  ghost predicate OnGrid(c: Chunk) { c.addr % ALIGNMENT == 0 && c.size % ALIGNMENT == 0 }

  ghost predicate Aligned(s: seq<Chunk>) {
    forall i {:trigger OnGrid(s[i])} :: 0 <= i < |s| ==> OnGrid(s[i])
  }

  ghost predicate Covers(s: seq<Chunk>, x: int) {
    exists i :: 0 <= i < |s| && s[i].Has(x)
  }

  function Total(s: seq<Chunk>): nat {
    if s == [] then 0 else s[0].size + Total(s[1..])
  }

  ghost predicate Separate(f: seq<Chunk>, l: seq<Chunk>) {
    forall i :: 0 <= i < |f| ==> ApartFrom(l, f[i])
  }

  ghost predicate Tiled(st: State) {
    && (forall x :: st.lo <= x < st.brk ==> Covers(st.free, x) || Covers(st.live, x))
    && Total(st.free) + Total(st.live) == st.brk - st.lo
  }

  ghost predicate Inv(st: State) {
    && 0 < st.lo <= st.brk && st.lo % ALIGNMENT == 0 && st.brk % ALIGNMENT == 0
    && Sized(st.free, st.lo, st.brk) && Sized(st.live, st.lo, st.brk)
    && Aligned(st.free) && Aligned(st.live)
    && Gapped(st.free) && PairwiseApart(st.live) && Separate(st.free, st.live)
    && Tiled(st)
  }

  // ----- Lists -----

  lemma {:induction false} TotalAppend(s: seq<Chunk>, t: seq<Chunk>)
    ensures Total(s + t) == Total(s) + Total(t)
  {
    if s == [] {
      assert s + t == t;
    } else {
      TotalAppend(s[1..], t);
      assert (s + t)[1..] == s[1..] + t;
    }
  }

  lemma CoversAppend(s: seq<Chunk>, t: seq<Chunk>, x: int)
    ensures Covers(s + t, x) <==> Covers(s, x) || Covers(t, x)
  {
    if i :| 0 <= i < |s| && s[i].Has(x) { assert (s + t)[i].Has(x); }
    if i :| 0 <= i < |t| && t[i].Has(x) { assert (s + t)[|s| + i].Has(x); }
  }

  lemma CoversOne(c: Chunk, x: int)
    ensures Covers([c], x) <==> c.Has(x)
  {
    if c.Has(x) { assert [c][0].Has(x); }
  }

  lemma CoversCons(c: Chunk, s: seq<Chunk>, x: int)
    ensures Covers([c] + s, x) <==> c.Has(x) || Covers(s, x)
  {
    CoversAppend([c], s, x);
    CoversOne(c, x);
  }

  lemma TotalCons(c: Chunk, s: seq<Chunk>)
    ensures Total([c] + s) == c.size + Total(s)
  {
    assert ([c] + s)[1..] == s;
  }

  lemma TotalWithout(s: seq<Chunk>, k: nat)
    requires k < |s|
    ensures Total(Without(s, k)) == Total(s) - s[k].size
  {
    TotalAppend(s[..k], s[k+1..]);
    assert s[k..][1..] == s[k+1..];
    TotalAppend(s[..k], s[k..]);
    assert s[..k] + s[k..] == s;
  }

  lemma TotalUpdate(s: seq<Chunk>, k: nat, c: Chunk)
    requires k < |s|
    ensures Total(s[k := c]) == Total(s) - s[k].size + c.size
  {
    var t := s[k := c];
    TotalWithout(s, k);
    TotalWithout(t, k);
    assert Without(s, k) == Without(t, k);
  }

  lemma CoversWithout(s: seq<Chunk>, k: nat, x: int)
    requires k < |s|
    ensures Covers(s, x) <==> Covers(Without(s, k), x) || s[k].Has(x)
  {
    var t := Without(s, k);
    if i :| 0 <= i < |s| && s[i].Has(x) {
      if i < k { assert t[i].Has(x); } else if i > k { assert t[i-1].Has(x); }
    }
    if i :| 0 <= i < |t| && t[i].Has(x) {
      assert s[if i < k then i else i + 1].Has(x);
    }
  }

  // ----- Coalesced lists -----

  lemma {:induction false} GappedOrder(f: seq<Chunk>, i: nat, j: nat)
    requires Gapped(f) && i < j < |f|
    ensures f[i].End() < f[j].addr
  {
    assert GapAt(f, j - 1);
    if i < j - 1 { GappedOrder(f, i, j - 1); }
  }

  lemma GappedCons(c: Chunk, f: seq<Chunk>)
    requires Gapped(f) && (f != [] ==> c.End() < f[0].addr)
    ensures Gapped([c] + f)
  {
    var g := [c] + f;
    forall i | 0 <= i < |g| - 1 ensures GapAt(g, i) {
      if i > 0 { assert GapAt(f, i - 1); }
    }
  }

  lemma GappedTail(f: seq<Chunk>)
    requires Gapped(f) && f != []
    ensures Gapped(f[1..]) && (|f| > 1 ==> f[0].End() < f[1].addr)
  {
    forall i | 0 <= i < |f[1..]| - 1 ensures GapAt(f[1..], i) { assert GapAt(f, i + 1); }
    if |f| > 1 { assert GapAt(f, 0); }
  }

  lemma GappedWithout(f: seq<Chunk>, k: nat)
    requires Gapped(f) && k < |f|
    ensures Gapped(Without(f, k))
  {
    var g := Without(f, k);
    forall i | 0 <= i < |g| - 1 ensures GapAt(g, i) {
      assert GapAt(f, if i < k then i else i + 1);
      if i + 1 == k { GappedOrder(f, i, k + 1); }
    }
  }

  // ----- Coalescing insertion -----

  /** c may join the coalesced list f. */
  ghost predicate Insertable(f: seq<Chunk>, c: Chunk) {
    Gapped(f) && ApartFrom(f, c) && c.size > 0
  }

  lemma InsertableTail(f: seq<Chunk>, c: Chunk)
    requires Insertable(f, c) && f != []
    ensures Insertable(f[1..], c)
  {
    GappedTail(f);
  }

  lemma InsertFreeHead(f: seq<Chunk>, c: Chunk)
    ensures var g := InsertFree(f, c);
      g != [] && (g[0].addr == c.addr || (f != [] && g[0].addr == f[0].addr))
  {
  }

  lemma AddFrontGapped(f: seq<Chunk>, c: Chunk)
    requires Gapped(f) && (f != [] ==> c.End() <= f[0].addr)
    ensures Gapped(AddFront(f, c))
  {
    if f != [] && c.End() == f[0].addr {
      GappedTail(f);
      GappedCons(Chunk(c.addr, c.size + f[0].size), f[1..]);
    } else {
      GappedCons(c, f);
    }
  }

  /** Inserting a chunk that is apart from a coalesced list leaves it coalesced. */
  lemma {:induction false} InsertFreeGapped(f: seq<Chunk>, c: Chunk)
    requires Insertable(f, c)
    ensures Gapped(InsertFree(f, c))
  {
    if f == [] {
    } else if c.addr < f[0].addr {
      AddFrontGapped(f, c);
    } else {
      assert f[0].Apart(c);
      GappedTail(f);
      if |f| > 1 { assert f[1].Apart(c); }
      if f[0].End() == c.addr {
        AddFrontGapped(f[1..], Chunk(f[0].addr, f[0].size + c.size));
      } else {
        InsertableTail(f, c);
        InsertFreeGapped(f[1..], c);
        InsertFreeHead(f[1..], c);
        GappedCons(f[0], InsertFree(f[1..], c));
      }
    }
  }

  lemma AddFrontTotal(f: seq<Chunk>, c: Chunk)
    ensures Total(AddFront(f, c)) == Total(f) + c.size
  {
    TotalCons(c, f);
    if f != [] { TotalCons(Chunk(c.addr, c.size + f[0].size), f[1..]); }
  }

  lemma {:induction false} InsertFreeTotal(f: seq<Chunk>, c: Chunk)
    ensures Total(InsertFree(f, c)) == Total(f) + c.size
  {
    if f == [] || c.addr < f[0].addr {
      AddFrontTotal(f, c);
    } else if f[0].End() == c.addr {
      AddFrontTotal(f[1..], Chunk(f[0].addr, f[0].size + c.size));
    } else {
      InsertFreeTotal(f[1..], c);
      TotalCons(f[0], InsertFree(f[1..], c));
    }
  }

  lemma CoversHead(f: seq<Chunk>, x: int)
    ensures Covers(f, x) <==> f != [] && (f[0].Has(x) || Covers(f[1..], x))
  {
    if f != [] {
      CoversCons(f[0], f[1..], x);
      assert [f[0]] + f[1..] == f;
    }
  }

  lemma AddFrontCovers(f: seq<Chunk>, c: Chunk, x: int)
    ensures Covers(AddFront(f, c), x) <==> Covers(f, x) || c.Has(x)
  {
    CoversHead(f, x);
    CoversCons(c, f, x);
    if f != [] { CoversCons(Chunk(c.addr, c.size + f[0].size), f[1..], x); }
  }

  /** The list afterwards covers exactly what it covered before and the chunk. */
  lemma {:induction false} InsertFreeCovers(f: seq<Chunk>, c: Chunk, x: int)
    ensures Covers(InsertFree(f, c), x) <==> Covers(f, x) || c.Has(x)
  {
    CoversHead(f, x);
    if f == [] || c.addr < f[0].addr {
      AddFrontCovers(f, c, x);
    } else if f[0].End() == c.addr {
      AddFrontCovers(f[1..], Chunk(f[0].addr, f[0].size + c.size), x);
    } else {
      InsertFreeCovers(f[1..], c, x);
      CoversCons(f[0], InsertFree(f[1..], c), x);
    }
  }

  // ----- Splitting -----

  lemma RemainderInFront(f: seq<Chunk>, q: Chunk)
    requires Gapped(f) && f != [] && q.addr > f[0].addr && q.End() == f[0].End()
    ensures InsertFree(f[1..], q) == f[0 := q]
  {
    if |f| > 1 {
      assert GapAt(f, 0);
    }
    assert f[0 := q] == [q] + f[1..];
  }

  /** The remainder of a split takes the place of the chunk that was split: it touches no
      free neighbour, so nothing is coalesced. */
  lemma {:induction false} RemainderInPlace(f: seq<Chunk>, k: nat, need: nat)
    requires Gapped(f) && k < |f| && f[k].size > need > 0
    ensures InsertFree(Without(f, k), Chunk(f[k].addr + need, f[k].size - need))
         == f[k := Chunk(f[k].addr + need, f[k].size - need)]
    decreases k
  {
    var q := Chunk(f[k].addr + need, f[k].size - need);
    if k == 0 {
      assert Without(f, 0) == f[1..];
      RemainderInFront(f, q);
    } else {
      GappedTail(f);
      GappedOrder(f, 0, k);
      RemainderInPlace(f[1..], k - 1, need);
      assert Without(f, k)[1..] == Without(f[1..], k - 1);
      assert f[k := q] == [f[0]] + f[1..][k - 1 := q];
    }
  }

  lemma UpdateGapped(f: seq<Chunk>, k: nat, c: Chunk)
    requires Gapped(f) && k < |f| && f[k].addr <= c.addr && c.End() == f[k].End()
    ensures Gapped(f[k := c])
  {
    var g := f[k := c];
    forall i | 0 <= i < |g| - 1 ensures GapAt(g, i) { assert GapAt(f, i); }
  }
}
