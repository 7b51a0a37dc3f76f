/** Every allocator operation keeps the chunks tiling the heap and the free list coalesced. */
module HeapInvariant {
  import opened Layout
  import opened ChunkModel

  lemma ListsApart(st: State, f: Chunk, l: Chunk)
    requires Inv(st) && f in st.free && l in st.live
    ensures f.Apart(l)
  {
    var i :| 0 <= i < |st.free| && st.free[i] == f;
    assert ApartFrom(st.live, f);
  }

  /** No byte belongs to a free and to a live chunk: with coverage, each heap byte lies in
      exactly one chunk. */
  lemma OneList(st: State, x: int)
    requires Inv(st)
    ensures st.lo <= x < st.brk <==> Covers(st.free, x) || Covers(st.live, x)
    ensures !(Covers(st.free, x) && Covers(st.live, x))
  {
    if i, j :| 0 <= i < |st.free| && 0 <= j < |st.live| && st.free[i].Has(x) && st.live[j].Has(x) {
      ListsApart(st, st.free[i], st.live[j]);
    }
  }

  lemma FreeApart(f: seq<Chunk>, i: nat, k: nat)
    requires Gapped(f) && i < |f| && k < |f| && i != k
    ensures f[i].Apart(f[k])
  {
    if i < k { GappedOrder(f, i, k); } else { GappedOrder(f, k, i); }
  }

  lemma TakeWholeSeparate(st: State, k: nat)
    requires Inv(st) && k < |st.free|
    ensures Separate(TakeWhole(st, k).free, TakeWhole(st, k).live)
    ensures PairwiseApart(TakeWhole(st, k).live)
  {
    var r, c := TakeWhole(st, k), st.free[k];
    assert ApartFrom(st.live, c);
    forall i | 0 <= i < |r.free| ensures ApartFrom(r.live, r.free[i]) {
      var j := if i < k then i else i + 1;
      assert r.free[i] == st.free[j];
      FreeApart(st.free, j, k);
      assert ApartFrom(st.live, st.free[j]);
    }
  }

  lemma TakeWholeTiled(st: State, k: nat)
    requires Inv(st) && k < |st.free|
    ensures Tiled(TakeWhole(st, k))
  {
    var r, c := TakeWhole(st, k), st.free[k];
    forall x | r.lo <= x < r.brk ensures Covers(r.free, x) || Covers(r.live, x) {
      CoversWithout(st.free, k, x);
      CoversCons(c, st.live, x);
    }
    TotalWithout(st.free, k);
    TotalCons(c, st.live);
  }

  lemma AlignedCons(c: Chunk, s: seq<Chunk>)
    requires OnGrid(c) && Aligned(s)
    ensures Aligned([c] + s)
  {
    var t := [c] + s;
    forall i | 0 <= i < |t| ensures OnGrid(t[i]) { if i > 0 { assert OnGrid(s[i - 1]); } }
  }

  lemma AlignedWithout(s: seq<Chunk>, k: nat)
    requires Aligned(s) && k < |s|
    ensures Aligned(Without(s, k)) && OnGrid(s[k])
  {
    var t := Without(s, k);
    forall i | 0 <= i < |t| ensures OnGrid(t[i]) { assert OnGrid(s[if i < k then i else i + 1]); }
  }

  lemma TakeWholeInv(st: State, k: nat)
    requires Inv(st) && k < |st.free|
    ensures Inv(TakeWhole(st, k))
  {
    TakeWholeSeparate(st, k);
    TakeWholeTiled(st, k);
    GappedWithout(st.free, k);
    AlignedWithout(st.free, k);
    AlignedCons(st.free[k], st.live);
  }

  ghost predicate Splits(st: State, k: nat, need: nat) {
    && k < |st.free| && st.free[k].size > need + HEADER
    && need % ALIGNMENT == 0 && MIN_CHUNK <= need
  }

  // ----- Splitting a chunk -----

  /** c is cut in two at need: front p, rest q. */
  ghost predicate Cut(c: Chunk, need: nat, p: Chunk, q: Chunk) {
    c.size > need && p == Chunk(c.addr, need) && q == Chunk(c.addr + need, c.size - need)
  }

  lemma CutSeparate(f: seq<Chunk>, l: seq<Chunk>, k: nat, need: nat, p: Chunk, q: Chunk)
    requires Gapped(f) && Separate(f, l) && PairwiseApart(l) && k < |f| && Cut(f[k], need, p, q)
    ensures Separate(f[k := q], [p] + l) && PairwiseApart([p] + l)
  {
    var g, r := f[k := q], [p] + l;
    assert ApartFrom(l, f[k]);
    forall i | 0 <= i < |g| ensures ApartFrom(r, g[i]) {
      if i != k { FreeApart(f, i, k); }
      assert ApartFrom(l, f[i]);
    }
  }

  lemma CutCovers(f: seq<Chunk>, l: seq<Chunk>, k: nat, need: nat, p: Chunk, q: Chunk, x: int)
    requires k < |f| && Cut(f[k], need, p, q) && (Covers(f, x) || Covers(l, x))
    ensures Covers(f[k := q], x) || Covers([p] + l, x)
  {
    assert Without(f[k := q], k) == Without(f, k);
    CoversCons(p, l, x);
    CoversWithout(f, k, x);
    CoversWithout(f[k := q], k, x);
  }

  lemma CutSized(f: seq<Chunk>, l: seq<Chunk>, k: nat, need: nat, p: Chunk, q: Chunk, lo: nat, brk: nat)
    requires Sized(f, lo, brk) && Sized(l, lo, brk) && k < |f| && Cut(f[k], need, p, q)
    requires MIN_CHUNK <= need && MIN_CHUNK <= q.size
    ensures Sized(f[k := q], lo, brk) && Sized([p] + l, lo, brk)
  {
  }

  lemma CutAligned(f: seq<Chunk>, l: seq<Chunk>, k: nat, need: nat, p: Chunk, q: Chunk)
    requires Aligned(f) && Aligned(l) && k < |f| && Cut(f[k], need, p, q) && need % ALIGNMENT == 0
    ensures Aligned(f[k := q]) && Aligned([p] + l) && q.size % ALIGNMENT == 0
  {
    var g := f[k := q];
    assert OnGrid(f[k]) && OnGrid(p) && OnGrid(q);
    forall i | 0 <= i < |g| ensures OnGrid(g[i]) { assert OnGrid(f[i]); }
    AlignedCons(p, l);
  }

  /** Cutting a free chunk in two, the front live and the rest free, keeps the invariant. */
  lemma CutInv(st: State, k: nat, need: nat, p: Chunk, q: Chunk, r: State)
    requires Inv(st) && Splits(st, k, need) && Cut(st.free[k], need, p, q)
    requires r == st.(free := st.free[k := q], live := [p] + st.live)
    ensures Inv(r)
  {
    CutSeparate(st.free, st.live, k, need, p, q);
    CutAligned(st.free, st.live, k, need, p, q);
    assert OnGrid(st.free[k]);
    CutSized(st.free, st.live, k, need, p, q, st.lo, st.brk);
    UpdateGapped(st.free, k, q);
    TotalUpdate(st.free, k, q);
    TotalCons(p, st.live);
    forall x | st.lo <= x < st.brk ensures Covers(st.free[k := q], x) || Covers([p] + st.live, x) {
      CutCovers(st.free, st.live, k, need, p, q, x);
    }
  }

  lemma TakePartCuts(st: State, k: nat, need: nat)
    requires Gapped(st.free) && k < |st.free| && st.free[k].size > need > 0
    ensures var c := st.free[k];
      TakePart(st, k, need)
      == st.(free := st.free[k := Chunk(c.addr + need, c.size - need)], live := [Chunk(c.addr, need)] + st.live)
  {
    RemainderInPlace(st.free, k, need);
  }

  lemma TakePartInv(st: State, k: nat, need: nat)
    requires Inv(st) && Splits(st, k, need)
    ensures Inv(TakePart(st, k, need))
  {
    var c := st.free[k];
    TakePartCuts(st, k, need);
    CutInv(st, k, need, Chunk(c.addr, need), Chunk(c.addr + need, c.size - need), TakePart(st, k, need));
  }

  lemma GrowSeparate(f: seq<Chunk>, l: seq<Chunk>, lo: nat, c: Chunk)
    requires Separate(f, l) && PairwiseApart(l) && Sized(f, lo, c.addr) && Sized(l, lo, c.addr)
    ensures Separate(f, [c] + l) && PairwiseApart([c] + l)
  {
    var r := [c] + l;
    forall i | 0 <= i < |f| ensures ApartFrom(r, f[i]) {
      assert ApartFrom(l, f[i]);
    }
  }

  lemma GrowTiled(st: State, need: nat)
    requires Tiled(st) && st.lo <= st.brk
    ensures Tiled(Grow(st, need))
  {
    var r, c := Grow(st, need), Chunk(st.brk, need);
    forall x | r.lo <= x < r.brk ensures Covers(r.free, x) || Covers(r.live, x) {
      CoversCons(c, st.live, x);
    }
    TotalCons(c, st.live);
  }

  lemma GrowInv(st: State, need: nat)
    requires Inv(st) && need % ALIGNMENT == 0 && MIN_CHUNK <= need
    ensures Inv(Grow(st, need))
  {
    var c := Chunk(st.brk, need);
    GrowSeparate(st.free, st.live, st.lo, c);
    GrowTiled(st, need);
    AlignedCons(c, st.live);
  }

  lemma NeedBounds(n: nat)
    requires n > 0
    ensures Need(n) % ALIGNMENT == 0 && MIN_CHUNK <= Need(n) && n + HEADER <= Need(n)
  {
  }

  lemma MallocKeepsInv(st: State, n: nat)
    requires Inv(st) && n > 0
    ensures Inv(Malloc(st, n))
  {
    NeedBounds(n);
    match Find(st.free, Need(n))
    case Whole(k) => TakeWholeInv(st, k);
    case Part(k) => TakePartInv(st, k, Need(n));
    case Nothing => GrowInv(st, Need(n));
  }

  lemma MallocSize(st: State, n: nat)
    requires n > 0
    ensures Need(n) <= Malloc(st, n).live[0].size < Need(n) + MIN_GUARD
    ensures Malloc(st, n).live == [Malloc(st, n).live[0]] + st.live
    ensures Malloc(st, n).lo == st.lo && st.brk <= Malloc(st, n).brk
  {
  }

  /** The chunk at the head of the live list is apart from the rest of it. */
  lemma FreshChunk(r: State)
    requires Inv(r) && r.live != []
    ensures ApartFrom(r.live[1..], r.live[0]) && OnGrid(r.live[0])
    ensures r.lo <= r.live[0].addr && r.live[0].End() <= r.brk
  {
    assert OnGrid(r.live[0]);
    forall i | 0 <= i < |r.live[1..]| ensures r.live[1..][i].Apart(r.live[0]) {
      assert r.live[0].Apart(r.live[i + 1]);
    }
  }

  lemma FreshBlock(r: State, n: nat)
    requires Inv(r) && r.live != [] && n > 0 && Need(n) <= r.live[0].size
    ensures var c := r.live[0];
      && ApartFrom(r.live[1..], c)
      && c.Payload() % ALIGNMENT == 0 && r.lo <= c.Payload() && c.Payload() + n <= c.End() <= r.brk
  {
    NeedBounds(n);
    FreshChunk(r);
  }

  /** A request keeps the invariant, leaves every live chunk as it was, and hands out an
      aligned chunk inside the heap, apart from all of them, with room for the request and its
      header and less than ALIGNMENT + MIN_GUARD bytes to spare. */
  lemma MallocInv(st: State, n: nat)
    requires Inv(st) && n > 0
    ensures var r := Malloc(st, n); var c := r.live[0];
      && Inv(r) && r.live == [c] + st.live && r.lo == st.lo && st.brk <= r.brk
      && ApartFrom(st.live, c)
      && c.Payload() % ALIGNMENT == 0 && r.lo <= c.Payload() && c.Payload() + n <= c.End() <= r.brk
      && n + HEADER <= c.size < n + HEADER + ALIGNMENT + MIN_GUARD
  {
    MallocKeepsInv(st, n);
    MallocSize(st, n);
    FreshBlock(Malloc(st, n), n);
  }

  lemma {:induction false} InsertFreeSized(f: seq<Chunk>, c: Chunk, lo: nat, brk: nat)
    requires Sized(f, lo, brk) && Sized([c], lo, brk)
    ensures Sized(InsertFree(f, c), lo, brk)
  {
    assert [c][0] == c;
    if !(f == [] || c.addr < f[0].addr || f[0].End() == c.addr) {
      InsertFreeSized(f[1..], c, lo, brk);
    }
  }

  lemma AlignedTail(s: seq<Chunk>)
    requires Aligned(s) && s != []
    ensures OnGrid(s[0]) && Aligned(s[1..])
  {
    forall i | 0 <= i < |s[1..]| ensures OnGrid(s[1..][i]) { assert OnGrid(s[i + 1]); }
  }

  lemma AddFrontAligned(f: seq<Chunk>, c: Chunk)
    requires Aligned(f) && OnGrid(c)
    ensures Aligned(AddFront(f, c))
  {
    if f != [] && c.End() == f[0].addr {
      AlignedTail(f);
      AlignedCons(Chunk(c.addr, c.size + f[0].size), f[1..]);
    } else {
      AlignedCons(c, f);
    }
  }

  lemma {:induction false} InsertFreeAligned(f: seq<Chunk>, c: Chunk)
    requires Aligned(f) && OnGrid(c)
    ensures Aligned(InsertFree(f, c))
  {
    if f == [] || c.addr < f[0].addr {
      AddFrontAligned(f, c);
    } else {
      AlignedTail(f);
      if f[0].End() == c.addr {
        AddFrontAligned(f[1..], Chunk(f[0].addr, f[0].size + c.size));
      } else {
        InsertFreeAligned(f[1..], c);
        AlignedCons(f[0], InsertFree(f[1..], c));
      }
    }
  }

  /** Chunks that share no byte are apart. */
  lemma NoCommonByte(c: Chunk, d: Chunk)
    requires c.size > 0 && d.size > 0
    requires forall x :: !(c.Has(x) && d.Has(x))
    ensures c.Apart(d)
  {
    var x := if c.addr < d.addr then d.addr else c.addr;
    assert !(c.Has(x) && d.Has(x));
  }

  /** Taking a live chunk out leaves it apart from all that remains. */
  lemma LimboApart(st: State, k: nat)
    requires Inv(st) && k < |st.live|
    ensures ApartFrom(st.free, st.live[k]) && ApartFrom(Without(st.live, k), st.live[k])
    ensures Insertable(st.free, st.live[k])
  {
    var c := st.live[k];
    forall i | 0 <= i < |st.free| ensures st.free[i].Apart(c) { ListsApart(st, st.free[i], c); }
  }

  function Release(st: State, k: nat): State
    requires k < |st.live|
  {
    st.(free := InsertFree(st.free, st.live[k]), live := Without(st.live, k))
  }

  lemma ReleaseCovers(st: State, k: nat, x: int)
    requires k < |st.live|
    ensures Covers(Release(st, k).free, x) <==> Covers(st.free, x) || st.live[k].Has(x)
    ensures Covers(st.live, x) <==> Covers(Release(st, k).live, x) || st.live[k].Has(x)
  {
    InsertFreeCovers(st.free, st.live[k], x);
    CoversWithout(st.live, k, x);
  }

  lemma ReleaseSeparate(st: State, k: nat)
    requires Inv(st) && k < |st.live|
    requires Sized(Release(st, k).free, st.lo, st.brk)
    ensures Separate(Release(st, k).free, Release(st, k).live)
  {
    var g, rest := Release(st, k).free, Release(st, k).live;
    LimboApart(st, k);
    forall i, j | 0 <= i < |g| && 0 <= j < |rest| ensures rest[j].Apart(g[i]) {
      assert rest[j].Apart(st.live[k]);
      forall x | g[i].Has(x) ensures !rest[j].Has(x) {
        ReleaseCovers(st, k, x);
        OneList(st, x);
      }
      NoCommonByte(rest[j], g[i]);
    }
  }

  lemma ReleaseTiled(st: State, k: nat)
    requires Tiled(st) && k < |st.live|
    ensures Tiled(Release(st, k))
  {
    InsertFreeTotal(st.free, st.live[k]);
    TotalWithout(st.live, k);
    forall x | st.lo <= x < st.brk ensures Covers(Release(st, k).free, x) || Covers(Release(st, k).live, x) {
      ReleaseCovers(st, k, x);
    }
  }

  lemma ReleaseSized(st: State, k: nat)
    requires Inv(st) && k < |st.live|
    ensures var r := Release(st, k);
      && Sized(r.free, st.lo, st.brk) && Sized(r.live, st.lo, st.brk)
      && Aligned(r.free) && Aligned(r.live) && PairwiseApart(r.live)
  {
    InsertFreeSized(st.free, st.live[k], st.lo, st.brk);
    AlignedWithout(st.live, k);
    InsertFreeAligned(st.free, st.live[k]);
  }

  /** The invariant of a heap of the same extent, from its parts. */
  lemma InvFromParts(st: State, r: State)
    requires Inv(st) && r.lo == st.lo && r.brk == st.brk
    requires Sized(r.free, st.lo, st.brk) && Sized(r.live, st.lo, st.brk) && Aligned(r.free) && Aligned(r.live)
    requires Gapped(r.free) && PairwiseApart(r.live) && Separate(r.free, r.live) && Tiled(r)
    ensures Inv(r)
  {
  }

  lemma ReleaseInv(st: State, k: nat)
    requires Inv(st) && k < |st.live|
    ensures Inv(Release(st, k))
  {
    LimboApart(st, k);
    InsertFreeGapped(st.free, st.live[k]);
    ReleaseSized(st, k);
    ReleaseSeparate(st, k);
    ReleaseTiled(st, k);
    InvFromParts(st, Release(st, k));
  }

  /** Freeing a live pointer keeps the invariant. */
  lemma FreeInv(st: State, p: nat)
    requires Inv(st) && IsLive(st, p)
    ensures Inv(Free(st, p))
    ensures forall x :: Covers(Free(st, p).free, x) <==> Covers(st.free, x) || BlockAt(st, p).Has(x)
  {
    var k := LiveIndex(st.live, p);
    ReleaseInv(st, k);
    forall x ensures Covers(Free(st, p).free, x) <==> Covers(st.free, x) || BlockAt(st, p).Has(x) {
      ReleaseCovers(st, k, x);
    }
  }

  // ----- Blocks -----

  /** A chunk in front of the list, apart from a block in it, leaves the block to be found. */
  lemma LiveCons(c: Chunk, l: seq<Chunk>, p: nat)
    requires LiveIndex(l, p) < |l| && c.Payload() != p
    ensures LiveIndex([c] + l, p) == LiveIndex(l, p) + 1 && ([c] + l)[LiveIndex(l, p) + 1] == l[LiveIndex(l, p)]
  {
    assert ([c] + l)[1..] == l;
  }

  /** A block live before a request is live after it, and it is the same block. */
  lemma StillLive(st: State, n: nat, p: nat)
    requires Inv(st) && n > 0 && IsLive(st, p)
    ensures var r := Malloc(st, n);
      IsLive(r, p) && BlockAt(r, p) == BlockAt(st, p) && r.live[0] != BlockAt(st, p) && r.live[0].Payload() != p
      && r.live[0].Apart(BlockAt(st, p))
  {
    var c, k := Malloc(st, n).live[0], LiveIndex(st.live, p);
    MallocInv(st, n);
    assert st.live[k].Apart(c);
    LiveCons(c, st.live, p);
  }

  /** Taking out another chunk moves a block's index at most by one. */
  lemma IndexWithout(l: seq<Chunk>, i: nat, j: nat)
    requires PairwiseApart(l) && (forall k :: 0 <= k < |l| ==> l[k].size > 0)
    requires i < |l| && j < |l| && i != j
    ensures var a := if j < i then j else j - 1;
      LiveIndex(Without(l, i), l[j].Payload()) == a && Without(l, i)[a] == l[j]
  {
    var t, a := Without(l, i), if j < i then j else j - 1;
    assert t[a] == l[j];
    forall k | 0 <= k < a ensures t[k].Payload() != l[j].Payload() {
      var b := if k < i then k else k + 1;
      assert t[k] == l[b];
      assert l[b].Apart(l[j]);
    }
  }

  /** No header lies in the payload of a live block. */
  lemma PayloadClear(st: State, c: Chunk, d: Chunk)
    requires Inv(st) && c in st.live && (d in st.free || d in st.live)
    ensures d.addr + HEADER <= c.Payload() || c.End() <= d.addr
  {
    if d in st.free {
      ListsApart(st, d, c);
    } else {
      var i :| 0 <= i < |st.live| && st.live[i] == c;
      var j :| 0 <= j < |st.live| && st.live[j] == d;
      if i < j { assert st.live[i].Apart(st.live[j]); }
      if j < i { assert st.live[j].Apart(st.live[i]); }
    }
  }

  // ----- The search -----

  /** Between them the passes take exactly the sizes that are large enough, although neither does
      alone; what only the second takes can spare MIN_GUARD bytes. */
  lemma PassesTogether(size: nat, need: nat)
    ensures Takes(CloseFit, size, need) || Takes(Split, size, need) <==> size >= need
    ensures Takes(Split, size, need) && !Takes(CloseFit, size, need) <==> size >= need + MIN_GUARD
  {
  }

  /** m bytes are the least multiple of 16 that hold a header and n bytes. */
  ghost predicate ChunkSize(n: nat, m: nat) {
    m % ALIGNMENT == 0 && n + HEADER <= m < n + HEADER + ALIGNMENT
  }

  lemma NeedExactly(n: nat, m: nat)
    ensures ChunkSize(n, m) <==> m == Need(n)
  {
    assert HEADER % ALIGNMENT == 0;
  }

  /** The search fails exactly when every free chunk is too small. */
  lemma FindFails(f: seq<Chunk>, n: nat, m: nat)
    requires ChunkSize(n, m)
    ensures Find(f, Need(n)) == Nothing <==> forall i :: 0 <= i < |f| ==> f[i].size < m
  {
    NeedExactly(n, m);
    if Find(f, m) == Nothing {
      forall i | 0 <= i < |f| ensures f[i].size < m {
        assert !Takes(CloseFit, f[i].size, m) && !Takes(Split, f[i].size, m);
        PassesTogether(f[i].size, m);
      }
    }
  }

  /** A split happens only when no chunk is a close fit, and what it leaves is at least
      MIN_GUARD bytes; either pass takes the lowest-address chunk it accepts. */
  lemma FindChoice(f: seq<Chunk>, need: nat, i: nat)
    requires Gapped(f) && i < |f|
    ensures var r := Find(f, need);
      && (r.Whole? && Takes(CloseFit, f[i].size, need) ==> f[r.index].addr <= f[i].addr)
      && (r.Part? ==> !Takes(CloseFit, f[i].size, need) && f[r.index].size >= need + MIN_GUARD)
      && (r.Part? && Takes(Split, f[i].size, need) ==> f[r.index].addr <= f[i].addr)
  {
    var r := Find(f, need);
    if r.Part? {
      assert !Takes(CloseFit, f[r.index].size, need);
      PassesTogether(f[r.index].size, need);
    }
    if r != Nothing && r.index < i { GappedOrder(f, r.index, i); }
  }

  // ----- A request in full -----

  ghost predicate Close(size: nat, m: nat) { m <= size < m + MIN_GUARD }

  ghost predicate NoneClose(f: seq<Chunk>, m: nat) {
    forall i :: 0 <= i < |f| ==> !Close(f[i].size, m)
  }

  ghost predicate FirstClose(f: seq<Chunk>, k: nat, m: nat) {
    k < |f| && Close(f[k].size, m) && forall i :: 0 <= i < k ==> !Close(f[i].size, m)
  }

  ghost predicate AllSmall(f: seq<Chunk>, m: nat) {
    forall i :: 0 <= i < |f| ==> f[i].size < m
  }

  ghost predicate FirstLarge(f: seq<Chunk>, k: nat, m: nat) {
    k < |f| && f[k].size >= m && forall i :: 0 <= i < k ==> f[i].size < m
  }

  lemma FindsClose(f: seq<Chunk>, k: nat, m: nat)
    requires FirstClose(f, k, m)
    ensures Find(f, m) == Whole(k)
  {
    assert Takes(CloseFit, f[k].size, m);
    var j := FirstFit(f, CloseFit, m);
    assert j < |f| ==> Close(f[j].size, m);
  }

  lemma FindsLarge(f: seq<Chunk>, k: nat, m: nat)
    requires NoneClose(f, m) && FirstLarge(f, k, m)
    ensures Find(f, m) == Part(k)
  {
    var i, j := FirstFit(f, CloseFit, m), FirstFit(f, Split, m);
    assert i < |f| ==> Close(f[i].size, m);
    assert !Close(f[k].size, m);
    assert Takes(Split, f[k].size, m);
    assert j < |f| ==> Takes(Split, f[j].size, m);
  }

  /** A request of n bytes takes, whole, the first free chunk of at least m and less than
      m + MIN_GUARD bytes; if there is none, the front m bytes of the first with at least m, the rest
      staying free in its place; if there is none, m fresh bytes at the end of the heap. Here m is
      the size of n bytes and a header, rounded up. */
  lemma MallocExactly(st: State, n: nat, m: nat, k: nat)
    requires Inv(st) && n > 0 && ChunkSize(n, m)
    ensures FirstClose(st.free, k, m) ==>
      Malloc(st, n) == st.(free := Without(st.free, k), live := [st.free[k]] + st.live)
    ensures NoneClose(st.free, m) && FirstLarge(st.free, k, m) ==>
      var c := st.free[k];
      Malloc(st, n) == st.(free := st.free[k := Chunk(c.addr + m, c.size - m)], live := [Chunk(c.addr, m)] + st.live)
    ensures AllSmall(st.free, m) ==>
      Malloc(st, n) == st.(brk := st.brk + m, live := [Chunk(st.brk, m)] + st.live)
  {
    NeedExactly(n, m);
    if FirstClose(st.free, k, m) {
      FindsClose(st.free, k, m);
    } else if NoneClose(st.free, m) && FirstLarge(st.free, k, m) {
      FindsLarge(st.free, k, m);
      assert !Close(st.free[k].size, m);
      TakePartCuts(st, k, m);
    }
    FindFails(st.free, n, m);
  }
}
