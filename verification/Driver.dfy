/** The validity test that the driver runs over a trace: it replays the trace against the
    allocator, records where every block lies, and fills and compares payload bytes. */
module Driver {
  import opened Layout
  import opened ChunkModel
  import opened HeapInvariant
  import opened HeapLaws
  import opened Memlib
  import opened Allocator
  import opened Trace

  /** The extent of one payload, both ends included. */
  datatype Range = Range(lo: int, hi: int)

  /** A new range is refused when one of its ends lies in an old one: this catches every overlap
      except that of a new range reaching past an old one on both sides. */
  predicate EndsIn(lo: int, hi: int, r: Range): (refused: bool)
    ensures lo <= hi && r.lo <= r.hi ==>
      (refused <==> lo <= r.hi && r.lo <= hi && !(lo < r.lo && r.hi < hi))
  {
    (r.lo <= lo <= r.hi) || (r.lo <= hi <= r.hi)
  }

  /** The range is the payload of the chunk, or the front part of it. */
  ghost predicate InChunk(r: Range, c: Chunk) {
    r.lo == c.Payload() && r.lo <= r.hi < c.End()
  }

  /** The recorded ranges are those of the live chunks, one for each and in the same order. */
  ghost predicate RangesLive(ranges: seq<Range>, live: seq<Chunk>) {
    && |ranges| == |live|
    && forall k {:trigger InChunk(ranges[k], live[k])} :: 0 <= k < |live| ==> InChunk(ranges[k], live[k])
  }

  function RangeOf(b: Block): Range { Range(b.addr, b.addr + b.size - 1) }

  /** The range of every id's block is recorded, whole, with the possible exception of one id. */
  ghost predicate OthersRecorded(blocks: map<nat, Block>, i: nat, ranges: seq<Range>) {
    forall j {:trigger blocks[j]} :: j in blocks && j != i ==> RangeOf(blocks[j]) in ranges
  }

  ghost predicate AllRecorded(blocks: map<nat, Block>, ranges: seq<Range>) {
    forall j {:trigger blocks[j]} :: j in blocks ==> RangeOf(blocks[j]) in ranges
  }

  /** The bytes of block b all hold v. */
  ghost predicate Holds(base: nat, m: Bytes, b: Block, v: byte) {
    && base <= b.addr && b.addr - base + b.size <= |m|
    && forall i :: b.addr - base <= i < b.addr - base + b.size ==> m[i] == v
  }

  /** The byte an id's block is filled with. */
  function LowByte(index: nat): byte { (index % 256) as byte }

  /** A byte read through a char, which is signed or not as the platform chooses. */
  function AsChar(b: byte, signedChar: bool): (r: int)
    ensures (r - b as int) % 256 == 0
    ensures if signedChar then -128 <= r <= 127 else 0 <= r <= 255
  {
    if signedChar && b >= 128 then b as int - 256 else b as int
  }

  /** Whether the byte an id's block is filled with reads back as the number it was written from. */
  predicate ReadsBack(index: nat, signedChar: bool) {
    signedChar ==> index % 256 < 128
  }

  /** A resize of an id whose fill byte does not read back is taken for lost data. */
  predicate Passes(op: Op, signedChar: bool) {
    op.Resize? ==> ReadsBack(op.index, signedChar)
  }

  ghost predicate AllFilled(ts: TraceState, base: nat, m: Bytes) {
    forall i {:trigger ts.blocks[i]} :: i in ts.blocks ==> Holds(base, m, ts.blocks[i], LowByte(i))
  }

  ghost predicate Tabled(ts: TraceState, blocks: seq<nat>, sizes: seq<nat>)
    requires |blocks| == |sizes|
  {
    forall i {:trigger ts.blocks[i]} :: i in ts.blocks ==> i < |blocks| && ts.blocks[i] == Block(blocks[i], sizes[i])
  }

  // ----- The range list -----

  method AddRange(al: Allocator, ranges: seq<Range>, lo: int, size: int) returns (ok: bool, out: seq<Range>)
    requires al.heap.Valid() && size > 0
    ensures ok <==> && lo % 16 == 0
                    && al.heap.base <= lo && lo + size <= al.heap.brk
                    && forall k :: 0 <= k < |ranges| ==> !EndsIn(lo, lo + size - 1, ranges[k])
    ensures out == if ok then [Range(lo, lo + size - 1)] + ranges else ranges
  {
    var hi := lo + size - 1;
    var heapHi := al.heap.brk - 1;
    if lo % 16 != 0 {
      return false, ranges;
    }
    if lo < al.heap.base || lo > heapHi || hi < al.heap.base || hi > heapHi {
      return false, ranges;
    }
    for k := 0 to |ranges|
      invariant forall j :: 0 <= j < k ==> !EndsIn(lo, hi, ranges[j])
    {
      if EndsIn(lo, hi, ranges[k]) {
        return false, ranges;
      }
    }
    return true, [Range(lo, hi)] + ranges;
  }

  function FirstAt(ranges: seq<Range>, lo: int): (k: nat)
    ensures k <= |ranges|
    ensures forall i :: 0 <= i < k ==> ranges[i].lo != lo
    ensures k < |ranges| ==> ranges[k].lo == lo
  {
    if ranges == [] || ranges[0].lo == lo then 0 else 1 + FirstAt(ranges[1..], lo)
  }

  /** The list without the first range that starts at lo. */
  function Dropped(ranges: seq<Range>, lo: int): seq<Range> {
    var k := FirstAt(ranges, lo);
    if k < |ranges| then Without(ranges, k) else ranges
  }

  /** The first range that starts at lo is the k-th. */
  ghost predicate StartsFirst(ranges: seq<Range>, lo: int, k: nat) {
    k < |ranges| && ranges[k].lo == lo && forall i :: 0 <= i < k ==> ranges[i].lo != lo
  }

  /** Takes out the first range that starts at lo, if there is one, and leaves the others, in order. */
  method RemoveRange(ranges: seq<Range>, lo: int) returns (out: seq<Range>)
    ensures out == Dropped(ranges, lo)
    ensures forall k: nat :: StartsFirst(ranges, lo, k) ==> out == ranges[..k] + ranges[k + 1..]
    ensures (forall k :: 0 <= k < |ranges| ==> ranges[k].lo != lo) ==> out == ranges
  {
    var k := 0;
    while k < |ranges|
      invariant 0 <= k <= |ranges|
      invariant forall i :: 0 <= i < k ==> ranges[i].lo != lo
    {
      if ranges[k].lo == lo {
        assert FirstAt(ranges, lo) == k;
        return ranges[..k] + ranges[k+1..];
      }
      k := k + 1;
    }
    assert FirstAt(ranges, lo) == k;
    return ranges;
  }

  // ----- What the range list keeps -----

  /** A block apart from every live chunk passes the range test. */
  lemma {:induction false} FreshRangePasses(ranges: seq<Range>, live: seq<Chunk>, c: Chunk, n: nat)
    requires RangesLive(ranges, live) && ApartFrom(live, c) && n > 0 && c.Payload() + n <= c.End()
    ensures forall k :: 0 <= k < |ranges| ==> !EndsIn(c.Payload(), c.Payload() + n - 1, ranges[k])
    ensures RangesLive([Range(c.Payload(), c.Payload() + n - 1)] + ranges, [c] + live)
  {
    var r := Range(c.Payload(), c.Payload() + n - 1);
    var out, now := [r] + ranges, [c] + live;
    forall k | 0 <= k < |ranges| ensures !EndsIn(r.lo, r.hi, ranges[k]) {
      assert InChunk(ranges[k], live[k]) && live[k].Apart(c);
    }
    forall k | 0 <= k < |now| ensures InChunk(out[k], now[k]) {
      assert k > 0 ==> InChunk(ranges[k - 1], live[k - 1]);
    }
  }

  /** Dropping a freed block's range leaves exactly the ranges of the blocks that stay. */
  lemma {:induction false} DroppedLive(ranges: seq<Range>, live: seq<Chunk>, p: nat)
    requires RangesLive(ranges, live) && LiveIndex(live, p) < |live|
    ensures RangesLive(Dropped(ranges, p), Without(live, LiveIndex(live, p)))
  {
    var k, out, rest := LiveIndex(live, p), Dropped(ranges, p), Without(live, LiveIndex(live, p));
    assert InChunk(ranges[k], live[k]);
    assert FirstAt(ranges, p) == k by {
      var i := FirstAt(ranges, p);
      assert i < |ranges| ==> InChunk(ranges[i], live[i]);
    }
    forall j | 0 <= j < |rest| ensures InChunk(out[j], rest[j]) {
      var i := if j < k then j else j + 1;
      assert InChunk(ranges[i], live[i]);
    }
  }

  /** Dropping one id's range leaves those of the other ids. */
  lemma DroppedRecorded(blocks: map<nat, Block>, i: nat, ranges: seq<Range>)
    requires AllRecorded(blocks, ranges) && i in blocks
    requires forall j :: j in blocks && j != i ==> Differ(blocks[j], blocks[i])
    ensures OthersRecorded(blocks, i, Dropped(ranges, blocks[i].addr))
  {
    var p := blocks[i].addr;
    var k := FirstAt(ranges, p);
    forall j | j in blocks && j != i ensures RangeOf(blocks[j]) in Dropped(ranges, p) {
      assert Differ(blocks[j], blocks[i]);
      var a :| 0 <= a < |ranges| && ranges[a] == RangeOf(blocks[j]);
      assert k < |ranges| ==> Without(ranges, k)[if a < k then a else a - 1] == ranges[a];
    }
  }

  lemma RecordedNew(blocks: map<nat, Block>, i: nat, b: Block, ranges: seq<Range>)
    requires OthersRecorded(blocks, i, ranges)
    ensures AllRecorded(blocks[i := b], [RangeOf(b)] + ranges)
  {
    assert ([RangeOf(b)] + ranges)[0] == RangeOf(b);
  }

  // ----- What the payload bytes keep -----

  lemma HoldsKept(s: State, t: State, base: nat, m: Bytes, n: Bytes, b: Block, v: byte)
    requires Owned(s, b) && BlockAt(s, b.addr) in t.live && PayloadsKept(s, t, base, m, n)
    requires |m| == |n| && Holds(base, m, b, v)
    ensures Holds(base, n, b, v)
  {
    var c := BlockAt(s, b.addr);
    assert SameBytes(m, n, base, c.Payload(), c.End());
  }

  lemma HoldsOutside(base: nat, m: Bytes, n: Bytes, b: Block, v: byte, c: Chunk, d: Chunk, k: nat)
    requires Holds(base, m, b, v) && OnlyWithin(base, m, n, d.Payload(), k) && c.Apart(d)
    requires c.Payload() == b.addr && b.size + HEADER <= c.size && k + HEADER <= d.size
    ensures Holds(base, n, b, v)
  {
  }

  /** The block's chunk is still live in t, apart from chunk d. */
  ghost predicate Stays(s: State, t: State, d: Chunk, b: Block) {
    Owned(s, b) && BlockAt(s, b.addr) in t.live && BlockAt(s, b.addr).Apart(d)
  }

  ghost predicate OthersStay(ts: TraceState, i: nat, t: State, d: Chunk) {
    forall j {:trigger ts.blocks[j]} :: j in ts.blocks && j != i ==> Stays(ts.heap, t, d, ts.blocks[j])
  }

  /** Blocks that stay keep their bytes while the allocator runs and chunk d is filled. */
  lemma FilledKept(ts: TraceState, i: nat, t: State, base: nat, m0: Bytes, m1: Bytes, m2: Bytes, d: Chunk, n: nat)
    requires AllFilled(ts, base, m0) && |m0| == |m1|
    requires OthersStay(ts, i, t, d)
    requires PayloadsKept(ts.heap, t, base, m0, m1) && OnlyWithin(base, m1, m2, d.Payload(), n) && n + HEADER <= d.size
    ensures forall j :: j in ts.blocks && j != i ==> Holds(base, m2, ts.blocks[j], LowByte(j))
  {
    forall j | j in ts.blocks && j != i ensures Holds(base, m2, ts.blocks[j], LowByte(j)) {
      var b := ts.blocks[j];
      assert Stays(ts.heap, t, d, b);
      HoldsKept(ts.heap, t, base, m0, m1, b, LowByte(j));
      HoldsOutside(base, m1, m2, b, LowByte(j), BlockAt(ts.heap, b.addr), d, n);
    }
  }

  lemma StaysAfterMalloc(ts: TraceState, n: nat, j: nat)
    requires TraceInv(ts) && n > 0 && j in ts.blocks
    ensures Stays(ts.heap, ChunkModel.Malloc(ts.heap, n), ChunkModel.Malloc(ts.heap, n).live[0], ts.blocks[j])
  {
    assert Owned(ts.heap, ts.blocks[j]);
    NewBlock(ts.heap, n, BlockAt(ts.heap, ts.blocks[j].addr));
  }

  lemma StaysAfterFree(s: State, t: State, d: Chunk, b: Block, p: nat)
    requires Stays(s, t, d, b) && IsLive(t, p) && b.addr != p
    ensures Stays(s, ChunkModel.Free(t, p), d, b)
  {
    var c, k := BlockAt(s, b.addr), LiveIndex(t.live, p);
    var i :| 0 <= i < |t.live| && t.live[i] == c;
    assert i != k && Without(t.live, k)[if i < k then i else i - 1] == c;
  }

  /** A new block passes the driver's tests: aligned, inside the heap, its range clear of the
      recorded ones, which all stay those of live chunks. */
  ghost predicate Acceptable(t: State, c: Chunk, n: nat, ranges: seq<Range>) {
    && c in t.live && n > 0 && n + HEADER <= c.size
    && c.Payload() % ALIGNMENT == 0 && t.lo <= c.Payload() && c.End() <= t.brk
    && (forall k :: 0 <= k < |ranges| ==> !EndsIn(c.Payload(), c.Payload() + n - 1, ranges[k]))
    && RangesLive([Range(c.Payload(), c.Payload() + n - 1)] + ranges, t.live)
  }

  lemma AllocFacts(ts: TraceState, ranges: seq<Range>, i: nat, n: nat)
    requires TraceInv(ts) && RangesLive(ranges, ts.heap.live) && n > 0
    ensures var t := ChunkModel.Malloc(ts.heap, n);
      && Acceptable(t, t.live[0], n, ranges) && OthersStay(ts, i, t, t.live[0]) && TraceInv(Extended(ts, i, n))
  {
    var t := ChunkModel.Malloc(ts.heap, n);
    MallocInv(ts.heap, n);
    FreshRangePasses(ranges, ts.heap.live, t.live[0], n);
    forall j | j in ts.blocks && j != i ensures Stays(ts.heap, t, t.live[0], ts.blocks[j]) {
      StaysAfterMalloc(ts, n, j);
    }
    ExtendedInv(ts, i, n);
  }

  lemma WithoutBehind(c: Chunk, s: seq<Chunk>, k: nat)
    requires k < |s|
    ensures Without([c] + s, k + 1) == [c] + Without(s, k)
  {
  }

  lemma LiveAfterResize(st: State, p: nat, n: nat)
    requires Inv(st) && IsLive(st, p) && n > 0
    ensures var t, k := ChunkModel.Malloc(st, n), LiveIndex(st.live, p);
      && IsLive(t, p) && ChunkModel.Free(t, p).live == [t.live[0]] + Without(st.live, k)
      && st.live[k].Payload() == p
  {
    var t, k := ChunkModel.Malloc(st, n), LiveIndex(st.live, p);
    StillLive(st, n, p);
    MallocSize(st, n);
    LiveCons(t.live[0], st.live, p);
    FreeLive(t, p, k + 1);
    WithoutBehind(t.live[0], st.live, k);
  }

  lemma ApartWithout(s: seq<Chunk>, k: nat, c: Chunk)
    requires ApartFrom(s, c) && k < |s|
    ensures ApartFrom(Without(s, k), c)
  {
    var t := Without(s, k);
    assert forall i :: 0 <= i < |t| ==> t[i] == s[if i < k then i else i + 1];
  }

  /** A fresh block at the head of the live list, apart from the rest of it, is acceptable. */
  lemma HeadAcceptable(u: State, rest: seq<Chunk>, c: Chunk, n: nat, ranges: seq<Range>)
    requires u.live == [c] + rest && RangesLive(ranges, rest) && ApartFrom(rest, c) && n > 0 && n + HEADER <= c.size
    requires c.Payload() % ALIGNMENT == 0 && u.lo <= c.Payload() && c.End() <= u.brk
    ensures Acceptable(u, c, n, ranges)
  {
    FreshRangePasses(ranges, rest, c, n);
    assert u.live[0] == c;
  }

  /** A resize moves the id's range: the freed block's is gone, the fresh block's passes. */
  lemma ResizedRanges(st: State, ranges: seq<Range>, p: nat, n: nat)
    requires Inv(st) && RangesLive(ranges, st.live) && IsLive(st, p) && n > 0
    ensures IsLive(ChunkModel.Malloc(st, n), p)
    ensures var t := ChunkModel.Malloc(st, n);
      Acceptable(ChunkModel.Free(t, p), t.live[0], n, Dropped(ranges, p))
  {
    var t, k := ChunkModel.Malloc(st, n), LiveIndex(st.live, p);
    LiveAfterResize(st, p, n);
    MallocInv(st, n);
    DroppedLive(ranges, st.live, p);
    ApartWithout(st.live, k, t.live[0]);
    HeadAcceptable(ChunkModel.Free(t, p), Without(st.live, k), t.live[0], n, Dropped(ranges, p));
  }

  lemma ResizeFacts(ts: TraceState, ranges: seq<Range>, i: nat, n: nat)
    requires TraceInv(ts) && n > 0 && i in ts.blocks
    requires RangesLive(ranges, ts.heap.live) && AllRecorded(ts.blocks, ranges)
    ensures IsLive(ts.heap, ts.blocks[i].addr) && IsLive(ChunkModel.Malloc(ts.heap, n), ts.blocks[i].addr)
    ensures var t, p := ChunkModel.Malloc(ts.heap, n), ts.blocks[i].addr; var u := ChunkModel.Free(t, p);
      && Acceptable(u, t.live[0], n, Dropped(ranges, p))
      && OthersStay(ts, i, u, t.live[0]) && TraceInv(Trace.Resized(ts, i, n))
      && OthersRecorded(ts.blocks, i, Dropped(ranges, p))
  {
    OldBlock(ts, i, n);
    DroppedRecorded(ts.blocks, i, ranges);
    var t, p := ChunkModel.Malloc(ts.heap, n), ts.blocks[i].addr;
    ResizedRanges(ts.heap, ranges, p, n);
    forall j | j in ts.blocks && j != i ensures Stays(ts.heap, ChunkModel.Free(t, p), t.live[0], ts.blocks[j]) {
      StaysAfterMalloc(ts, n, j);
      assert Differ(ts.blocks[j], ts.blocks[i]);
      StaysAfterFree(ts.heap, t, t.live[0], ts.blocks[j], p);
    }
    ResizedInv(ts, i, n);
  }

  lemma TabledUpdate(ts: TraceState, next: TraceState, blocks: seq<nat>, sizes: seq<nat>, i: nat, p: nat, n: nat)
    requires i < |blocks| == |sizes| && Tabled(ts, blocks, sizes) && next.blocks == ts.blocks[i := Block(p, n)]
    ensures Tabled(next, blocks[i := p], sizes[i := n])
  {
  }

  /** What a resized block holds of the bytes it held before. */
  lemma MovedHolds(st: State, b: Block, n: nat, base: nat, m0: Bytes, m1: Bytes, p: nat, k: nat, v: byte)
    requires Owned(st, b) && Holds(base, m0, b, v) && k <= n && k <= b.size
    requires Copied(base, m0, b.addr, m1, p, CopySize(st, b.addr, n))
    ensures Holds(base, m1, Block(p, k), v)
  {
  }

  lemma ReleaseFacts(ts: TraceState, ranges: seq<Range>, i: nat)
    requires TraceInv(ts) && RangesLive(ranges, ts.heap.live) && AllRecorded(ts.blocks, ranges) && i in ts.blocks
    ensures IsLive(ts.heap, ts.blocks[i].addr) && TraceInv(Released(ts, i))
    ensures RangesLive(Dropped(ranges, ts.blocks[i].addr), Released(ts, i).heap.live)
    ensures AllRecorded(Released(ts, i).blocks, Dropped(ranges, ts.blocks[i].addr))
  {
    ReleasedInv(ts, i);
    DroppedLive(ranges, ts.heap.live, ts.blocks[i].addr);
    DroppedRecorded(ts.blocks, i, ranges);
  }

  lemma FilledAfterFree(ts: TraceState, i: nat, base: nat, m0: Bytes, m1: Bytes)
    requires TraceInv(ts) && i in ts.blocks && IsLive(ts.heap, ts.blocks[i].addr)
    requires AllFilled(ts, base, m0) && |m0| == |m1| && PayloadsKept(ts.heap, Released(ts, i).heap, base, m0, m1)
    ensures AllFilled(Released(ts, i), base, m1)
  {
    var t := Released(ts, i);
    forall j | j in t.blocks ensures Holds(base, m1, t.blocks[j], LowByte(j)) {
      var b := ts.blocks[j];
      assert Owned(ts.heap, b) && Differ(b, ts.blocks[i]);
      LiveWithout(ts.heap, ts.blocks[i].addr, b.addr);
      HoldsKept(ts.heap, t.heap, base, m0, m1, b, LowByte(j));
    }
  }

  class Driver {
    const al: Allocator
    const blocks: array<nat>
    const sizes: array<nat>
    var ranges: seq<Range>
    ghost var ts: TraceState

    ghost predicate Separate() {
      blocks as object != al.heap.bytes && sizes as object != al.heap.bytes && blocks != sizes
    }

    constructor (al: Allocator, ids: nat)
      ensures this.al == al && blocks.Length == sizes.Length == ids && blocks != sizes && Separate()
      ensures fresh(blocks) && fresh(sizes)
    {
      this.al := al;
      blocks := new nat[ids];
      sizes := new nat[ids];
      ranges := [];
      ts := Start(0);
    }

    /** The driver's tables and the heap agree with the trace state. */
    ghost predicate Ready()
      reads this, al, al.heap, al.heap.bytes, blocks, sizes
    {
      && Separate() && al.Valid() && TraceInv(ts) && al.st == ts.heap && blocks.Length == sizes.Length
      && RangesLive(ranges, ts.heap.live) && AllRecorded(ts.blocks, ranges)
      && AllFilled(ts, al.heap.base, al.heap.bytes[..])
      && Tabled(ts, blocks[..], sizes[..])
    }

    /** The memset of a new block. */
    method FillNew(index: nat, p: nat, size: nat, ghost c: Chunk, ghost m0: Bytes, ghost next: TraceState)
      requires al.Valid() && TraceInv(next) && al.st == next.heap
      requires next.blocks == ts.blocks[index := Block(p, size)]
      requires c in al.st.live && c.Payload() == p && size + HEADER <= c.size
      requires AllFilled(ts, al.heap.base, m0) && |m0| == al.heap.bytes.Length && OthersStay(ts, index, al.st, c)
      requires PayloadsKept(ts.heap, al.st, al.heap.base, m0, al.heap.bytes[..])
      modifies al.heap.bytes
      ensures al.Valid() && AllFilled(next, al.heap.base, al.heap.bytes[..])
    {
      ghost var m1 := al.heap.bytes[..];
      al.BlockBounds(c);
      al.heap.Fill(p, size, LowByte(index));
      FilledKept(ts, index, al.st, al.heap.base, m0, m1, al.heap.bytes[..], c, size);
    }

    /** Fills a new block, whose range is already recorded, and enters it under its id. */
    method Record(index: nat, p: nat, size: nat, ghost c: Chunk, ghost m0: Bytes, ghost next: TraceState)
      requires Separate() && al.Valid() && TraceInv(next) && al.st == next.heap && blocks.Length == sizes.Length
      requires index < blocks.Length && Tabled(ts, blocks[..], sizes[..])
      requires next.blocks == ts.blocks[index := Block(p, size)]
      requires RangesLive(ranges, al.st.live) && AllRecorded(next.blocks, ranges)
      requires c in al.st.live && c.Payload() == p && size + HEADER <= c.size
      requires AllFilled(ts, al.heap.base, m0) && |m0| == al.heap.bytes.Length && OthersStay(ts, index, al.st, c)
      requires PayloadsKept(ts.heap, al.st, al.heap.base, m0, al.heap.bytes[..])
      modifies this`ts, al.heap.bytes, blocks, sizes
      ensures Ready() && ts == next
    {
      FillNew(index, p, size, c, m0, next);
      TabledUpdate(ts, next, blocks[..], sizes[..], index, p, size);
      blocks[index] := p;
      sizes[index] := size;
      ts := next;
    }

    /** The range test on a new block, which an acceptable block passes. */
    method Admit(p: nat, size: nat, ghost c: Chunk) returns (ok: bool)
      requires al.heap.Valid() && p == c.Payload() && Acceptable(al.st, c, size, ranges)
      requires al.st.lo == al.heap.base && al.st.brk == al.heap.brk
      modifies this`ranges
      ensures ok && RangesLive(ranges, al.st.live) && ranges == [RangeOf(Block(p, size))] + old(ranges)
    {
      ok, ranges := AddRange(al, ranges, p, size);
    }

    method DoAlloc(index: nat, size: nat) returns (ok: bool)
      requires Ready() && index < blocks.Length
      requires size > 0 && SizeFitsInt(size) && HasRoom(ts.heap, size, al.heap.Limit())
      modifies this, al, al.heap`hdr, al.heap`brk, al.heap.bytes, blocks, sizes
      ensures ok && Ready() && ts == Extended(old(ts), index, size)
    {
      ghost var m0 := al.heap.bytes[..];
      AllocFacts(ts, ranges, index, size);
      var p := al.Malloc(size);
      if p == 0 {
        return false;
      }
      ok := Admit(p, size, al.st.live[0]);
      if !ok {
        return false;
      }
      RecordedNew(ts.blocks, index, Block(p, size), old(ranges));
      Record(index, p, size, al.st.live[0], m0, Extended(ts, index, size));
    }

    /** The byte comparison after a resize: every byte is the id's fill byte, and the test
        passes exactly when that byte reads back through a char. */
    method Compare(p: nat, n: nat, index: nat, signedChar: bool) returns (ok: bool)
      requires n > 0 && Holds(al.heap.base, al.heap.bytes[..], Block(p, n), LowByte(index))
      ensures ok <==> ReadsBack(index, signedChar)
    {
      var start := p - al.heap.base;
      for j := 0 to n
        invariant j > 0 ==> ReadsBack(index, signedChar)
      {
        assert al.heap.bytes[..][start + j] == LowByte(index);
        if AsChar(al.heap.bytes[start + j], signedChar) != index % 256 {
          return false;
        }
      }
      return true;
    }

    /** The checks after a resize, and the bookkeeping when they pass. */
    method Settle(index: nat, oldp: nat, newp: nat, size: nat, signedChar: bool,
                  ghost c: Chunk, ghost m0: Bytes, ghost next: TraceState) returns (ok: bool)
      requires Separate() && al.Valid() && TraceInv(next) && al.st == next.heap && blocks.Length == sizes.Length
      requires index < blocks.Length && Tabled(ts, blocks[..], sizes[..])
      requires next.blocks == ts.blocks[index := Block(newp, size)]
      requires Acceptable(al.st, c, size, Dropped(ranges, oldp)) && c.Payload() == newp
      requires OthersRecorded(ts.blocks, index, Dropped(ranges, oldp))
      requires AllFilled(ts, al.heap.base, m0) && |m0| == al.heap.bytes.Length && OthersStay(ts, index, al.st, c)
      requires PayloadsKept(ts.heap, al.st, al.heap.base, m0, al.heap.bytes[..])
      requires var k := if size < sizes[index] then size else sizes[index];
        k > 0 && Holds(al.heap.base, al.heap.bytes[..], Block(newp, k), LowByte(index))
      modifies this, al.heap.bytes, blocks, sizes
      ensures ok <==> ReadsBack(index, signedChar)
      ensures ok ==> Ready() && ts == next
    {
      ranges := RemoveRange(ranges, oldp);
      RecordedNew(ts.blocks, index, Block(newp, size), ranges);
      ok := Admit(newp, size, c);
      if !ok {
        return false;
      }
      var oldsize := sizes[index];
      if size < oldsize {
        oldsize := size;
      }
      ok := Compare(newp, oldsize, index, signedChar);
      if !ok {
        return false;
      }
      Record(index, newp, size, c, m0, next);
    }

    /** The call of mm_realloc on a block filled with v: the new block is filled as far as the old
        one goes. */
    method Relocate(oldp: nat, size: nat, ghost b: Block, ghost v: byte) returns (newp: nat)
      requires al.Valid() && Owned(al.st, b) && b.addr == oldp && Holds(al.heap.base, al.heap.bytes[..], b, v)
      requires size > 0 && SizeFitsInt(size) && HasRoom(al.st, size, al.heap.Limit())
      requires IsLive(ChunkModel.Malloc(al.st, size), oldp)
      modifies al, al.heap`hdr, al.heap`brk, al.heap.bytes
      ensures newp == ChunkModel.Malloc(old(al.st), size).live[0].Payload()
      ensures al.Valid() && al.st == ChunkModel.Free(ChunkModel.Malloc(old(al.st), size), oldp)
      ensures PayloadsKept(old(al.st), al.st, al.heap.base, old(al.heap.bytes[..]), al.heap.bytes[..])
      ensures Holds(al.heap.base, al.heap.bytes[..], Block(newp, if size < b.size then size else b.size), v)
    {
      ghost var st, m0 := al.st, al.heap.bytes[..];
      newp := al.Realloc(oldp, size);
      MovedHolds(st, b, size, al.heap.base, m0, al.heap.bytes[..], newp, if size < b.size then size else b.size, v);
    }

    method DoRealloc(index: nat, size: nat, signedChar: bool) returns (ok: bool)
      requires Ready() && index in ts.blocks
      requires size > 0 && SizeFitsInt(size) && HasRoom(ts.heap, size, al.heap.Limit())
      modifies this, al, al.heap`hdr, al.heap`brk, al.heap.bytes, blocks, sizes
      ensures ok <==> ReadsBack(index, signedChar)
      ensures ok ==> IsLive(ChunkModel.Malloc(old(ts).heap, size), old(ts).blocks[index].addr)
                     && Ready() && ts == Resized(old(ts), index, size)
    {
      ghost var m0, b := al.heap.bytes[..], ts.blocks[index];
      ResizeFacts(ts, ranges, index, size);
      assert Owned(ts.heap, b);
      ghost var c, next := ChunkModel.Malloc(ts.heap, size).live[0], Resized(ts, index, size);
      var oldp := blocks[index];
      var newp := Relocate(oldp, size, b, LowByte(index));
      if newp == 0 {
        return false;
      }
      ok := Settle(index, oldp, newp, size, signedChar, c, m0, next);
    }

    method DoFree(index: nat)
      requires Ready() && index in ts.blocks
      modifies this, al, al.heap`hdr, al.heap`brk, al.heap.bytes
      ensures IsLive(old(ts).heap, old(ts).blocks[index].addr) && Ready() && ts == Released(old(ts), index)
    {
      ghost var m0 := al.heap.bytes[..];
      ReleaseFacts(ts, ranges, index);
      var p := blocks[index];
      ranges := RemoveRange(ranges, p);
      al.Free(p);
      FilledAfterFree(ts, index, al.heap.base, m0, al.heap.bytes[..]);
      ts := Released(ts, index);
    }

    method DoOp(op: Op, signedChar: bool) returns (ok: bool)
      requires Ready() && op.index < blocks.Length && StepOk(ts, op, al.heap.Limit())
      modifies this, al, al.heap`hdr, al.heap`brk, al.heap.bytes, blocks, sizes
      ensures ok <==> Passes(op, signedChar)
      ensures ok ==> Ready() && ts == Step(old(ts), op, al.heap.Limit())
    {
      match op {
        case Alloc(i, n) =>
          ok := DoAlloc(i, n);
        case Resize(i, n) =>
          ok := DoRealloc(i, n, signedChar);
        case Release(i) =>
          DoFree(i);
          ok := true;
      }
    }

    /** eval_mm_valid: on a well-formed trace the allocator is found valid, unless a resized
        id's fill byte does not read back through a signed char; the bytes then represent the
        state that the trace reaches. */
    method Eval(ops: seq<Op>, signedChar: bool) returns (valid: bool)
      requires Separate() && al.heap.Valid() && blocks.Length == sizes.Length
      requires forall k :: 0 <= k < |ops| ==> ops[k].index < blocks.Length
      requires al.heap.base > 0 && al.heap.base % ALIGNMENT == 0
      requires WellFormedTrace(al.heap.base, ops, al.heap.Limit())
      modifies this, al, al.heap, al.heap.bytes, blocks, sizes
      ensures valid <==> forall k :: 0 <= k < |ops| ==> Passes(ops[k], signedChar)
      ensures valid ==> Ready() && ts == Reached(al.heap.base, ops, al.heap.Limit())
      ensures valid ==> |ranges| == |ts.blocks| + LostBlocks(al.heap.base, ops, al.heap.Limit())
    {
      StartInv(al.heap.base);
      al.heap.ResetBrk();
      ranges := [];
      al.Init();
      ts := Start(al.heap.base);
      for k := 0 to |ops|
        invariant Ready() && WellFormed(ts, ops[k..], al.heap.Limit())
        invariant Run(ts, ops[k..], al.heap.Limit()) == Reached(al.heap.base, ops, al.heap.Limit())
        invariant forall j :: 0 <= j < k ==> Passes(ops[j], signedChar)
      {
        assert ops[k..][0] == ops[k] && ops[k..][1..] == ops[k+1..];
        var ok := DoOp(ops[k], signedChar);
        if !ok {
          return false;
        }
      }
      NoLeaks(al.heap.base, ops, al.heap.Limit());
      return true;
    }
  }

  /** Where char is signed, a well-formed trace on which Eval finds the allocator invalid: id 128
      is allocated and resized. */
  lemma CorrectHeapRejected(lo: nat, limit: nat)
    requires lo > 0 && lo % ALIGNMENT == 0 && lo + 96 <= limit
    ensures WellFormedTrace(lo, [Alloc(128, 1), Resize(128, 1)], limit)
    ensures !Passes(Resize(128, 1), true)
  {
    var ops := [Alloc(128, 1), Resize(128, 1)];
    StartInv(lo);
    var t := Step(Start(lo), ops[0], limit);
    assert ops[1..] == [Resize(128, 1)];
    assert StepOk(t, Resize(128, 1), limit);
    assert [Resize(128, 1)][1..] == [];
  }
}
