/** Laws of whole operations: the free list is determined by the live blocks, freeing what a
    request took undoes it, and the order of frees does not matter. */
module HeapLaws {
  import opened ChunkModel
  import opened HeapInvariant

  ghost predicate Solid(f: seq<Chunk>) {
    Gapped(f) && forall i :: 0 <= i < |f| ==> f[i].size > 0
  }

  lemma SolidTail(f: seq<Chunk>)
    requires Solid(f) && f != []
    ensures Solid(f[1..])
  {
    GappedTail(f);
  }

  /** In a coalesced list, the bytes below the end of the first chunk are that chunk's. */
  lemma HeadOnly(f: seq<Chunk>, x: int)
    requires Solid(f) && f != []
    ensures Covers(f, x) && x <= f[0].End() ==> f[0].Has(x)
    ensures Covers(f[1..], x) <==> Covers(f, x) && f[0].End() <= x
  {
    CoversHead(f, x);
    if i :| 0 <= i < |f| && f[i].Has(x) {
      if i > 0 { GappedOrder(f, 0, i); }
    }
    if i :| 0 <= i < |f[1..]| && f[1..][i].Has(x) {
      GappedOrder(f, 0, i + 1);
    }
  }

  lemma StartsAtOrBelow(f: seq<Chunk>, x: int)
    requires Solid(f) && Covers(f, x)
    ensures f != [] && f[0].addr <= x
  {
    var i :| 0 <= i < |f| && f[i].Has(x);
    if i > 0 { GappedOrder(f, 0, i); }
  }

  /** Two coalesced lists that cover the same bytes start with the same chunk. */
  lemma SameHead(f: seq<Chunk>, g: seq<Chunk>)
    requires Solid(f) && Solid(g) && f != []
    requires forall x :: Covers(f, x) <==> Covers(g, x)
    ensures g != [] && f[0] == g[0]
  {
    assert f[0].Has(f[0].addr) && Covers(f, f[0].addr);
    var i :| 0 <= i < |g| && g[i].Has(f[0].addr);
    assert g[0].Has(g[0].addr) && Covers(g, g[0].addr);
    HeadOnly(f, g[0].addr);
    HeadOnly(g, f[0].addr);
    assert Covers(f, g[0].addr) && Covers(g, f[0].addr);
    StartsAtOrBelow(f, g[0].addr);
    StartsAtOrBelow(g, f[0].addr);
    if f[0].End() < g[0].End() {
      assert g[0].Has(f[0].End()) && Covers(g, f[0].End());
      HeadOnly(f, f[0].End());
    }
    if g[0].End() < f[0].End() {
      assert f[0].Has(g[0].End()) && Covers(f, g[0].End());
      HeadOnly(g, g[0].End());
    }
  }

  /** A coalesced list is determined by the bytes it covers. */
  lemma {:induction false} UniqueList(f: seq<Chunk>, g: seq<Chunk>)
    requires Solid(f) && Solid(g)
    requires forall x :: Covers(f, x) <==> Covers(g, x)
    ensures f == g
  {
    if f == [] {
      if g != [] { assert g[0].Has(g[0].addr) && Covers(g, g[0].addr); }
    } else {
      SameHead(f, g);
      SolidTail(f);
      SolidTail(g);
      forall x ensures Covers(f[1..], x) <==> Covers(g[1..], x) {
        HeadOnly(f, x);
        HeadOnly(g, x);
      }
      UniqueList(f[1..], g[1..]);
    }
  }

  /** The free list is a function of the heap's extent and the bytes of its live blocks. */
  lemma FreeListDetermined(s: State, t: State)
    requires Inv(s) && Inv(t) && s.lo == t.lo && s.brk == t.brk
    requires forall x :: Covers(s.live, x) <==> Covers(t.live, x)
    ensures s.free == t.free
  {
    forall x ensures Covers(s.free, x) <==> Covers(t.free, x) {
      OneList(s, x);
      OneList(t, x);
    }
    UniqueList(s.free, t.free);
  }

  /** When the search succeeds, freeing the block that a request returned restores the heap
      exactly.  When it fails, the heap keeps the new chunk as free space. */
  lemma FreeUndoesMalloc(st: State, n: nat)
    requires Inv(st) && n > 0
    ensures var r := Malloc(st, n); var p := r.live[0].Payload();
      && IsLive(r, p) && Free(r, p).live == st.live
      && (Find(st.free, Need(n)) != Nothing ==> Free(r, p) == st)
      && (Find(st.free, Need(n)) == Nothing ==>
            Free(r, p).brk == st.brk + Need(n) && Free(r, p).free == InsertFree(st.free, Chunk(st.brk, Need(n))))
  {
    var r := Malloc(st, n);
    var p := r.live[0].Payload();
    MallocInv(st, n);
    FreeInv(r, p);
    assert LiveIndex(r.live, p) == 0;
    assert Free(r, p).live == st.live;
    if Find(st.free, Need(n)) != Nothing {
      FreeListDetermined(Free(r, p), st);
    }
  }

  lemma LiveWithout(st: State, p: nat, q: nat)
    requires Inv(st) && IsLive(st, p) && IsLive(st, q) && p != q
    ensures var t := Free(st, p); IsLive(t, q) && BlockAt(t, q) == BlockAt(st, q)
  {
    IndexWithout(st.live, LiveIndex(st.live, p), LiveIndex(st.live, q));
  }

  /** A freed pointer is no longer live. */
  lemma FreedDead(st: State, p: nat)
    requires Inv(st) && IsLive(st, p)
    ensures !IsLive(Free(st, p), p)
  {
    var k, t := LiveIndex(st.live, p), Free(st, p);
    forall i | 0 <= i < |t.live| ensures t.live[i].Payload() != p {
      var j := if i < k then i else i + 1;
      assert t.live[i] == st.live[j];
      assert if j < k then st.live[j].Apart(st.live[k]) else st.live[k].Apart(st.live[j]);
    }
  }

  /** A resize, to whatever size, frees the old block; to 0 it does nothing else. */
  lemma ReallocFrees(st: State, p: nat, n: nat)
    requires Inv(st) && IsLive(st, p)
    ensures MayRealloc(st, p, n) && Inv(Realloc(st, p, n)) && !IsLive(Realloc(st, p, n), p)
    ensures forall x :: BlockAt(st, p).Has(x) ==> Covers(Realloc(st, p, n).free, x)
    ensures n == 0 ==> var r := Realloc(st, p, 0);
      && r.lo == st.lo && r.brk == st.brk && r.live == Without(st.live, LiveIndex(st.live, p))
      && forall x :: Covers(r.free, x) <==> Covers(st.free, x) || BlockAt(st, p).Has(x)
  {
    assert p != 0;
    if n > 0 {
      StillLive(st, n, p);
      MallocKeepsInv(st, n);
    }
    var t := if n == 0 then st else Malloc(st, n);
    FreeInv(t, p);
    FreedDead(t, p);
  }

  /** s without its elements at two places. */
  function WithoutBoth<T>(s: seq<T>, i: nat, j: nat): seq<T>
    requires i < |s| && j < |s| && i != j
  {
    if i < j then s[..i] + s[i+1..j] + s[j+1..] else s[..j] + s[j+1..i] + s[i+1..]
  }

  lemma WithoutTwice<T>(s: seq<T>, i: nat, j: nat)
    requires i < |s| && j < |s| && i != j
    ensures Without(Without(s, i), if j < i then j else j - 1) == WithoutBoth(s, i, j)
  {
  }

  lemma FreeLive(st: State, p: nat, k: nat)
    requires IsLive(st, p) && LiveIndex(st.live, p) == k
    ensures Free(st, p).live == Without(st.live, k)
  {
  }

  lemma LiveAfterBoth(st: State, p: nat, q: nat)
    requires Inv(st) && IsLive(st, p) && IsLive(st, q) && p != q && IsLive(Free(st, p), q)
    ensures var i, j := LiveIndex(st.live, p), LiveIndex(st.live, q);
      i != j && Free(Free(st, p), q).live == WithoutBoth(st.live, i, j)
  {
    var i, j := LiveIndex(st.live, p), LiveIndex(st.live, q);
    IndexWithout(st.live, i, j);
    WithoutTwice(st.live, i, j);
    FreeLive(Free(st, p), q, if j < i then j else j - 1);
  }

  /** Two blocks may be freed in either order. */
  lemma FreesCommute(st: State, p: nat, q: nat)
    requires Inv(st) && IsLive(st, p) && IsLive(st, q) && p != q
    ensures IsLive(Free(st, p), q) && IsLive(Free(st, q), p)
    ensures Free(Free(st, p), q) == Free(Free(st, q), p)
  {
    LiveWithout(st, p, q);
    LiveWithout(st, q, p);
    var s, t := Free(Free(st, p), q), Free(Free(st, q), p);
    FreeInv(st, p);
    FreeInv(st, q);
    FreeInv(Free(st, p), q);
    FreeInv(Free(st, q), p);
    LiveAfterBoth(st, p, q);
    LiveAfterBoth(st, q, p);
    FreeListDetermined(s, t);
  }
}
