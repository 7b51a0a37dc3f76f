/** The doubly linked lists threaded through the chunk headers: what each pointer-editing
    routine does to the header map, and which list it leaves behind. */
module HeaderLists {
  import opened ChunkModel
  import opened Memlib

  // ----- Lists in the header map -----

  /** The address of the k-th chunk; 0, the null pointer, past either end. */
  function AddrAt(s: seq<Chunk>, k: int): nat {
    if 0 <= k < |s| then s[k].addr else 0
  }

  ghost predicate LinkedAt(m: Headers, s: seq<Chunk>, i: nat)
    requires i < |s|
  {
    s[i].addr in m && m[s[i].addr].next == AddrAt(s, i + 1) && m[s[i].addr].prev == AddrAt(s, i - 1)
  }

  /** The chunks of s are linked in this order, prev and next mutually inverse. */
  ghost predicate Chain(m: Headers, s: seq<Chunk>) {
    forall i :: 0 <= i < |s| ==> LinkedAt(m, s, i)
  }

  /** Every chunk of s carries its own size and the given status. */
  ghost predicate Tagged(m: Headers, s: seq<Chunk>, status: nat) {
    forall i :: 0 <= i < |s| ==>
      s[i].addr in m && m[s[i].addr].size == s[i].size && m[s[i].addr].status == status
  }

  /** Distinct addresses, none of them null: the chain is acyclic. */
  ghost predicate Distinct(s: seq<Chunk>) {
    && (forall i :: 0 <= i < |s| ==> s[i].addr > 0)
    && (forall i, j :: 0 <= i < j < |s| ==> s[i].addr != s[j].addr)
  }

  /** Where the headers of the listed chunks are. */
  function Starts(s: seq<Chunk>): set<nat> {
    if s == [] then {} else {s[0].addr} + Starts(s[1..])
  }

  ghost predicate Elsewhere(s: seq<Chunk>, a: nat) {
    forall i :: 0 <= i < |s| ==> s[i].addr != a
  }

  lemma {:induction false} NotAmong(s: seq<Chunk>, a: nat)
    ensures Elsewhere(s, a) <==> a !in Starts(s)
  {
    if s != [] {
      NotAmong(s[1..], a);
      if Elsewhere(s[1..], a) {
        forall i | 0 < i < |s| ensures s[i].addr != a { assert s[i] == s[1..][i - 1]; }
      } else {
        var i :| 0 <= i < |s[1..]| && s[1..][i].addr == a;
        assert s[i + 1].addr == a;
      }
    }
  }

  lemma StartsAt(s: seq<Chunk>, i: nat)
    requires i < |s|
    ensures s[i].addr in Starts(s)
  {
    NotAmong(s, s[i].addr);
  }

  lemma StartsCons(c: Chunk, s: seq<Chunk>)
    ensures Starts([c] + s) == Starts(s) + {c.addr}
  {
    assert ([c] + s)[1..] == s;
  }

  ghost predicate Linked(m: Headers, head: nat, s: seq<Chunk>, status: nat) {
    head == AddrAt(s, 0) && Chain(m, s) && Tagged(m, s, status) && Distinct(s)
  }

  lemma ChainKept(m: Headers, n: Headers, s: seq<Chunk>)
    requires Chain(m, s)
    requires forall i :: 0 <= i < |s| ==> s[i].addr in m && s[i].addr in n && n[s[i].addr] == m[s[i].addr]
    ensures Chain(n, s)
  {
    forall i | 0 <= i < |s| ensures LinkedAt(n, s, i) { assert LinkedAt(m, s, i); }
  }

  /** The links of the header at a lead to other headers. */
  ghost predicate Closed(m: Headers, a: nat) {
    && a in m && 0 !in m
    && (m[a].next != 0 ==> m[a].next in m) && (m[a].prev != 0 ==> m[a].prev in m)
    && m[a].next != a && m[a].prev != a
  }

  lemma ChainClosed(m: Headers, s: seq<Chunk>, k: nat)
    requires Chain(m, s) && Distinct(s) && k < |s| && 0 !in m
    ensures Closed(m, s[k].addr)
    ensures m[s[k].addr].next == AddrAt(s, k + 1) && m[s[k].addr].prev == AddrAt(s, k - 1)
  {
    assert LinkedAt(m, s, k);
    if k + 1 < |s| { assert LinkedAt(m, s, k + 1); }
    if k > 0 { assert LinkedAt(m, s, k - 1); }
  }

  /** A list is untouched when none of its headers is. */
  lemma LinkedKept(m: Headers, n: Headers, head: nat, s: seq<Chunk>, status: nat)
    requires Linked(m, head, s, status)
    requires forall i :: 0 <= i < |s| ==> s[i].addr in m && s[i].addr in n && n[s[i].addr] == m[s[i].addr]
    ensures Linked(n, head, s, status)
  {
    ChainKept(m, n, s);
  }

  function SetNext(m: Headers, a: nat, v: nat): Headers {
    if a in m then m[a := m[a].(next := v)] else m
  }

  function SetPrev(m: Headers, a: nat, v: nat): Headers {
    if a in m then m[a := m[a].(prev := v)] else m
  }

  // ----- Unlinking -----

  function Unlinked(m: Headers, h: nat): Headers
    requires h in m
  {
    SetPrev(SetNext(m, m[h].prev, m[h].next), m[h].next, m[h].prev)
  }

  ghost predicate SameTags(m: Headers, n: Headers) {
    m.Keys == n.Keys && forall a :: a in m ==> m[a].size == n[a].size && m[a].status == n[a].status
  }

  lemma UnlinkedChain(m: Headers, s: seq<Chunk>, k: nat)
    requires Chain(m, s) && Distinct(s) && k < |s| && s[k].addr in m && 0 !in m
    ensures var n := Unlinked(m, s[k].addr);
      && Chain(n, Without(s, k)) && Distinct(Without(s, k)) && SameTags(m, n)
      && n[s[k].addr] == m[s[k].addr]
      && (forall a :: a in m && Elsewhere(s, a) ==> n[a] == m[a])
  {
    var n, t := Unlinked(m, s[k].addr), Without(s, k);
    assert LinkedAt(m, s, k);
    forall i | 0 <= i < |t| ensures LinkedAt(n, t, i) {
      assert LinkedAt(m, s, if i < k then i else i + 1);
    }
  }

  // ----- Linking in -----

  /** h placed between the headers at p and q, either of which may be null. */
  function LinkedBetween(m: Headers, p: nat, h: nat, q: nat): Headers
    requires h in m
  {
    SetPrev(SetNext(m[h := m[h].(prev := p, next := q)], p, h), q, h)
  }

  function Inserted(s: seq<Chunk>, k: nat, c: Chunk): seq<Chunk>
    requires k <= |s|
  {
    s[..k] + [c] + s[k..]
  }

  lemma InsertedAt(s: seq<Chunk>, k: nat, c: Chunk)
    requires k <= |s|
    ensures var t := Inserted(s, k, c);
      && |t| == |s| + 1 && t[k] == c
      && (forall i :: 0 <= i < k ==> t[i] == s[i])
      && (forall i :: k < i < |t| ==> t[i] == s[i - 1])
  {
  }

  lemma InsertedDistinct(s: seq<Chunk>, k: nat, c: Chunk)
    requires Distinct(s) && k <= |s| && Elsewhere(s, c.addr) && c.addr > 0
    ensures Distinct(Inserted(s, k, c))
  {
    InsertedAt(s, k, c);
  }

  lemma LinkedBetweenAt(m: Headers, s: seq<Chunk>, k: nat, c: Chunk, i: nat)
    requires Chain(m, s) && Distinct(s) && k <= |s| && 0 !in m && i <= |s|
    requires c.addr in m && Elsewhere(s, c.addr)
    ensures var n := LinkedBetween(m, AddrAt(s, k - 1), c.addr, AddrAt(s, k));
      i < |Inserted(s, k, c)| && LinkedAt(n, Inserted(s, k, c), i)
  {
    InsertedAt(s, k, c);
    if k > 0 { assert LinkedAt(m, s, k - 1); }
    if k < |s| { assert LinkedAt(m, s, k); }
    if i != k { assert LinkedAt(m, s, if i < k then i else i - 1); }
  }

  lemma LinkedBetweenChain(m: Headers, s: seq<Chunk>, k: nat, c: Chunk)
    requires Chain(m, s) && Distinct(s) && k <= |s| && 0 !in m
    requires c.addr in m && Elsewhere(s, c.addr)
    ensures var n := LinkedBetween(m, AddrAt(s, k - 1), c.addr, AddrAt(s, k));
      Chain(n, Inserted(s, k, c)) && SameTags(m, n)
  {
    var n, t := LinkedBetween(m, AddrAt(s, k - 1), c.addr, AddrAt(s, k)), Inserted(s, k, c);
    if k > 0 { assert LinkedAt(m, s, k - 1); }
    if k < |s| { assert LinkedAt(m, s, k); }
    forall i | 0 <= i < |t| ensures LinkedAt(n, t, i) {
      LinkedBetweenAt(m, s, k, c, i);
    }
  }

  lemma LinkedBetweenOthers(m: Headers, s: seq<Chunk>, k: nat, h: nat, a: nat)
    requires k <= |s| && 0 !in m && h in m && a in m && a != h && a !in Starts(s)
    ensures var n := LinkedBetween(m, AddrAt(s, k - 1), h, AddrAt(s, k)); a in n && n[a] == m[a]
  {
    if k > 0 { StartsAt(s, k - 1); }
    if k < |s| { StartsAt(s, k); }
  }

  // ----- Merging -----

  /** The chunk at h swallows its successor at q. */
  function Merged(m: Headers, h: nat, q: nat): Headers
    requires h in m && q in m
  {
    var n := SetPrev(SetNext(m, h, m[q].next), m[q].next, h);
    n[h := n[h].(size := n[h].size + m[q].size, status := 0)]
  }

  function JoinedAt(s: seq<Chunk>, k: nat): seq<Chunk>
    requires k + 1 < |s|
  {
    s[..k] + [Chunk(s[k].addr, s[k].size + s[k+1].size)] + s[k+2..]
  }

  lemma JoinedAtIndex(s: seq<Chunk>, k: nat, i: nat)
    requires k + 1 < |s| && i + 1 < |s|
    ensures var t := JoinedAt(s, k);
      && |t| == |s| - 1
      && t[i] == if i < k then s[i] else if i > k then s[i + 1] else Chunk(s[k].addr, s[k].size + s[k+1].size)
  {
  }

  lemma JoinedDistinct(s: seq<Chunk>, k: nat)
    requires Distinct(s) && k + 1 < |s|
    ensures Distinct(JoinedAt(s, k))
  {
    var t := JoinedAt(s, k);
    forall i | 0 <= i < |t| ensures t[i].addr == s[if i <= k then i else i + 1].addr { JoinedAtIndex(s, k, i); }
  }

  lemma MergedAt(m: Headers, s: seq<Chunk>, k: nat, i: nat)
    requires Chain(m, s) && Tagged(m, s, 0) && Distinct(s) && k + 1 < |s| && 0 !in m && i + 1 < |s|
    ensures var n, t := Merged(m, s[k].addr, s[k+1].addr), JoinedAt(s, k);
      && i < |t| && LinkedAt(n, t, i) && n[t[i].addr].size == t[i].size && n[t[i].addr].status == 0
  {
    JoinedAtIndex(s, k, i);
    if i > 0 { JoinedAtIndex(s, k, i - 1); }
    if i + 2 < |s| { JoinedAtIndex(s, k, i + 1); }
    assert LinkedAt(m, s, k + 1);
    assert LinkedAt(m, s, if i <= k then i else i + 1);
  }

  lemma MergedChain(m: Headers, s: seq<Chunk>, k: nat)
    requires Chain(m, s) && Tagged(m, s, 0) && Distinct(s) && k + 1 < |s| && 0 !in m
    ensures var n, t := Merged(m, s[k].addr, s[k+1].addr), JoinedAt(s, k);
      && Chain(n, t) && Tagged(n, t, 0) && Distinct(t) && n.Keys == m.Keys
      && n[s[k+1].addr] == m[s[k+1].addr]
  {
    var n, t := Merged(m, s[k].addr, s[k+1].addr), JoinedAt(s, k);
    JoinedDistinct(s, k);
    assert LinkedAt(m, s, k + 1);
    forall i | 0 <= i < |t|
      ensures LinkedAt(n, t, i) && n[t[i].addr].size == t[i].size && n[t[i].addr].status == 0
    {
      MergedAt(m, s, k, i);
    }
  }

  lemma MergedOthers(m: Headers, s: seq<Chunk>, k: nat, a: nat)
    requires Chain(m, s) && k + 1 < |s| && 0 !in m && s[k].addr in m && s[k+1].addr in m
    requires a in m && a !in Starts(s)
    ensures var n := Merged(m, s[k].addr, s[k+1].addr); a in n && n[a] == m[a]
  {
    assert LinkedAt(m, s, k + 1);
    StartsAt(s, k);
    if k + 2 < |s| { StartsAt(s, k + 2); }
  }

  // ----- Insertion by position -----

  /** c fits between the chunks before index k and those from k on. */
  ghost predicate FitsAt(f: seq<Chunk>, k: nat, c: Chunk) {
    && k <= |f| && Gapped(f) && c.size > 0
    && (k > 0 ==> f[k-1].End() <= c.addr) && (k < |f| ==> c.End() <= f[k].addr)
  }

  /** An insertable chunk fits where the walk over the list stops. */
  lemma WalkFits(f: seq<Chunk>, k: nat, c: Chunk)
    requires Insertable(f, c) && k <= |f|
    requires (k > 0 ==> f[k-1].addr <= c.addr) && (k < |f| ==> c.addr < f[k].addr)
    ensures FitsAt(f, k, c)
  {
    if k > 0 { assert f[k-1].Apart(c); }
    if k < |f| { assert f[k].Apart(c); }
  }

  /** The merge with the following chunk, done when the two touch. */
  function MergeNext(s: seq<Chunk>, k: nat): seq<Chunk> {
    if k + 1 < |s| && s[k].End() == s[k+1].addr then JoinedAt(s, k) else s
  }

  function MergePrev(s: seq<Chunk>, k: nat): seq<Chunk> {
    if k > 0 then MergeNext(s, k - 1) else s
  }

  lemma MergeAtFront(f: seq<Chunk>, c: Chunk)
    ensures MergeNext([c] + f, 0) == AddFront(f, c)
  {
    var s := [c] + f;
    if f != [] {
      assert s[1] == f[0] && s[2..] == f[1..];
    }
  }

  lemma MergePair(x: Chunk, t: seq<Chunk>, c: Chunk)
    requires x.End() <= c.addr && c.size > 0
    ensures MergeNext([x] + AddFront(t, c), 0)
         == if x.End() == c.addr then AddFront(t, Chunk(x.addr, x.size + c.size)) else [x] + AddFront(t, c)
  {
    var g := AddFront(t, c);
    assert ([x] + g)[1] == g[0] && ([x] + g)[2..] == g[1..];
    if t != [] && c.End() == t[0].addr {
      assert g[1..] == t[1..];
    } else {
      assert g[1..] == t;
    }
  }

  lemma SecondPlace(f: seq<Chunk>, c: Chunk)
    requires FitsAt(f, 1, c)
    ensures InsertFree(f, c) == MergeNext([f[0]] + MergeNext(Inserted(f[1..], 0, c), 0), 0)
  {
    assert Inserted(f[1..], 0, c) == [c] + f[1..];
    MergeAtFront(f[1..], c);
    MergePair(f[0], f[1..], c);
    if f[0].End() != c.addr && |f| > 1 { GappedTail(f); }
  }

  lemma JoinedTail(x: Chunk, s: seq<Chunk>, k: nat)
    requires k + 1 < |s|
    ensures ([x] + s)[k+1] == s[k] && ([x] + s)[k+2] == s[k+1]
    ensures JoinedAt([x] + s, k + 1) == [x] + JoinedAt(s, k)
  {
    var t, m := [x] + s, [Chunk(s[k].addr, s[k].size + s[k+1].size)];
    assert t[..k+1] == [x] + s[..k] && t[k+3..] == s[k+2..];
    assert [x] + s[..k] + m + s[k+2..] == [x] + (s[..k] + m + s[k+2..]);
  }

  lemma MergeNextTail(x: Chunk, s: seq<Chunk>, k: nat)
    ensures MergeNext([x] + s, k + 1) == [x] + MergeNext(s, k)
  {
    if k + 1 < |s| { JoinedTail(x, s, k); }
  }

  lemma InsertedTail(f: seq<Chunk>, k: nat, c: Chunk)
    requires 0 < k <= |f|
    ensures Inserted(f, k, c) == [f[0]] + Inserted(f[1..], k - 1, c)
  {
  }

  lemma MergesTail(x: Chunk, s: seq<Chunk>, k: nat)
    requires k > 0
    ensures MergePrev(MergeNext([x] + s, k + 1), k + 1) == [x] + MergePrev(MergeNext(s, k), k)
  {
    MergeNextTail(x, s, k);
    MergeNextTail(x, MergeNext(s, k), k - 1);
  }

  /** What Inserted, linked and merged on both sides, comes to. */
  function Linking(f: seq<Chunk>, k: nat, c: Chunk): seq<Chunk>
    requires k <= |f|
  {
    MergePrev(MergeNext(Inserted(f, k, c), k), k)
  }

  lemma StepsAtFront(f: seq<Chunk>, c: Chunk)
    requires FitsAt(f, 0, c)
    ensures InsertFree(f, c) == Linking(f, 0, c)
  {
    assert Inserted(f, 0, c) == [c] + f;
    MergeAtFront(f, c);
  }

  lemma StepsAtSecond(f: seq<Chunk>, c: Chunk)
    requires FitsAt(f, 1, c)
    ensures InsertFree(f, c) == Linking(f, 1, c)
  {
    InsertedTail(f, 1, c);
    MergeNextTail(f[0], Inserted(f[1..], 0, c), 0);
    SecondPlace(f, c);
  }

  lemma StepsFurther(f: seq<Chunk>, k: nat, c: Chunk)
    requires 1 < k <= |f| && f[0].End() < c.addr
    requires InsertFree(f[1..], c) == Linking(f[1..], k - 1, c)
    ensures InsertFree(f, c) == Linking(f, k, c)
  {
    InsertedTail(f, k, c);
    MergesTail(f[0], Inserted(f[1..], k - 1, c), k - 1);
  }

  /** Linking in and then merging on both sides, as the code does it, is the coalescing
      insertion of the model. */
  lemma {:induction false} InsertionSteps(f: seq<Chunk>, k: nat, c: Chunk)
    requires FitsAt(f, k, c)
    ensures InsertFree(f, c) == Linking(f, k, c)
    decreases k
  {
    if k == 0 {
      StepsAtFront(f, c);
    } else if k == 1 {
      StepsAtSecond(f, c);
    } else {
      GappedTail(f);
      GappedOrder(f, 0, k - 1);
      InsertionSteps(f[1..], k - 1, c);
      StepsFurther(f, k, c);
    }
  }

  // ----- Moving a chunk between the two lists -----

  function WithStatus(m: Headers, h: nat, status: nat): Headers
    requires h in m
  {
    m[h := m[h].(status := status)]
  }

  lemma ElsewhereWithout(s: seq<Chunk>, k: nat, a: nat)
    requires k < |s| && Distinct(s)
    ensures Elsewhere(Without(s, k), a) <==> Elsewhere(s, a) || a == s[k].addr
  {
    var t := Without(s, k);
    assert forall i :: 0 <= i < |t| ==> t[i] == s[if i < k then i else i + 1];
    if i :| 0 <= i < |s| && i != k && s[i].addr == a {
      assert t[if i < k then i else i - 1] == s[i];
    }
  }

  lemma StartsWithout(s: seq<Chunk>, k: nat)
    requires k < |s| && Distinct(s)
    ensures Starts(Without(s, k)) == Starts(s) - {s[k].addr}
  {
    forall a ensures a in Starts(Without(s, k)) <==> a in Starts(s) - {s[k].addr} {
      NotAmong(s, a);
      NotAmong(Without(s, k), a);
      ElsewhereWithout(s, k, a);
    }
  }

  lemma UnlinkedOthers(m: Headers, s: seq<Chunk>, k: nat, t: seq<Chunk>)
    requires Chain(m, s) && Distinct(s) && k < |s| && s[k].addr in m && 0 !in m
    requires Starts(s) !! Starts(t) && forall i :: 0 <= i < |t| ==> t[i].addr in m
    ensures var n := Unlinked(m, s[k].addr);
      forall i :: 0 <= i < |t| ==> t[i].addr in n && n[t[i].addr] == m[t[i].addr]
  {
    UnlinkedChain(m, s, k);
    forall i | 0 <= i < |t| ensures Elsewhere(s, t[i].addr) {
      StartsAt(t, i);
      NotAmong(s, t[i].addr);
    }
  }

  /** Unlinking from one list leaves that list without the chunk and the other as it was. */
  lemma UnlinkedLists(m: Headers, head: nat, s: seq<Chunk>, k: nat, status: nat,
                      head2: nat, t: seq<Chunk>, status2: nat)
    requires Chain(m, s) && Distinct(s) && k < |s| && s[k].addr in m && 0 !in m
    requires head == AddrAt(s, 0) && Tagged(m, Without(s, k), status)
    requires Linked(m, head2, t, status2) && Starts(s) !! Starts(t)
    ensures var n := Unlinked(m, s[k].addr);
      && Linked(n, if head == s[k].addr then m[s[k].addr].next else head, Without(s, k), status)
      && Linked(n, head2, t, status2) && head2 != s[k].addr
      && n.Keys == m.Keys && n[s[k].addr] == m[s[k].addr]
  {
    UnlinkedChain(m, s, k);
    UnlinkedOthers(m, s, k, t);
    LinkedKept(m, Unlinked(m, s[k].addr), head2, t, status2);
    assert LinkedAt(m, s, k);
    StartsAt(s, k);
    if t != [] { StartsAt(t, 0); }
  }

  /** Pushing h onto a list leaves the other list as it was. */
  lemma PushedLists(m: Headers, c: Chunk, status: nat, head: nat, s: seq<Chunk>,
                    head2: nat, t: seq<Chunk>, status2: nat)
    requires 0 !in m && c.addr in m && m[c.addr].size == c.size
    requires Linked(m, head, s, status) && c.addr !in Starts(s)
    requires Linked(m, head2, t, status2) && c.addr !in Starts(t) && Starts(s) !! Starts(t)
    ensures var n := LinkedBetween(WithStatus(m, c.addr, status), 0, c.addr, head);
      && Linked(n, c.addr, [c] + s, status) && Linked(n, head2, t, status2) && n.Keys == m.Keys
  {
    var was := WithStatus(m, c.addr, status);
    var n := LinkedBetween(was, 0, c.addr, head);
    NotAmong(s, c.addr);
    NotAmong(t, c.addr);
    ChainKept(m, was, s);
    LinkedBetweenChain(was, s, 0, c);
    InsertedDistinct(s, 0, c);
    assert Inserted(s, 0, c) == [c] + s;
    forall i | 0 <= i < |t| ensures t[i].addr in n && n[t[i].addr] == m[t[i].addr] {
      StartsAt(t, i);
      LinkedBetweenOthers(was, s, 0, c.addr, t[i].addr);
    }
    LinkedKept(m, n, head2, t, status2);
  }

  function Resized(m: Headers, h: nat, size: nat, status: nat): Headers
    requires h in m
  {
    m[h := m[h].(size := size, status := status)]
  }

  /** Rewriting the size and status of one listed header leaves the links alone. */
  lemma ResizedChain(m: Headers, s: seq<Chunk>, k: nat, size: nat, status: nat)
    requires Linked(m, AddrAt(s, 0), s, 0) && k < |s| && s[k].addr in m
    ensures var n := Resized(m, s[k].addr, size, status); Chain(n, s) && Tagged(n, Without(s, k), 0)
  {
    var n := Resized(m, s[k].addr, size, status);
    forall i | 0 <= i < |s| ensures LinkedAt(n, s, i) { assert LinkedAt(m, s, i); }
    var t := Without(s, k);
    forall i | 0 <= i < |t| ensures t[i].addr in n && n[t[i].addr].size == t[i].size && n[t[i].addr].status == 0 {
      assert t[i] == s[if i < k then i else i + 1];
    }
  }

  /** A list none of whose headers is among those touched stays as it is. */
  lemma LinkedFramed(m: Headers, n: Headers, touched: set<nat>, head: nat, s: seq<Chunk>, status: nat)
    requires Linked(m, head, s, status) && Starts(s) !! touched
    requires forall a :: a in m && a !in touched ==> a in n && n[a] == m[a]
    ensures Linked(n, head, s, status)
  {
    forall i | 0 <= i < |s| ensures s[i].addr in n && n[s[i].addr] == m[s[i].addr] {
      StartsAt(s, i);
    }
    LinkedKept(m, n, head, s, status);
  }

  lemma StartsUpdate(s: seq<Chunk>, k: nat, c: Chunk)
    requires k < |s| && Distinct(s)
    ensures Starts(s[k := c]) == Starts(s) - {s[k].addr} + {c.addr}
  {
    var t := s[k := c];
    forall a ensures a in Starts(t) <==> a in Starts(s) - {s[k].addr} + {c.addr} {
      NotAmong(s, a);
      NotAmong(t, a);
      if i :| 0 <= i < |s| && i != k && s[i].addr == a { assert t[i].addr == a; }
      if a == c.addr { assert t[k].addr == a; }
    }
  }

  /** A split adds the address of the remainder to those of the free list. */
  lemma SplitFreeStarts(f: seq<Chunk>, k: nat, need: nat)
    requires Gapped(f) && Distinct(f) && k < |f| && f[k].size > need > 0
    ensures var rem := Chunk(f[k].addr + need, f[k].size - need);
      Starts(InsertFree(Without(f, k), rem)) == Starts(f) - {f[k].addr} + {rem.addr}
  {
    RemainderInPlace(f, k, need);
    StartsUpdate(f, k, Chunk(f[k].addr + need, f[k].size - need));
  }
}
