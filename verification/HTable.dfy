/** The hash table in place: an array of slots, each the head of a singly linked list of nodes. */
module HTable {
  import opened CArith
  import opened CText
  import opened TableModel
  import Primes

  const MAX_COLLISION := 10

  method HashCode(s: Text) returns (p: int)
    ensures p == Hash(s)
  {
    p := 0;
    var i := 0;
    while i < |s|
      invariant 0 <= i <= |s| && p == Hash(s[..i])
    {
      assert s[..i + 1][..i] == s[..i];
      p := MAdd(MMul(p, 256), s[i]);
      i := i + 1;
    }
    assert s[..i] == s;
  }

  method SlotFor(hcode: int, size: int) returns (slot: int)
    requires size > 0 && HashFits(hcode, size)
    ensures slot == HashSlot(hcode, size)
  {
    slot := Rem(hcode, size);
  }

  class Node {
    const hash: int
    const key: Key
    const val: nat
    var next: Node?
    // The array of slots that lists this node, and the slot.
    ghost var home: object
    ghost var slot: int

    constructor (hash: int, key: Key, val: nat, ghost home: object, ghost slot: int)
      ensures this.hash == hash && this.key == key && this.val == val && next == null
      ensures this.home == home && this.slot == slot
    {
      this.hash, this.key, this.val := hash, key, val;
      next := null;
      this.home, this.slot := home, slot;
    }

    function Stores(): Entry { Entry.Entry(hash, key, val) }
  }

  // ----- lists of nodes -----

  ghost function NodeAt(ns: seq<Node>, j: int, end: Node?): Node? {
    if 0 <= j < |ns| then ns[j] else end
  }

  ghost predicate InList(n: Node, next: Node?, home: object, slot: int, nodes: set<Node>)
    reads nodes
  {
    n in nodes && n.next == next && n.home == home && n.slot == slot
  }

  ghost predicate Distinct(ns: seq<Node>) {
    forall j, k :: 0 <= j < k < |ns| ==> ns[j] != ns[k]
  }

  /** The links from head run through ns to end; all its nodes belong to one slot of home. */
  ghost predicate ListedTo(head: Node?, ns: seq<Node>, end: Node?, home: object, slot: int, nodes: set<Node>)
    reads nodes
  {
    && head == NodeAt(ns, 0, end)
    && (forall j :: 0 <= j < |ns| ==> InList(ns[j], NodeAt(ns, j + 1, end), home, slot, nodes))
    && Distinct(ns)
  }

  ghost predicate Listed(head: Node?, ns: seq<Node>, home: object, slot: int, nodes: set<Node>)
    reads nodes
  {
    ListedTo(head, ns, null, home, slot, nodes)
  }

  lemma ListedWider(head: Node?, ns: seq<Node>, home: object, slot: int, nodes: set<Node>, more: set<Node>)
    requires Listed(head, ns, home, slot, nodes)
    ensures Listed(head, ns, home, slot, nodes + more)
  {
    forall j | 0 <= j < |ns|
      ensures InList(ns[j], NodeAt(ns, j + 1, null), home, slot, nodes + more)
    {
      assert InList(ns[j], NodeAt(ns, j + 1, null), home, slot, nodes);
    }
  }

  lemma ListedTail(head: Node?, ns: seq<Node>, home: object, slot: int, nodes: set<Node>)
    requires ns != [] && Listed(head, ns, home, slot, nodes)
    ensures Listed(ns[0].next, ns[1..], home, slot, nodes) && ns[0] !in ns[1..]
    ensures head == ns[0] && InList(ns[0], ns[0].next, home, slot, nodes)
  {
    assert InList(ns[0], NodeAt(ns, 1, null), home, slot, nodes);
    forall j | 0 <= j < |ns| - 1
      ensures InList(ns[1..][j], NodeAt(ns[1..], j + 1, null), home, slot, nodes)
    {
      assert InList(ns[j + 1], NodeAt(ns, j + 2, null), home, slot, nodes);
    }
  }

  lemma ListedPrepend(head: Node?, ns: seq<Node>, n: Node, home: object, slot: int, nodes: set<Node>)
    requires Listed(head, ns, home, slot, nodes) && n !in ns
    requires InList(n, head, home, slot, nodes)
    ensures Listed(n, [n] + ns, home, slot, nodes)
  {
    var r := [n] + ns;
    forall j | 0 <= j < |r|
      ensures InList(r[j], NodeAt(r, j + 1, null), home, slot, nodes)
    {
      assert j > 0 ==> InList(ns[j - 1], NodeAt(ns, j, null), home, slot, nodes);
    }
  }

  /** A list that runs to n, followed by n, is a list. */
  lemma ListedAppend(head: Node?, ns: seq<Node>, n: Node, home: object, slot: int, nodes: set<Node>)
    requires ListedTo(head, ns, n, home, slot, nodes) && n !in nodes
    requires n.next == null && n.home == home && n.slot == slot
    ensures Listed(head, ns + [n], home, slot, nodes + {n})
  {
    var r := ns + [n];
    forall j | 0 <= j < |r|
      ensures InList(r[j], NodeAt(r, j + 1, null), home, slot, nodes + {n})
    {
      assert j < |ns| ==> InList(ns[j], NodeAt(ns, j + 1, n), home, slot, nodes);
    }
    assert forall j :: 0 <= j < |ns| ==> InList(ns[j], NodeAt(ns, j + 1, n), home, slot, nodes);
  }

  ghost function Entries(ns: seq<Node>): (c: Chain)
    ensures |c| == |ns| && forall j :: 0 <= j < |ns| ==> c[j] == ns[j].Stores()
  {
    seq(|ns|, j requires 0 <= j < |ns| => ns[j].Stores())
  }

  ghost function Table(rows: seq<seq<Node>>): (t: seq<Chain>)
    ensures |t| == |rows| && forall i :: 0 <= i < |rows| ==> t[i] == Entries(rows[i])
  {
    seq(|rows|, i requires 0 <= i < |rows| => Entries(rows[i]))
  }

  lemma {:induction false} SeekStops(c: Chain, h: int, k: Key, i: nat)
    requires i <= |c| && (i < |c| ==> c[i].hash == h && c[i].key == k)
    requires forall j :: 0 <= j < i ==> !(c[j].hash == h && c[j].key == k)
    ensures Seek(c, h, k) == i
  {
    if i > 0 {
      SeekStops(c[1..], h, k, i - 1);
    }
  }

  lemma MovedHead(t: seq<Chain>, s: seq<Entry>)
    requires |t| > 0 && s != []
    ensures var i := HashSlot(s[0].hash, |t|); Moved(t, s) == Moved(t[i := [s[0]] + t[i]], s[1..])
  {
  }

  lemma TableUpdate(rows: seq<seq<Node>>, i: nat, ns: seq<Node>)
    requires i < |rows|
    ensures Table(rows[i := ns]) == Table(rows)[i := Entries(ns)]
  {
  }

  /** Moving the first of the remaining entries. */
  lemma MovedStep(rows: seq<seq<Node>>, rest: seq<Node>, after: seq<Entry>)
    requires |rows| > 0 && rest != []
    ensures var i := HashSlot(rest[0].hash, |rows|);
      Moved(Table(rows), Entries(rest) + after)
      == Moved(Table(rows[i := [rest[0]] + rows[i]]), Entries(rest[1..]) + after)
  {
    var i := HashSlot(rest[0].hash, |rows|);
    var s := Entries(rest) + after;
    MovedHead(Table(rows), s);
    assert s[1..] == Entries(rest[1..]) + after;
    TableUpdate(rows, i, [rest[0]] + rows[i]);
    assert Entries([rest[0]] + rows[i]) == [rest[0].Stores()] + Entries(rows[i]);
  }

  lemma TableAppend(rows: seq<seq<Node>>, i: nat, n: Node)
    requires i < |rows|
    ensures Table(rows[i := rows[i] + [n]]) == Table(rows)[i := Table(rows)[i] + [n.Stores()]]
  {
    TableUpdate(rows, i, rows[i] + [n]);
    assert Entries(rows[i] + [n]) == Entries(rows[i]) + [n.Stores()];
  }

  predicate Matches(n: Node, h: int, k: Key) { n.hash == h && n.key == k }

  /** The traversal of the key's list has stopped at its j-th node, or at its end. */
  ghost predicate Arrived(ns: seq<Node>, k: Key, j: nat) {
    && j <= |ns|
    && (j < |ns| ==> Matches(ns[j], Hash(k), k))
    && (forall i :: 0 <= i < j ==> !Matches(ns[i], Hash(k), k))
  }

  lemma ArrivedAtBinding(rows: seq<seq<Node>>, m: map<Key, nat>, k: Key, j: nat)
    requires Represents(Table(rows), m) && Arrived(rows[Slot(k, |rows|)], k, j)
    ensures var ns := rows[Slot(k, |rows|)];
      && (k in m <==> j < |ns|)
      && (k in m ==> m[k] == ns[j].val)
  {
    SeekStops(Entries(rows[Slot(k, |rows|)]), Hash(k), k, j);
    SeekFinds(Table(rows), m, k);
  }

  /** From some slot on, each head starts the list of nodes that rows gives for it. */
  ghost predicate AllListed(heads: seq<Node?>, rows: seq<seq<Node>>, home: object, from: nat, nodes: set<Node>)
    requires |heads| == |rows|
    reads nodes
  {
    forall i :: from <= i < |rows| ==> Listed(heads[i], rows[i], home, i, nodes)
  }

  /** Walks the list from head to the first node that matches, or to its end. */
  method Traverse(head: Node?, key: Key, hcode: int, ghost row: seq<Node>, ghost home: object, ghost slot: int,
                  ghost nodes: set<Node>)
    returns (prev: Node?, curr: Node?, collision: nat)
    requires Listed(head, row, home, slot, nodes) && hcode == Hash(key)
    ensures Arrived(row, key, collision)
    ensures curr == NodeAt(row, collision, null) && prev == NodeAt(row, collision - 1, null)
  {
    prev, curr, collision := null, head, 0;
    while curr != null
      invariant 0 <= collision <= |row|
      invariant curr == NodeAt(row, collision, null) && prev == NodeAt(row, collision - 1, null)
      invariant forall i :: 0 <= i < collision ==> !Matches(row[i], hcode, key)
      decreases |row| - collision
    {
      if curr.hash == hcode && curr.key == key {
        return;
      }
      prev := curr;
      curr := curr.next;
      collision := collision + 1;
    }
  }

  ghost predicate OthersListed(heads: seq<Node?>, rows: seq<seq<Node>>, home: object, slot: int, nodes: set<Node>)
    requires |heads| == |rows|
    reads nodes
  {
    forall i :: 0 <= i < |rows| && i != slot ==> Listed(heads[i], rows[i], home, i, nodes)
  }

  lemma AllListedWider(heads: seq<Node?>, rows: seq<seq<Node>>, home: object, slot: nat, n: Node, nodes: set<Node>)
    requires |heads| == |rows| && slot < |rows|
    requires OthersListed(heads, rows, home, slot, nodes)
    requires Listed(heads[slot], rows[slot] + [n], home, slot, nodes + {n})
    ensures AllListed(heads, rows[slot := rows[slot] + [n]], home, 0, nodes + {n})
  {
    forall i | 0 <= i < |rows| && i != slot
      ensures Listed(heads[i], rows[i], home, i, nodes + {n})
    {
      ListedWider(heads[i], rows[i], home, i, nodes, {n});
    }
  }

  /** Links n after prev, the last node of its list, or as the head of an empty list. */
  method LinkAfter(store: array<Node?>, slot: nat, prev: Node?, n: Node, ghost rows: seq<seq<Node>>,
                   ghost nodes: set<Node>)
    requires |rows| == store.Length && slot < |rows| && AllListed(store[..], rows, store, 0, nodes)
    requires prev == NodeAt(rows[slot], |rows[slot]| - 1, null)
    modifies store, nodes
    ensures OthersListed(store[..], rows, store, slot, nodes)
    ensures ListedTo(store[slot], rows[slot], n, store, slot, nodes)
    ensures n !in nodes ==> unchanged(n)
  {
    ghost var row := rows[slot];
    ghost var heads := store[..];
    assert Listed(heads[slot], row, store, slot, nodes);
    if prev == null {
      store[slot] := n;
    } else {
      prev.next := n;
    }
    forall i | 0 <= i < |rows| && i != slot
      ensures Listed(store[i], rows[i], store, i, nodes)
    {
      assert old(Listed(heads[i], rows[i], store, i, nodes));
    }
  }

  /** A new node at the end of its slot's list. */
  method AppendNode(store: array<Node?>, slot: nat, prev: Node?, key: Key, val: nat, ghost rows: seq<seq<Node>>,
                    ghost nodes: set<Node>)
    returns (n: Node)
    requires |rows| == store.Length && slot < |rows| && AllListed(store[..], rows, store, 0, nodes)
    requires prev == NodeAt(rows[slot], |rows[slot]| - 1, null)
    modifies store, nodes
    ensures fresh(n) && n.Stores() == Stored(key, val)
    ensures AllListed(store[..], rows[slot := rows[slot] + [n]], store, 0, nodes + {n})
  {
    n := new Node(Hash(key), key, val, store, slot);
    LinkAfter(store, slot, prev, n, rows, nodes);
    ListedAppend(store[slot], rows[slot], n, store, slot, nodes);
    AllListedWider(store[..], rows, store, slot, n, nodes);
  }

  /** Writes n in front of a slot of another array; no other node is written. */
  method Relink(newStore: array<Node?>, slot: nat, n: Node, ghost heads: seq<Node?>, ghost rows: seq<seq<Node>>,
                ghost store: object, ghost i: nat, ghost moved: seq<seq<Node>>, ghost nodes: set<Node>)
    requires newStore != store && |moved| == newStore.Length && slot < |moved|
    requires |heads| == |rows| && i < |rows| && AllListed(heads, rows, store, i, nodes)
    requires n in nodes && n.home == store && n.slot == i && n !in rows[i]
    requires AllListed(newStore[..], moved, newStore, 0, nodes)
    modifies newStore, n
    ensures newStore[..] == old(newStore[..])[slot := n]
    ensures InList(n, old(newStore[slot]), newStore, slot, nodes)
    ensures AllListed(heads, rows, store, i, nodes)
    ensures AllListed(old(newStore[..]), moved, newStore, 0, nodes)
  {
    ghost var newHeads := newStore[..];
    if newStore[slot] != null {
      n.next := newStore[slot];
    } else {
      n.next := null;
    }
    newStore[slot] := n;
    n.home, n.slot := newStore, slot;
    forall k | i <= k < |rows|
      ensures Listed(heads[k], rows[k], store, k, nodes)
    {
      assert old(Listed(heads[k], rows[k], store, k, nodes));
    }
    forall k | 0 <= k < |moved|
      ensures Listed(newHeads[k], moved[k], newStore, k, nodes)
    {
      assert old(Listed(newHeads[k], moved[k], newStore, k, nodes));
    }
  }

  /** A slot whose list gets a node in front, the others staying as they are. */
  lemma AllListedPrepend(heads: seq<Node?>, rows: seq<seq<Node>>, home: object, slot: nat, n: Node, nodes: set<Node>)
    requires |heads| == |rows| && slot < |rows| && AllListed(heads, rows, home, 0, nodes)
    requires InList(n, heads[slot], home, slot, nodes) && n !in rows[slot]
    ensures AllListed(heads[slot := n], rows[slot := [n] + rows[slot]], home, 0, nodes)
  {
    ListedPrepend(heads[slot], rows[slot], n, home, slot, nodes);
  }

  lemma NotListed(head: Node?, ns: seq<Node>, home: object, slot: int, nodes: set<Node>, n: Node)
    requires Listed(head, ns, home, slot, nodes) && (n in nodes ==> n.home != home)
    ensures n !in ns
  {
  }

  /** The list of one slot replaced by another list of that slot's. */
  lemma AllListedUpdate(heads: seq<Node?>, rows: seq<seq<Node>>, home: object, i: nat, head: Node?, ns: seq<Node>,
                        nodes: set<Node>)
    requires |heads| == |rows| && i < |rows| && AllListed(heads, rows, home, i + 1, nodes)
    requires Listed(head, ns, home, i, nodes)
    ensures AllListed(heads[i := head], rows[i := ns], home, i, nodes)
  {
  }

  lemma AllListedAfter(heads: seq<Node?>, rows: seq<seq<Node>>, home: object, i: nat, head: Node?, ns: seq<Node>,
                       nodes: set<Node>)
    requires |heads| == |rows| && i < |rows| && AllListed(heads[i := head], rows[i := ns], home, i, nodes)
    ensures AllListed(heads, rows, home, i + 1, nodes) && Listed(head, ns, home, i, nodes)
  {
    assert heads[i := head][i] == head && rows[i := ns][i] == ns;
    forall k | i + 1 <= k < |rows|
      ensures Listed(heads[k], rows[k], home, k, nodes)
    {
      assert heads[i := head][k] == heads[k] && rows[i := ns][k] == rows[k];
    }
  }

  /** The first node of a list moves to the front of a slot of another array. */
  method MoveFront(newStore: array<Node?>, slot: nat, n: Node, ghost store: array<Node?>, ghost i: nat,
                   ghost rest: seq<Node>, ghost rows: seq<seq<Node>>, ghost moved: seq<seq<Node>>,
                   ghost nodes: set<Node>)
    requires newStore != store && |rows| == store.Length && |moved| == newStore.Length && slot < |moved|
    requires i < |rows| && rest != [] && Listed(n, rest, store, i, nodes)
    requires AllListed(store[..], rows, store, i + 1, nodes) && AllListed(newStore[..], moved, newStore, 0, nodes)
    modifies newStore, n
    ensures Listed(old(n.next), rest[1..], store, i, nodes)
    ensures AllListed(store[..], rows, store, i + 1, nodes)
    ensures AllListed(newStore[..], moved[slot := [n] + moved[slot]], newStore, 0, nodes)
  {
    ghost var heads, newHeads, head, tail := store[..], newStore[..], n.next, rest[1..];
    ListedTail(n, rest, store, i, nodes);
    AllListedUpdate(heads, rows, store, i, head, tail, nodes);
    NotListed(newHeads[slot], moved[slot], newStore, slot, nodes, n);
    Relink(newStore, slot, n, heads[i := head], rows[i := tail], store, i, moved, nodes);
    AllListedAfter(heads, rows, store, i, head, tail, nodes);
    AllListedPrepend(newHeads, moved, newStore, slot, n, nodes);
  }

  /** The hashes of these nodes select slots of a table of this size. */
  ghost predicate RowFits(ns: seq<Node>, size: int)
    requires size > 0
  {
    forall j :: 0 <= j < |ns| ==> HashFits(ns[j].hash, size)
  }

  ghost predicate RowsFit(rows: seq<seq<Node>>, size: int)
    requires size > 0
  {
    forall i :: 0 <= i < |rows| ==> RowFits(rows[i], size)
  }

  /** Empties one list into the new array. */
  method MoveList(newStore: array<Node?>, head: Node?, ghost store: array<Node?>, ghost i: nat,
                  ghost rows: seq<seq<Node>>, ghost was: seq<seq<Node>>, ghost nodes: set<Node>, ghost after: Chain)
    returns (ghost moved: seq<seq<Node>>)
    requires newStore != store && |rows| == store.Length && i < |rows| && |was| == newStore.Length && |was| > 0
    requires Listed(head, rows[i], store, i, nodes) && RowFits(rows[i], newStore.Length)
    requires AllListed(store[..], rows, store, i + 1, nodes) && AllListed(newStore[..], was, newStore, 0, nodes)
    modifies newStore, nodes
    ensures |moved| == newStore.Length
    ensures AllListed(store[..], rows, store, i + 1, nodes) && AllListed(newStore[..], moved, newStore, 0, nodes)
    ensures Moved(Table(moved), after) == Moved(Table(was), Entries(rows[i]) + after)
  {
    var curr := head;
    ghost var rest := rows[i];
    moved := was;
    while curr != null
      invariant |moved| == newStore.Length
      invariant Listed(curr, rest, store, i, nodes) && RowFits(rest, newStore.Length)
      invariant AllListed(store[..], rows, store, i + 1, nodes) && AllListed(newStore[..], moved, newStore, 0, nodes)
      invariant Moved(Table(moved), Entries(rest) + after) == Moved(Table(was), Entries(rows[i]) + after)
      decreases |rest|
    {
      var n := curr;
      assert InList(n, NodeAt(rest, 1, null), store, i, nodes);
      curr := curr.next;
      var slot := SlotFor(n.hash, newStore.Length);
      MoveFront(newStore, slot, n, store, i, rest, rows, moved, nodes);
      MovedStep(moved, rest, after);
      moved := moved[slot := [n] + moved[slot]];
      rest := rest[1..];
    }
    assert Entries(rest) + after == after;
  }

  lemma FlatFirst(t: seq<Chain>, i: nat)
    requires i < |t|
    ensures Flat(t[i..]) == t[i] + Flat(t[i + 1..])
  {
    assert t[i..][1..] == t[i + 1..];
  }

  method MoveAll(store: array<Node?>, size: nat, newSize: nat, ghost rows: seq<seq<Node>>, ghost nodes: set<Node>)
    returns (newStore: array<Node?>, ghost moved: seq<seq<Node>>)
    requires size == store.Length == |rows| && newSize > 0
    requires AllListed(store[..], rows, store, 0, nodes) && RowsFit(rows, newSize)
    modifies nodes
    ensures fresh(newStore) && newSize == newStore.Length == |moved|
    ensures AllListed(newStore[..], moved, newStore, 0, nodes)
    ensures Table(moved) == Rehashed(Table(rows), newSize)
  {
    newStore := new Node?[newSize](_ => null);
    moved := seq(newSize, _ => []);
    assert Table(moved) == Empty(newSize);
    var i := 0;
    while i < size
      invariant 0 <= i <= size && |moved| == newSize
      invariant AllListed(store[..], rows, store, i, nodes) && AllListed(newStore[..], moved, newStore, 0, nodes)
      invariant Moved(Table(moved), Flat(Table(rows)[i..])) == Rehashed(Table(rows), newSize)
    {
      assert Listed(store[i], rows[i], store, i, nodes);
      FlatFirst(Table(rows), i);
      moved := MoveList(newStore, store[i], store, i, rows, moved, nodes, Flat(Table(rows)[i + 1..]));
      i := i + 1;
    }
  }

  /** now is the least prime that is at least twice was. */
  ghost predicate Grown(was: int, now: int) {
    && now >= 2 * was
    && Primes.Prime(now)
    && forall k :: 2 * was <= k < now ==> !Primes.Prime(k)
  }

  /** The table after an insertion: the new entry at the end of its list and, if that list was
      full and resizing is allowed, all of it rehashed. */
  ghost predicate Entered(was: int, t: seq<Chain>, key: Key, val: nat, allowResize: bool, now: int, r: seq<Chain>)
    requires was == |t| > 0 && now > 0
  {
    var full := allowResize && |t[Slot(key, was)]| >= MAX_COLLISION;
    && (if full then Grown(was, now) else now == was)
    && r == if full then Rehashed(Inserted(t, key, val).0, now) else Inserted(t, key, val).0
  }

  lemma NewKeyInserted(t: seq<Chain>, m: map<Key, nat>, k: Key, v: nat)
    requires Represents(t, m) && k !in m
    ensures var i := Slot(k, |t|); Inserted(t, k, v).0 == t[i := t[i] + [Stored(k, v)]]
  {
    SeekFinds(t, m, k);
  }

  /** To whatever size the table may grow, the keys fit it. */
  ghost predicate FitGrown(m: map<Key, nat>, size: int) {
    forall n :: n > 0 && Grown(size, n) ==> AllFit(m, n)
  }

  /** Growing keeps the map, and every node has a slot in the larger table. */
  lemma GrowthRefines(rows: seq<seq<Node>>, m: map<Key, nat>, n: int)
    requires Represents(Table(rows), m) && n > 0 && AllFit(m, n)
    ensures Represents(Rehashed(Table(rows), n), m) && RowsFit(rows, n)
  {
    var t := Table(rows);
    RehashRefines(t, m, n);
    forall i, j | 0 <= i < |rows| && 0 <= j < |rows[i]|
      ensures HashFits(rows[i][j].hash, n)
    {
      ChainInContents(t, i, j);
      assert Counted(t, m, t[i][j]);
    }
  }

  ghost predicate GrowsTo(rows: seq<seq<Node>>, m: map<Key, nat>, n: int)
    requires n > 0
  {
    Represents(Rehashed(Table(rows), n), m) && RowsFit(rows, n)
  }

  lemma GrowthRefinesAny(rows: seq<seq<Node>>, m: map<Key, nat>)
    requires Represents(Table(rows), m) && FitGrown(m, |rows|)
    ensures forall n :: n > 0 && Grown(|rows|, n) ==> GrowsTo(rows, m, n)
  {
    forall n | n > 0 && Grown(|rows|, n)
      ensures GrowsTo(rows, m, n)
    {
      GrowthRefines(rows, m, n);
    }
  }

  class HTable {
    var store: array<Node?>
    var size: int
    const allowResize: bool
    ghost var rows: seq<seq<Node>>
    ghost var nodes: set<Node>
    ghost var bindings: map<Key, nat>

    ghost predicate Linked()
      reads this, store, nodes
    {
      && size == store.Length == |rows| && size > 0
      && AllListed(store[..], rows, store, 0, nodes)
    }

    /** The lists are well formed and hold exactly the bindings. */
    ghost predicate Valid()
      reads this, store, nodes
    {
      Linked() && Represents(Table(rows), bindings)
    }

    /** The key fits the table, and where inserting it makes the table grow, every key fits then. */
    ghost predicate Takes(key: Key, val: nat)
      requires Valid()
      reads this, store, nodes
    {
      && Fits(key, size)
      && (allowResize && key !in bindings && |rows[Slot(key, size)]| >= MAX_COLLISION ==>
            FitGrown(bindings[key := val], size))
    }

    constructor (sz: nat, allowResize: bool)
      ensures Valid() && fresh(store) && fresh(nodes) && bindings == map[]
      ensures this.allowResize == allowResize
      ensures size > sz && Primes.Accepted(size) && (Primes.Prime(size) <==> sz > 0)
      ensures forall k :: sz < k < size ==> !Primes.Accepted(k)
    {
      this.allowResize := allowResize;
      var n := Primes.GetPrime(sz + 1);
      assert Primes.Accepted(1);
      size := n;
      store := new Node?[n](_ => null);
      rows := seq(n, _ => []);
      nodes := {};
      bindings := map[];
      new;
      assert Table(rows) == Empty(size);
      EmptyRepresents(size);
    }

    method Lookup(key: Key) returns (val: nat)
      requires Valid() && Fits(key, size)
      ensures val == if key in bindings then bindings[key] else 0
    {
      var hcode := HashCode(key);
      var slot := SlotFor(hcode, size);
      var _, curr, j := Traverse(store[slot], key, hcode, rows[slot], store, slot, nodes);
      ArrivedAtBinding(rows, bindings, key, j);
      return if curr != null then curr.val else 0;
    }

    /** Appends a node after prev, the last of its list, or starts the list. */
    method Append(slot: int, prev: Node?, key: Key, val: nat)
      requires Linked() && slot == Slot(key, size)
      requires prev == NodeAt(rows[slot], |rows[slot]| - 1, null)
      modifies this`rows, this`nodes, store, nodes
      ensures Linked() && store == old(store) && fresh(nodes - old(nodes))
      ensures Table(rows) == old(Table(rows)[slot := Table(rows)[slot] + [Stored(key, val)]])
    {
      var n := AppendNode(store, slot, prev, key, val, rows, nodes);
      TableAppend(rows, slot, n);
      rows := rows[slot := rows[slot] + [n]];
      nodes := nodes + {n};
    }

    /** Doubles the table: every node moves, in order, to the front of its new slot. */
    method Resize()
      requires Linked() && forall n :: n > 0 && Grown(size, n) ==> RowsFit(rows, n)
      modifies this`store, this`size, this`rows, nodes
      ensures Linked() && fresh(store)
      ensures Grown(old(size), size) && size >= 2 * old(size)
      ensures Table(rows) == Rehashed(old(Table(rows)), size)
    {
      var newSize := Primes.GetPrime(2 * size);
      var newStore, moved := MoveAll(store, size, newSize, rows, nodes);
      size := newSize;
      store := newStore;
      rows := moved;
    }

    /** Binds a new key at the end of its list, and grows the table when the list had
        MAX_COLLISION nodes or more. */
    method Enter(slot: int, prev: Node?, key: Key, val: nat, collision: nat)
      requires Valid() && Takes(key, val) && key !in bindings && slot == Slot(key, size)
      requires prev == NodeAt(rows[slot], |rows[slot]| - 1, null) && collision == |rows[slot]|
      modifies this, store, nodes
      ensures Valid() && fresh(nodes - old(nodes)) && (store == old(store) || fresh(store))
      ensures bindings == old(bindings)[key := val]
      ensures Entered(old(size), old(Table(rows)), key, val, allowResize, size, Table(rows))
    {
      InsertRefines(Table(rows), bindings, key, val);
      NewKeyInserted(Table(rows), bindings, key, val);
      Append(slot, prev, key, val);
      bindings := bindings[key := val];
      if allowResize && collision >= MAX_COLLISION {
        GrowthRefinesAny(rows, bindings);
        Resize();
      }
    }

    /** Refuses a key already there; otherwise binds it, growing the table when the chain had
        MAX_COLLISION nodes or more. */
    method Insert(key: Key, val: nat) returns (r: int)
      requires Valid() && Takes(key, val)
      modifies this, store, nodes
      ensures Valid() && fresh(nodes - old(nodes))
      ensures store == old(store) || fresh(store)
      ensures r == if key in old(bindings) then 1 else 0
      ensures bindings == Bind(old(bindings), key, val)
      ensures r == 1 ==> store == old(store) && rows == old(rows)
      ensures r == 0 ==> Entered(old(size), old(Table(rows)), key, val, allowResize, size, Table(rows))
      ensures r == 0 && allowResize && old(|rows[Slot(key, size)]|) >= 10 ==> size >= 2 * old(size)
      ensures r == 0 && !(allowResize && old(|rows[Slot(key, size)]|) >= 10) ==> size == old(size)
    {
      var hcode := HashCode(key);
      var slot := SlotFor(hcode, size);
      var prev, curr, collision := Traverse(store[slot], key, hcode, rows[slot], store, slot, nodes);
      ArrivedAtBinding(rows, bindings, key, collision);
      if curr != null {
        return 1;
      }
      Enter(slot, prev, key, val, collision);
      return 0;
    }
  }
}
