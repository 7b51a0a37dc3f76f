/** The chained hash table on values: the polynomial string hash, the chains, and what insertion,
    lookup and rehashing do to them, proved against a finite map from keys to values. */
module TableModel {
  import opened CArith
  import opened CText

  const BIG_PRIME := 1560007

  // ----- the hash -----

  function MAdd(a: int, b: int): int {
    if a + b > BIG_PRIME then a + b - BIG_PRIME else a + b
  }

  function MMul(a: int, b: int): int {
    Rem(a * b, BIG_PRIME)
  }

  function Hash(s: Text): (h: int)
    ensures -BIG_PRIME - 128 < h <= BIG_PRIME
  {
    if s == [] then 0 else MAdd(MMul(Hash(s[..|s| - 1]), 256), s[|s| - 1])
  }

  /** The string read as a number in base 256, its digits the signed chars. */
  function Numeral(s: Text): int {
    if s == [] then 0 else Numeral(s[..|s| - 1]) * 256 + s[|s| - 1]
  }

  /** The hash is the base-256 numeral of the string modulo BIG_PRIME, whatever its chars, and no
      intermediate product leaves the int range. */
  lemma {:induction false} HashIsNumeral(s: Text)
    ensures Congruent(Numeral(s), Hash(s), BIG_PRIME)
    ensures -INT_MAX <= Hash(s) * 256 <= INT_MAX
  {
    if s != [] {
      var rest := s[..|s| - 1];
      HashIsNumeral(rest);
      var q := QuotientOf(Numeral(rest), Hash(rest), BIG_PRIME);
      var t := RemQuotient(Hash(rest) * 256, BIG_PRIME);
      var e := if MMul(Hash(rest), 256) + s[|s| - 1] > BIG_PRIME then 1 else 0;
      ByQuotient(Numeral(s), Hash(s), 256 * q + t + e, BIG_PRIME);
    }
  }

  lemma {:induction false} AsciiHash(s: Text)
    requires Ascii(s)
    ensures Hash(s) >= 0
  {
    if s != [] {
      AsciiHash(s[..|s| - 1]);
    }
  }

  type Key = Text

  /** A hash that selects a slot of a table of this size: it is not negative, or a multiple of the
      size. */
  predicate HashFits(h: int, size: int)
    requires size > 0
  {
    h >= 0 || Congruent(h, 0, size)
  }

  predicate Fits(k: Key, size: int)
    requires size > 0
  {
    HashFits(Hash(k), size)
  }

  /** The slot that a hash selects; one that does not fit selects none. */
  function HashSlot(h: int, size: int): (i: nat)
    requires size > 0
    ensures i < size
    ensures HashFits(h, size) ==> i == Rem(h, size)
  {
    RemZero(h, size);
    if h >= 0 then h % size else 0
  }

  /** The slot computed for a string lies in the table exactly when its hash fits. */
  lemma SlotInBounds(s: Text, size: int)
    requires size > 0
    ensures 0 <= Rem(Hash(s), size) < size <==> Fits(s, size)
  {
    RemZero(Hash(s), size);
  }

  /** The number of n's residue from 1 to m. */
  lemma ResidueFromOne(n: int, r: int, m: int)
    requires 0 < r <= m && Congruent(n, r, m)
    ensures r == if n % m == 0 then m else n % m
  {
  }

  /** The hash of a nonempty ASCII string is its numeral's remainder, but BIG_PRIME in place of 0,
      since madd compares with >. */
  lemma AsciiHashExactly(s: Text)
    requires Ascii(s) && s != []
    ensures Hash(s) == if Numeral(s) % BIG_PRIME == 0 then BIG_PRIME else Numeral(s) % BIG_PRIME
  {
    AsciiHash(s[..|s| - 1]);
    HashIsNumeral(s);
    ResidueFromOne(Numeral(s), Hash(s), BIG_PRIME);
  }

  lemma HashOne(c: Char)
    ensures Hash([c]) == c
  {
    assert [c][..0] == [];
  }

  lemma HashMore(s: Text, c: Char, h: int)
    requires h == Rem(Hash(s) * 256, BIG_PRIME) + c
    ensures Hash(s + [c]) == if h > BIG_PRIME then h - BIG_PRIME else h
  {
    assert (s + [c])[..|s|] == s;
  }

  /** A key whose hash is BIG_PRIME itself. */
  lemma FullHash()
    ensures Hash([71, 105, 85]) == BIG_PRIME
  {
    HashOne(71);
    HashMore([71], 105, 71 * 256 + 105);
    HashMore([71] + [105], 85, 1560007);
    assert [71] + [105] + [85] == [71, 105, 85];
  }

  /** The hash of a string with a negative char can be negative, and its slot outside the table. */
  lemma NegativeHash(size: int)
    requires size > 128
    ensures Hash([-128]) < 0 && Rem(Hash([-128]), size) < 0
  {
    HashOne(-128);
  }

  // ----- chains -----

  datatype Entry = Entry(hash: int, key: Key, val: nat)
  type Chain = seq<Entry>

  /** Where the traversal stops: the first entry whose hash and key both match, or the end. */
  function Seek(c: Chain, h: int, k: Key): (i: nat)
    ensures i <= |c|
    ensures i < |c| ==> c[i].hash == h && c[i].key == k
    ensures forall j :: 0 <= j < i ==> !(c[j].hash == h && c[j].key == k)
  {
    if c == [] || (c[0].hash == h && c[0].key == k) then 0 else Seek(c[1..], h, k) + 1
  }

  /** Every entry of the table, with its multiplicity. */
  ghost function Contents(t: seq<Chain>): multiset<Entry> {
    if t == [] then multiset{} else multiset(t[0]) + Contents(t[1..])
  }

  ghost predicate AtHome(e: Entry, slot: int, size: int)
    requires size > 0
  {
    e.hash == Hash(e.key) && HashFits(e.hash, size) && HashSlot(e.hash, size) == slot
  }

  /** Each entry carries the hash of its key and sits in the slot that hash selects. */
  ghost predicate Homed(t: seq<Chain>) {
    forall i, j :: 0 <= i < |t| && 0 <= j < |t[i]| ==> AtHome(t[i][j], i, |t|)
  }

  /** The entry that stores k under v. */
  function Stored(k: Key, v: nat): Entry { Entry(Hash(k), k, v) }

  ghost predicate In(e: Entry, m: map<Key, nat>) {
    e.key in m && e == Stored(e.key, m[e.key])
  }

  ghost predicate Counted(t: seq<Chain>, m: map<Key, nat>, e: Entry) {
    Contents(t)[e] == if In(e, m) then 1 else 0
  }

  /** The table holds each binding of m exactly once, in its slot, and nothing else. */
  ghost predicate Represents(t: seq<Chain>, m: map<Key, nat>) {
    && |t| > 0
    && Homed(t)
    && forall e :: Counted(t, m, e)
  }

  function Slot(k: Key, size: int): (i: nat)
    requires size > 0
    ensures i < size
  {
    HashSlot(Hash(k), size)
  }

  function Lookup(t: seq<Chain>, k: Key): nat
    requires |t| > 0
  {
    var c := t[Slot(k, |t|)];
    var i := Seek(c, Hash(k), k);
    if i < |c| then c[i].val else 0
  }

  function Inserted(t: seq<Chain>, k: Key, v: nat): (seq<Chain>, int)
    requires |t| > 0
  {
    var i := Slot(k, |t|);
    if Seek(t[i], Hash(k), k) < |t[i]| then (t, 1) else (t[i := t[i] + [Stored(k, v)]], 0)
  }

  /** Moves the entries, in order, each to the front of the slot its hash selects. */
  function Moved(t: seq<Chain>, es: seq<Entry>): (r: seq<Chain>)
    requires |t| > 0
    ensures |r| == |t|
    decreases es
  {
    if es == [] then t else
      var i := HashSlot(es[0].hash, |t|);
      Moved(t[i := [es[0]] + t[i]], es[1..])
  }

  function Flat(t: seq<Chain>): Chain {
    if t == [] then [] else t[0] + Flat(t[1..])
  }

  function Empty(n: nat): (t: seq<Chain>)
    ensures |t| == n && forall i :: 0 <= i < n ==> t[i] == []
  {
    seq(n, i => [])
  }

  function Rehashed(t: seq<Chain>, size: int): seq<Chain>
    requires size > 0
  {
    Moved(Empty(size), Flat(t))
  }

  // ----- contents -----

  lemma {:induction false} ContentsUpdate(t: seq<Chain>, i: nat, c: Chain, e: Entry)
    requires i < |t| && multiset(c) == multiset(t[i]) + multiset{e}
    ensures Contents(t[i := c]) == Contents(t) + multiset{e}
  {
    if i == 0 {
      assert t[i := c][1..] == t[1..];
    } else {
      ContentsUpdate(t[1..], i - 1, c, e);
      assert t[i := c][1..] == t[1..][i - 1 := c];
    }
  }

  lemma {:induction false} ContentsMember(t: seq<Chain>, e: Entry) returns (i: nat, j: nat)
    requires e in Contents(t)
    ensures i < |t| && j < |t[i]| && t[i][j] == e
  {
    if e in t[0] {
      i := 0;
      j :| j < |t[0]| && t[0][j] == e;
    } else {
      i, j := ContentsMember(t[1..], e);
      i := i + 1;
    }
  }

  lemma {:induction false} ChainInContents(t: seq<Chain>, i: nat, j: nat)
    requires i < |t| && j < |t[i]|
    ensures t[i][j] in Contents(t)
  {
    if i == 0 {
      assert t[0][j] in multiset(t[0]);
    } else {
      ChainInContents(t[1..], i - 1, j);
    }
  }

  lemma {:induction false} ContentsEmpty(n: nat)
    ensures Contents(Empty(n)) == multiset{}
  {
    if n > 0 {
      assert Empty(n)[1..] == Empty(n - 1);
      ContentsEmpty(n - 1);
    }
  }

  lemma {:induction false} FlatContents(t: seq<Chain>)
    ensures multiset(Flat(t)) == Contents(t)
  {
    if t != [] {
      FlatContents(t[1..]);
    }
  }

  lemma PrependContents(c: Chain, e: Entry)
    ensures multiset([e] + c) == multiset(c) + multiset{e}
  {
  }

  lemma FirstContents(es: seq<Entry>)
    requires es != []
    ensures multiset(es) == multiset(es[1..]) + multiset{es[0]}
  {
    PrependContents(es[1..], es[0]);
    assert es == [es[0]] + es[1..];
  }

  lemma {:induction false} MovedContents(t: seq<Chain>, es: seq<Entry>)
    requires |t| > 0
    ensures Contents(Moved(t, es)) == Contents(t) + multiset(es)
    decreases es
  {
    if es != [] {
      var i := HashSlot(es[0].hash, |t|);
      PrependContents(t[i], es[0]);
      ContentsUpdate(t, i, [es[0]] + t[i], es[0]);
      MovedContents(t[i := [es[0]] + t[i]], es[1..]);
      FirstContents(es);
    }
  }

  // ----- the map it refines -----

  /** The traversal finds the key exactly when the map has it, and then its entry. */
  lemma SeekFinds(t: seq<Chain>, m: map<Key, nat>, k: Key)
    requires Represents(t, m)
    ensures var c := t[Slot(k, |t|)];
      var i := Seek(c, Hash(k), k);
      && (i < |c| <==> k in m)
      && (k in m ==> c[i] == Stored(k, m[k]))
  {
    var s := Slot(k, |t|);
    var i := Seek(t[s], Hash(k), k);
    if i < |t[s]| {
      ChainInContents(t, s, i);
      assert Counted(t, m, t[s][i]);
    }
    if k in m {
      assert Counted(t, m, Stored(k, m[k]));
      assert In(Stored(k, m[k]), m);
      var a, b := ContentsMember(t, Stored(k, m[k]));
      assert AtHome(t[a][b], a, |t|);
    }
  }

  lemma LookupRefines(t: seq<Chain>, m: map<Key, nat>, k: Key)
    requires Represents(t, m) && Fits(k, |t|)
    ensures Lookup(t, k) == if k in m then m[k] else 0
  {
    SeekFinds(t, m, k);
  }

  function Bind(m: map<Key, nat>, k: Key, v: nat): map<Key, nat> {
    if k in m then m else m[k := v]
  }

  lemma NewBinding(m: map<Key, nat>, k: Key, v: nat, e: Entry)
    requires k !in m
    ensures In(e, m[k := v]) <==> In(e, m) || e == Stored(k, v)
    ensures !In(Stored(k, v), m)
  {
  }

  lemma AppendHomed(t: seq<Chain>, k: Key, v: nat)
    requires |t| > 0 && Homed(t) && Fits(k, |t|)
    ensures var s := Slot(k, |t|); Homed(t[s := t[s] + [Stored(k, v)]])
  {
    var s := Slot(k, |t|);
    var r := t[s := t[s] + [Stored(k, v)]];
    forall i, j | 0 <= i < |r| && 0 <= j < |r[i]|
      ensures AtHome(r[i][j], i, |r|)
    {
      assert i != s || j < |t[s]| ==> r[i][j] == t[i][j];
    }
  }

  /** Inserting binds a new key and refuses, changing nothing, a key already there. */
  lemma InsertRefines(t: seq<Chain>, m: map<Key, nat>, k: Key, v: nat)
    requires Represents(t, m) && Fits(k, |t|)
    ensures Represents(Inserted(t, k, v).0, Bind(m, k, v))
    ensures Inserted(t, k, v).1 == if k in m then 1 else 0
    ensures k in m ==> Inserted(t, k, v).0 == t
  {
    SeekFinds(t, m, k);
    if k !in m {
      var s := Slot(k, |t|);
      var r := t[s := t[s] + [Stored(k, v)]];
      var now := m[k := v];
      AppendHomed(t, k, v);
      ContentsUpdate(t, s, t[s] + [Stored(k, v)], Stored(k, v));
      forall e
        ensures Counted(r, now, e)
      {
        assert Counted(t, m, e);
        NewBinding(m, k, v, e);
      }
    }
  }

  lemma {:induction false} MovedHomed(t: seq<Chain>, es: seq<Entry>)
    requires |t| > 0 && Homed(t)
    requires forall e :: e in es ==> e.hash == Hash(e.key) && HashFits(e.hash, |t|)
    ensures Homed(Moved(t, es))
    decreases es
  {
    if es != [] {
      var i := HashSlot(es[0].hash, |t|);
      var r := t[i := [es[0]] + t[i]];
      forall a, b | 0 <= a < |r| && 0 <= b < |r[a]|
        ensures AtHome(r[a][b], a, |r|)
      {
        assert a != i ==> r[a][b] == t[a][b];
        assert a == i && b > 0 ==> r[a][b] == t[a][b - 1];
        assert es[0] in es;
      }
      MovedHomed(r, es[1..]);
    }
  }

  ghost predicate AllFit(m: map<Key, nat>, size: int)
    requires size > 0
  {
    forall k :: k in m ==> Fits(k, size)
  }

  /** Rehashing to any size that the keys fit keeps every entry exactly once, at the slot of its
      hash, so the table stands for the same map. */
  lemma RehashRefines(t: seq<Chain>, m: map<Key, nat>, size: int)
    requires Represents(t, m) && size > 0 && AllFit(m, size)
    ensures Contents(Rehashed(t, size)) == Contents(t)
    ensures Represents(Rehashed(t, size), m)
  {
    MovedContents(Empty(size), Flat(t));
    FlatContents(t);
    ContentsEmpty(size);
    forall e | e in Flat(t)
      ensures e.hash == Hash(e.key) && HashFits(e.hash, size)
    {
      assert e in multiset(Flat(t));
      assert Counted(t, m, e);
    }
    forall e
      ensures Counted(Rehashed(t, size), m, e)
    {
      assert Counted(t, m, e);
    }
    MovedHomed(Empty(size), Flat(t));
  }

  /** The entries that hash to slot i, the last of them first. */
  function LastFirst(es: seq<Entry>, i: nat, size: int): seq<Entry>
    requires size > 0
  {
    if es == [] then [] else LastFirst(es[1..], i, size) + if HashSlot(es[0].hash, size) == i then [es[0]] else []
  }

  lemma {:induction false} MovedReverses(t: seq<Chain>, es: seq<Entry>, i: nat)
    requires i < |t|
    ensures Moved(t, es)[i] == LastFirst(es, i, |t|) + t[i]
    decreases es
  {
    if es != [] {
      var k := HashSlot(es[0].hash, |t|);
      MovedReverses(t[k := [es[0]] + t[k]], es[1..], i);
    }
  }

  /** Rehashing reverses the order in which the entries of a slot were met. */
  lemma RehashReverses(t: seq<Chain>, size: int, i: nat)
    requires i < size
    ensures Rehashed(t, size)[i] == LastFirst(Flat(t), i, size)
  {
    MovedReverses(Empty(size), Flat(t), i);
  }

  lemma EmptyRepresents(size: int)
    requires size > 0
    ensures Represents(Empty(size), map[])
  {
    ContentsEmpty(size);
  }

  // ----- whole runs -----

  datatype Op = Put(k: Key, v: nat) | Get(k: Key) | Resize(size: nat)

  predicate Sizes(ops: seq<Op>) {
    forall i :: 0 <= i < |ops| ==> ops[i].Resize? ==> ops[i].size > 0
  }

  /** What the operations return, one after another. */
  function Results(t: seq<Chain>, ops: seq<Op>): seq<int>
    requires |t| > 0 && Sizes(ops)
    decreases ops
  {
    if ops == [] then [] else
      match ops[0]
      case Put(k, v) => [Inserted(t, k, v).1] + Results(Inserted(t, k, v).0, ops[1..])
      case Get(k) => [Lookup(t, k)] + Results(t, ops[1..])
      case Resize(n) => Results(Rehashed(t, n), ops[1..])
  }

  /** What a finite map would return; it has no sizes. */
  function MapResults(m: map<Key, nat>, ops: seq<Op>): seq<int>
    decreases ops
  {
    if ops == [] then [] else
      match ops[0]
      case Put(k, v) => [if k in m then 1 else 0] + MapResults(Bind(m, k, v), ops[1..])
      case Get(k) => [if k in m then m[k] else 0] + MapResults(m, ops[1..])
      case Resize(_) => MapResults(m, ops[1..])
  }

  /** Every operation is on keys that fit the table as it then is. */
  ghost predicate Suits(m: map<Key, nat>, size: int, ops: seq<Op>)
    requires size > 0 && Sizes(ops)
    decreases ops
  {
    ops == [] ||
    match ops[0]
    case Put(k, v) => Fits(k, size) && Suits(Bind(m, k, v), size, ops[1..])
    case Get(k) => Fits(k, size) && Suits(m, size, ops[1..])
    case Resize(n) => AllFit(m, n) && Suits(m, n, ops[1..])
  }

  /** However the table is resized along the way, it answers every operation as the map does. */
  lemma {:induction false} RunRefines(t: seq<Chain>, m: map<Key, nat>, ops: seq<Op>)
    requires Represents(t, m) && Sizes(ops) && Suits(m, |t|, ops)
    ensures Results(t, ops) == MapResults(m, ops)
    decreases ops
  {
    if ops != [] {
      match ops[0] {
        case Put(k, v) =>
          InsertRefines(t, m, k, v);
          RunRefines(Inserted(t, k, v).0, Bind(m, k, v), ops[1..]);
        case Get(k) =>
          LookupRefines(t, m, k);
          RunRefines(t, m, ops[1..]);
        case Resize(n) =>
          RehashRefines(t, m, n);
          RunRefines(Rehashed(t, n), m, ops[1..]);
      }
    }
  }
}
