/** The simulated memory: one byte array with a movable break, and the 32-byte headers
    that the allocator writes into it. */
module Memlib {
  import opened Layout

  newtype byte = x: int | 0 <= x < 256
  type Bytes = seq<byte>
  const WORD_BYTES: nat := 8
  const WORD_LIMIT: nat := 0x1_0000_0000_0000_0000

  // ----- Machine words: eight bytes, least significant first -----

  /** The number held by the bytes of m from index i up to j. */
  function Decode(m: Bytes, i: nat, j: nat): nat
    requires j <= |m|
    decreases j - i
  {
    if i >= j then 0 else m[i] as nat + 256 * Decode(m, i + 1, j)
  }

  function Encode(v: nat, n: nat): (s: Bytes)
    ensures |s| == n
  {
    if n == 0 then [] else [(v % 256) as byte] + Encode(v / 256, n - 1)
  }

  function Power256(n: nat): nat {
    if n == 0 then 1 else 256 * Power256(n - 1)
  }

  lemma DecodeMoved(m: Bytes, i: nat, n: Bytes, k: nat, len: nat)
    requires i + len <= |m| && k + len <= |n|
    requires forall x :: i <= x < i + len ==> m[x] == n[x - i + k]
    ensures Decode(m, i, i + len) == Decode(n, k, k + len)
    decreases len
  {
    if len > 0 { DecodeMoved(m, i + 1, n, k + 1, len - 1); }
  }

  lemma {:induction false} DecodeEncode(v: nat, n: nat)
    requires v < Power256(n)
    ensures var s := Encode(v, n); Decode(s, 0, |s|) == v
  {
    if n > 0 {
      var s, t := Encode(v, n), Encode(v / 256, n - 1);
      DecodeEncode(v / 256, n - 1);
      DecodeMoved(t, 0, s, 1, n - 1);
    }
  }

  lemma WordRange()
    ensures Power256(WORD_BYTES) == WORD_LIMIT
  {
    assert Power256(4) == 0x1_0000_0000;
    assert Power256(8) == 256 * (256 * (256 * (256 * Power256(4))));
  }

  /** The eight bytes of a word. */
  method ToWord(v: nat) returns (s: Bytes)
    requires v < WORD_LIMIT
    ensures |s| == WORD_BYTES && Decode(s, 0, |s|) == v
  {
    WordRange();
    DecodeEncode(v, WORD_BYTES);
    s := Encode(v, WORD_BYTES);
  }

  // ----- Headers -----

  datatype Header = Header(size: nat, next: nat, prev: nat, status: nat)
  type Headers = map<nat, Header>
  datatype Field = Size | Next | Prev | Status

  function Offset(f: Field): nat {
    match f case Size => 0 case Next => 8 case Prev => 16 case Status => 24
  }

  function WithField(h: Header, f: Field, v: nat): Header {
    match f
    case Size => h.(size := v)
    case Next => h.(next := v)
    case Prev => h.(prev := v)
    case Status => h.(status := v)
  }

  function WordIn(m: Bytes, i: nat): nat
    requires i + WORD_BYTES <= |m|
  {
    Decode(m, i, i + WORD_BYTES)
  }

  function HeaderIn(m: Bytes, i: nat): Header
    requires i + HEADER <= |m|
  {
    Header(WordIn(m, i), WordIn(m, i + 8), WordIn(m, i + 16), WordIn(m, i + 24))
  }

  lemma WordKept(m: Bytes, n: Bytes, i: nat)
    requires |m| == |n| && i + WORD_BYTES <= |m|
    requires forall x :: i <= x < i + WORD_BYTES ==> m[x] == n[x]
    ensures WordIn(m, i) == WordIn(n, i)
  {
    DecodeMoved(m, i, n, i, WORD_BYTES);
  }

  lemma HeaderKept(m: Bytes, n: Bytes, i: nat)
    requires |m| == |n| && i + HEADER <= |m|
    requires forall x :: i <= x < i + HEADER ==> m[x] == n[x]
    ensures HeaderIn(m, i) == HeaderIn(n, i)
  {
    WordKept(m, n, i);
    WordKept(m, n, i + 8);
    WordKept(m, n, i + 16);
    WordKept(m, n, i + 24);
  }

  /** Writing one field's eight bytes updates that field of the header and no other. */
  lemma FieldWritten(m: Bytes, n: Bytes, i: nat, f: Field, code: Bytes)
    requires |m| == |n| && i + HEADER <= |m| && |code| == WORD_BYTES
    requires forall x :: i + Offset(f) <= x < i + Offset(f) + WORD_BYTES ==> n[x] == code[x - i - Offset(f)]
    requires forall x :: 0 <= x < |m| && !(i + Offset(f) <= x < i + Offset(f) + WORD_BYTES) ==> m[x] == n[x]
    ensures HeaderIn(n, i) == WithField(HeaderIn(m, i), f, Decode(code, 0, |code|))
  {
    DecodeMoved(n, i + Offset(f), code, 0, |code|);
    if f != Size { WordKept(m, n, i); }
    if f != Next { WordKept(m, n, i + 8); }
    if f != Prev { WordKept(m, n, i + 16); }
    if f != Status { WordKept(m, n, i + 24); }
  }

  /** The header recorded at a is what the bytes there decode to. */
  ghost predicate Recorded(m: Bytes, base: nat, hdr: Headers, a: nat) {
    a in hdr && base <= a && a - base + HEADER <= |m| && HeaderIn(m, a - base) == hdr[a]
  }

  ghost predicate NoOverlap(a: nat, b: nat) {
    a + HEADER <= b || b + HEADER <= a
  }

  /** A header written at a would overlap none of those recorded. */
  ghost predicate Clear(hdr: Headers, a: nat) {
    a !in hdr && forall b {:trigger NoOverlap(a, b)} :: b in hdr ==> NoOverlap(a, b)
  }

  /** hdr records headers of the memory m, which starts at address base, and no two overlap. */
  ghost predicate Decodes(m: Bytes, base: nat, hdr: Headers) {
    && (forall a {:trigger Recorded(m, base, hdr, a)} :: a in hdr ==> Recorded(m, base, hdr, a))
    && (forall a, b {:trigger NoOverlap(a, b)} :: a in hdr && b in hdr && a != b ==> NoOverlap(a, b))
  }

  /** Bytes that no recorded header covers may change freely. */
  lemma PayloadChanged(m: Bytes, n: Bytes, base: nat, hdr: Headers, p: nat, k: nat)
    requires Decodes(m, base, hdr) && |n| == |m|
    requires forall a :: a in hdr ==> a + HEADER <= p || p + k <= a
    requires forall i :: 0 <= i < |m| && !(p <= base + i < p + k) ==> n[i] == m[i]
    ensures Decodes(n, base, hdr)
  {
    forall a | a in hdr ensures Recorded(n, base, hdr, a) {
      assert Recorded(m, base, hdr, a);
      HeaderKept(m, n, a - base);
    }
  }

  /** A change inside one header is seen in that header only. */
  lemma HeaderChanged(m: Bytes, n: Bytes, base: nat, hdr: Headers, a: nat, h: Header)
    requires Decodes(m, base, hdr) && a in hdr && |n| == |m|
    requires forall i :: 0 <= i < |m| && !(a <= base + i < a + HEADER) ==> n[i] == m[i]
    requires base <= a && a - base + HEADER <= |m| && HeaderIn(n, a - base) == h
    ensures Decodes(n, base, hdr[a := h])
  {
    var now := hdr[a := h];
    forall b | b in now ensures Recorded(n, base, now, b) {
      if b != a {
        assert Recorded(m, base, hdr, b) && NoOverlap(a, b);
        HeaderKept(m, n, b - base);
      }
    }
  }

  /** Address x lies in the header at one of the given addresses. */
  ghost predicate InHeader(keys: set<nat>, x: int) {
    exists a :: a in keys && a <= x < a + HEADER
  }

  /** The bytes outside all headers are the same in m and n, which start at address base. */
  ghost predicate KeptOutside(keys: set<nat>, base: nat, m: Bytes, n: Bytes) {
    |m| == |n| && forall i :: 0 <= i < |m| && !InHeader(keys, base + i) ==> m[i] == n[i]
  }

  lemma KeptWider(k: set<nat>, keys: set<nat>, base: nat, a: Bytes, b: Bytes)
    requires KeptOutside(k, base, a, b) && k <= keys
    ensures KeptOutside(keys, base, a, b)
  {
    forall i | 0 <= i < |a| && !InHeader(keys, base + i) ensures a[i] == b[i] { assert !InHeader(k, base + i); }
  }

  lemma KeptSteps(keys: set<nat>, base: nat, a: Bytes, k1: set<nat>, b: Bytes, k2: set<nat>, c: Bytes)
    requires KeptOutside(k1, base, a, b) && KeptOutside(k2, base, b, c) && k1 <= keys && k2 <= keys
    ensures KeptOutside(keys, base, a, c)
  {
    forall i | 0 <= i < |a| && !InHeader(keys, base + i) ensures a[i] == c[i] {
      assert !InHeader(k1, base + i) && !InHeader(k2, base + i);
    }
  }

  /** The memory system.  hdr records, for every address that currently holds a header,
      what the 32 bytes there decode to. */
  class Heap {
    const base: nat
    const bytes: array<byte>
    var brk: nat
    ghost var hdr: Headers

    function Limit(): nat { base + bytes.Length }

    ghost predicate Fits(a: nat) { base <= a && a + HEADER <= Limit() }

    ghost predicate Valid()
      reads this, bytes
    {
      && 0 < base && base % 16 == 0 && base <= brk <= Limit() < WORD_LIMIT
      && Decodes(bytes[..], base, hdr)
    }

    constructor (base: nat, capacity: nat)
      requires 0 < base && base % 16 == 0 && base + capacity < WORD_LIMIT
      ensures Valid() && fresh(bytes) && hdr == map[] && brk == base
      ensures this.base == base && bytes.Length == capacity
    {
      this.base := base;
      bytes := new byte[capacity];
      brk := base;
      hdr := map[];
    }

    /** Empties the heap; the bytes stay as they are. */
    method ResetBrk()
      requires Valid()
      modifies this
      ensures Valid() && brk == base && hdr == map[]
    {
      brk := base;
      hdr := map[];
    }

    /** Extends the heap, or fails and leaves it alone. */
    method Sbrk(incr: int) returns (p: int)
      requires Valid()
      modifies this`brk
      ensures Valid()
      ensures if incr < 0 || old(brk) + incr > Limit() then p == -1 && brk == old(brk)
              else p == old(brk) && brk == old(brk) + incr
    {
      if incr < 0 || brk + incr > Limit() {
        return -1;
      }
      p := brk;
      brk := brk + incr;
    }

    /** Header addresses are machine words. */
    lemma HeaderFits(a: nat)
      requires Valid() && a in hdr
      ensures Fits(a) && a < WORD_LIMIT
    {
      assert Recorded(bytes[..], base, hdr, a);
    }

    method Load(a: nat) returns (h: Header)
      requires Valid() && a in hdr
      ensures h == hdr[a]
    {
      assert Recorded(bytes[..], base, hdr, a);
      h := HeaderIn(bytes[..], a - base);
    }

    /** Writes one field of the header at a: eight bytes, seen by no other header. */
    method Store(a: nat, f: Field, v: nat)
      requires Valid() && a in hdr && v < WORD_LIMIT
      modifies this`hdr, bytes
      ensures Valid() && hdr == old(hdr)[a := WithField(old(hdr)[a], f, v)] && hdr.Keys == old(hdr.Keys)
      ensures KeptOutside(old(hdr.Keys), base, old(bytes[..]), bytes[..])
    {
      ghost var was, h := bytes[..], WithField(hdr[a], f, v);
      assert Recorded(was, base, hdr, a);
      var code := ToWord(v);
      var start := a - base + Offset(f);
      forall i | start <= i < start + WORD_BYTES { bytes[i] := code[i - start]; }
      FieldWritten(was, bytes[..], a - base, f, code);
      HeaderChanged(was, bytes[..], base, hdr, a, h);
      hdr := hdr[a := h];
      assert a in old(hdr.Keys);
    }

    /** From here on the 32 bytes at a count as a header, whatever they hold. */
    ghost method Track(a: nat)
      requires Valid() && Fits(a) && Clear(hdr, a)
      modifies this`hdr
      ensures Valid() && a in hdr && hdr == old(hdr)[a := hdr[a]]
    {
      var now := hdr[a := HeaderIn(bytes[..], a - base)];
      forall b | b in now ensures Recorded(bytes[..], base, now, b) {
        assert b in hdr ==> Recorded(bytes[..], base, hdr, b);
      }
      forall b, c | b in now && c in now && b != c ensures NoOverlap(b, c) {
        assert b != a ==> NoOverlap(a, b);
        assert c != a ==> NoOverlap(a, c);
      }
      hdr := now;
    }

    /** Only the given addresses still count as headers. */
    ghost method Retain(keys: set<nat>)
      requires Valid() && keys <= hdr.Keys
      modifies this`hdr
      ensures Valid() && hdr.Keys == keys && forall a :: a in keys ==> hdr[a] == old(hdr)[a]
    {
      var now := map a | a in keys :: hdr[a];
      forall a | a in now ensures Recorded(bytes[..], base, now, a) {
        assert Recorded(bytes[..], base, hdr, a);
      }
      hdr := now;
    }

    ghost predicate ClearOfHeaders(p: nat, n: nat)
      reads this
    {
      base <= p && p + n <= Limit() && forall a :: a in hdr ==> a + HEADER <= p || p + n <= a
    }

    /** memset over payload bytes. */
    method Fill(p: nat, n: nat, v: byte)
      requires Valid() && ClearOfHeaders(p, n)
      modifies bytes
      ensures Valid()
      ensures forall i :: 0 <= i < bytes.Length ==>
                bytes[i] == if p <= base + i < p + n then v else old(bytes[i])
    {
      ghost var was := bytes[..];
      forall i | p - base <= i < p - base + n { bytes[i] := v; }
      PayloadChanged(was, bytes[..], base, hdr, p, n);
    }

    /** memcpy between payloads that do not overlap. */
    method Copy(dst: nat, src: nat, n: nat)
      requires Valid() && ClearOfHeaders(dst, n)
      requires base <= src && src + n <= Limit() && (src + n <= dst || dst + n <= src)
      modifies bytes
      ensures Valid()
      ensures forall i :: 0 <= i < bytes.Length ==>
                bytes[i] == if dst <= base + i < dst + n then old(bytes[i - dst + src]) else old(bytes[i])
    {
      ghost var was := bytes[..];
      forall i | dst - base <= i < dst - base + n { bytes[i] := bytes[i - dst + src]; }
      PayloadChanged(was, bytes[..], base, hdr, dst, n);
    }
  }
}
