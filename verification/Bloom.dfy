/** The bloom filter, a packed bitmap, and matching that consults it first. */
module Bloom {
  import opened CArith
  import opened CText
  import opened RabinKarp

  const H1PRIME := 4189793
  const H2PRIME := 3296731
  const BLOOM_HASH_NUM := 10

  function HashI(i: nat, x: int): int {
    Rem(x, H1PRIME) + i * Rem(x, H2PRIME) + 1 + i * i
  }

  /** The ten hash functions do not overflow an int. */
  lemma HashIFits(i: nat, x: int)
    requires i < BLOOM_HASH_NUM
    ensures -INT_MAX <= HashI(i, x) <= INT_MAX
  {
    var r := Rem(x, H2PRIME);
    match i {
      case 0 => case 1 => case 2 => case 3 => case 4 =>
      case 5 => case 6 => case 7 => case 8 => case _ =>
    }
  }

  /** The first hash is one more than the residue by H1PRIME, the second lies above it by one more than
      the residue by H2PRIME, and from there on the steps grow by 2. */
  lemma HashISteps(i: nat, x: nat)
    ensures HashI(0, x) == x % H1PRIME + 1
    ensures HashI(1, x) == HashI(0, x) + x % H2PRIME + 1
    ensures HashI(i + 2, x) - HashI(i + 1, x) == HashI(i + 1, x) - HashI(i, x) + 2
  {
    var r := Rem(x, H2PRIME);
    assert (i + 1) * r == i * r + r && (i + 2) * r == i * r + 2 * r;
    assert (i + 1) * (i + 1) == i * i + 2 * i + 1 && (i + 2) * (i + 2) == i * i + 4 * i + 4;
  }

  /** The hash functions ascend, so the ten hashes of an element are all different. */
  lemma {:induction false} HashIAscends(i: nat, j: nat, x: nat)
    requires i < j
    ensures HashI(i, x) < HashI(j, x)
  {
    var k, r := j - 1, Rem(x, H2PRIME);
    assert j * r == k * r + r && j * j == k * k + 2 * k + 1;
    if i < k {
      HashIAscends(i, k, x);
    }
  }

  /** The i-th position of an element in a bitmap of this size. */
  function Place(i: nat, x: int, bsz: int): (pos: int)
    requires bsz > 0
    ensures pos < bsz
  {
    Rem(HashI(i, x), bsz)
  }

  predicate PlacedAt(i: nat, x: int, bsz: int)
    requires bsz > 0
  {
    HashI(i, x) >= 0 || Congruent(HashI(i, x), 0, bsz)
  }

  /** None of the element's ten hashes is negative, but for multiples of the bitmap's size. */
  predicate Placeable(x: int, bsz: int)
    requires bsz > 0
  {
    forall i :: 0 <= i < BLOOM_HASH_NUM ==> PlacedAt(i, x, bsz)
  }

  /** A position in the bitmap is the hash modulo the bitmap's size. */
  lemma PlaceExactly(i: nat, x: int, bsz: int)
    requires bsz > 0 && PlacedAt(i, x, bsz)
    ensures Place(i, x, bsz) == HashI(i, x) % bsz
  {
    RemZero(HashI(i, x), bsz);
  }

  lemma PlaceInBounds(i: nat, x: int, bsz: int)
    requires bsz > 0
    ensures 0 <= Place(i, x, bsz) <==> PlacedAt(i, x, bsz)
  {
    RemZero(HashI(i, x), bsz);
  }

  /** All ten positions lie in the bitmap exactly when the element is placeable. */
  lemma PositionsInBounds(x: int, bsz: int)
    requires bsz > 0
    ensures (forall i :: 0 <= i < BLOOM_HASH_NUM ==> 0 <= Place(i, x, bsz) < bsz) <==> Placeable(x, bsz)
  {
    forall i: nat {
      PlaceInBounds(i, x, bsz);
    }
  }

  lemma HashINonnegative(i: nat, x: nat)
    ensures HashI(i, x) >= 0
  {
    NonnegativeProduct(i, Rem(x, H2PRIME));
    NonnegativeProduct(i, i);
  }

  lemma NonnegativePlaceable(x: nat, bsz: int)
    requires bsz > 0
    ensures Placeable(x, bsz)
  {
    forall i: nat {
      HashINonnegative(i, x);
    }
  }

  /** The position of a negative hash can lie before the bitmap. */
  lemma NegativePosition(bsz: int)
    requires bsz > 127
    ensures HashOf([-128]) == -128 && Place(0, HashOf([-128]), bsz) < 0
  {
    var none: Text := [];
    assert [-128][1..] == none && HashOf(none) == 0 && PowMod(0) == 1;
  }

  /** A negative hash whose positions all lie in the bitmap, of whatever size. */
  lemma NegativePlaceable(bsz: int)
    requires bsz > 0
    ensures HashOf([-1]) == -1 && Placeable(HashOf([-1]), bsz)
  {
    var none: Text := [];
    assert [-1][1..] == none && HashOf(none) == 0 && PowMod(0) == 1;
    forall i: nat
      ensures HashI(i, -1) >= 0
    {
      if i > 0 { NonnegativeProduct(i, i - 1); }
    }
  }

  // ----- bits -----

  /** The mask with which a bit is set: 0x80 shifted right. */
  function Mask(k: nat): bv8
    requires k < 8
  {
    (0x80 as bv8) >> k
  }

  /** The mask with which a bit is read: 1 shifted left from the other end. */
  function ReadMask(k: nat): bv8
    requires k < 8
  {
    (1 as bv8) << (7 - k)
  }

  predicate Bit(buf: seq<bv8>, pos: nat)
    requires pos / 8 < |buf|
  {
    buf[pos / 8] & Mask(pos % 8) != 0
  }

  lemma MaskValue(k: nat)
    requires k < 8
    ensures Mask(k) == ReadMask(k)
    ensures Mask(k) == if k == 0 then 0x80 else if k == 1 then 0x40 else if k == 2 then 0x20 else if k == 3 then 0x10
                       else if k == 4 then 8 else if k == 5 then 4 else if k == 6 then 2 else 1
  {
    match k {
      case 0 => assert Mask(0) == 0x80;
      case 1 => assert Mask(1) == 0x40;
      case 2 => assert Mask(2) == 0x20;
      case 3 => assert Mask(3) == 0x10;
      case 4 => assert Mask(4) == 8;
      case 5 => assert Mask(5) == 4;
      case 6 => assert Mask(6) == 2;
      case _ => assert k == 7; assert Mask(7) == 1;
    }
  }

  /** The k-th bit is the k-th digit, from the left, of the byte written in binary. */
  lemma BitExactly(buf: seq<bv8>, q: nat, k: nat)
    requires q < |buf| && k < 8
    ensures Bit(buf, 8 * q + k) <==> (buf[q] >> (7 - k)) & 1 == 1
  {
    assert (8 * q + k) / 8 == q && (8 * q + k) % 8 == k;
    MaskValue(k);
    match k {
      case 0 => case 1 => case 2 => case 3 => case 4 => case 5 => case 6 => case _ => assert k == 7;
    }
  }

  /** Setting one bit of a byte sets that bit and no other. */
  lemma SetBit(x: bv8, j: nat, k: nat)
    requires j < 8 && k < 8
    ensures (x | Mask(j)) & Mask(k) != 0 <==> x & Mask(k) != 0 || j == k
  {
    MaskValue(j);
    MaskValue(k);
  }

  class BloomFilter {
    const buf: array<bv8>
    const bsz: nat

    ghost predicate Valid()
      reads this
    {
      bsz > 0 && bsz % 8 == 0 && buf.Length == bsz / 8
    }

    ghost predicate IsSet(i: nat, elm: int)
      requires Valid()
      reads this, buf
    {
      Place(i, elm, bsz) >= 0 && Bit(buf[..], Place(i, elm, bsz))
    }

    /** All the positions of an element are set. */
    ghost predicate Holds(elm: int)
      requires Valid()
      reads this, buf
    {
      forall i :: 0 <= i < BLOOM_HASH_NUM ==> IsSet(i, elm)
    }

    /** Looking at the positions from the i-th on, up to the first that is not set, stays in the bitmap. */
    ghost predicate Scannable(elm: int, i: nat)
      requires Valid()
      reads this, buf
      decreases BLOOM_HASH_NUM - i
    {
      i >= BLOOM_HASH_NUM || (PlacedAt(i, elm, bsz) && (IsSet(i, elm) ==> Scannable(elm, i + 1)))
    }

    lemma {:induction false} PlaceableScans(elm: int, i: nat)
      requires Valid() && Placeable(elm, bsz)
      ensures Scannable(elm, i)
      decreases BLOOM_HASH_NUM - i
    {
      if i < BLOOM_HASH_NUM {
        PlaceableScans(elm, i + 1);
      }
    }

    /** pos is one of the first k positions of an element. */
    ghost predicate Touches(elm: int, pos: nat, k: nat)
      requires bsz > 0
    {
      exists i :: 0 <= i < k && Place(i, elm, bsz) == pos
    }

    constructor (bsz: nat)
      requires bsz > 0 && bsz % 8 == 0
      ensures Valid() && this.bsz == bsz && fresh(buf)
      ensures forall pos :: 0 <= pos < bsz ==> !Bit(buf[..], pos)
    {
      this.bsz := bsz;
      buf := new bv8[bsz / 8](_ => 0);
    }

    method Add(elm: int)
      requires Valid() && Placeable(elm, bsz)
      modifies buf
      ensures forall pos :: 0 <= pos < bsz ==>
        (Bit(buf[..], pos) <==> old(Bit(buf[..], pos)) || Touches(elm, pos, BLOOM_HASH_NUM))
    {
      for i := 0 to BLOOM_HASH_NUM
        invariant forall pos :: 0 <= pos < bsz ==>
          (Bit(buf[..], pos) <==> old(Bit(buf[..], pos)) || Touches(elm, pos, i))
      {
        var pos := Place(i, elm, bsz);
        PlaceInBounds(i, elm, bsz);
        ghost var was := buf[..];
        var whichByte, whichBit := pos / 8, pos % 8;
        buf[whichByte] := buf[whichByte] | Mask(whichBit);
        forall p | 0 <= p < bsz
          ensures Bit(buf[..], p) <==> Bit(was, p) || p == pos
        {
          SetBit(was[p / 8], whichBit, p % 8);
        }
      }
    }

    method BitAtPos(pos: nat) returns (b: bool)
      requires Valid() && pos < bsz
      ensures b <==> Bit(buf[..], pos)
    {
      MaskValue(pos % 8);
      b := buf[pos / 8] & ReadMask(pos % 8) != 0;
    }

    method Query(elm: int) returns (found: bool)
      requires Valid() && Scannable(elm, 0)
      ensures found <==> Holds(elm)
    {
      for i := 0 to BLOOM_HASH_NUM
        invariant forall j :: 0 <= j < i ==> IsSet(j, elm)
        invariant Scannable(elm, i)
      {
        PlaceInBounds(i, elm, bsz);
        var b := BitAtPos(Place(i, elm, bsz));
        if !b {
          assert !IsSet(i, elm);
          return false;
        }
      }
      return true;
    }
  }

  /** The nine positions of 0 in a bitmap of 80 bits. */
  lemma ZeroIn80(i: nat)
    requires i < BLOOM_HASH_NUM
    ensures Place(i, 0, 80) == if i < 9 then 1 + i * i else 2
  {
    assert HashI(i, 0) == 1 + i * i;
    match i {
      case 0 => case 1 => case 2 => case 3 => case 4 => case 5 => case 6 => case 7 => case 8 => case _ => assert i == 9;
    }
  }

  /** An element that a filter of 80 bits to which only 0 was added does not hold. */
  lemma OtherRejected(bf: BloomFilter)
    requires bf.Valid() && bf.bsz == 80
    requires forall pos :: 0 <= pos < 80 ==> (Bit(bf.buf[..], pos) <==> bf.Touches(0, pos, BLOOM_HASH_NUM))
    ensures Place(1, 4000000, 80) == 71 && !bf.Holds(4000000)
  {
    assert HashI(1, 4000000) == 4703271;
    forall i | 0 <= i < BLOOM_HASH_NUM
      ensures Place(i, 0, 80) != 71
    {
      ZeroIn80(i);
    }
    assert !bf.Touches(0, 71, BLOOM_HASH_NUM);
    assert !bf.IsSet(1, 4000000);
  }

  // ----- a filter over the windows of a document -----

  /** The bitmap has a place for the hash of every window. */
  predicate Indexable(doc: Text, m: nat, bsz: int)
    requires m <= |doc| && bsz > 0
  {
    forall j :: 0 <= j <= |doc| - m ==> Placeable(Rolled(doc, m, j), bsz)
  }

  lemma AsciiIndexable(doc: Text, m: nat, bsz: int)
    requires Ascii(doc) && m <= |doc| && bsz > 0
    ensures Indexable(doc, m, bsz)
  {
    forall j | 0 <= j <= |doc| - m
      ensures Placeable(Rolled(doc, m, j), bsz)
    {
      AsciiRolled(doc, m, j);
      NonnegativePlaceable(Rolled(doc, m, j), bsz);
    }
  }

  /** An ASCII pattern can be looked up in any filter. */
  lemma AsciiScannable(p: Text, bf: BloomFilter)
    requires Ascii(p) && bf.Valid()
    ensures bf.Scannable(HashOf(p), 0)
  {
    AsciiHash(p);
    NonnegativePlaceable(HashOf(p), bf.bsz);
    bf.PlaceableScans(HashOf(p), 0);
  }

  /** pos is a position of one of the first k windows' hashes. */
  ghost predicate WindowTouches(bf: BloomFilter, doc: Text, m: nat, k: nat, pos: nat)
    requires bf.bsz > 0 && m <= |doc|
  {
    exists j :: 0 <= j < k && bf.Touches(Rolled(doc, m, j), pos, BLOOM_HASH_NUM)
  }

  lemma WindowTouchesMore(bf: BloomFilter, doc: Text, m: nat, k: nat, pos: nat)
    requires bf.bsz > 0 && m <= |doc|
    ensures WindowTouches(bf, doc, m, k + 1, pos) <==>
      WindowTouches(bf, doc, m, k, pos) || bf.Touches(Rolled(doc, m, k), pos, BLOOM_HASH_NUM)
  {
  }

  /** The filter's bits are exactly those of the hashes of the first k windows. */
  ghost predicate IndexedTo(bf: BloomFilter, doc: Text, m: nat, k: nat)
    requires bf.Valid() && m <= |doc|
    reads bf, bf.buf
  {
    forall pos :: 0 <= pos < bf.bsz ==> (Bit(bf.buf[..], pos) <==> WindowTouches(bf, doc, m, k, pos))
  }

  /** The filter's bits are exactly those of the hashes of the document's windows, all in the bitmap. */
  ghost predicate Indexes(bf: BloomFilter, doc: Text, m: nat)
    requires bf.Valid() && m <= |doc|
    reads bf, bf.buf
  {
    Indexable(doc, m, bf.bsz) && IndexedTo(bf, doc, m, |doc| - m + 1)
  }

  method AddWindow(bf: BloomFilter, docHash: int, ghost doc: Text, ghost m: nat, ghost k: nat)
    requires bf.Valid() && m <= |doc| && docHash == Rolled(doc, m, k) && Placeable(docHash, bf.bsz)
    requires IndexedTo(bf, doc, m, k)
    modifies bf.buf
    ensures IndexedTo(bf, doc, m, k + 1)
  {
    bf.Add(docHash);
    forall pos | 0 <= pos < bf.bsz
      ensures Bit(bf.buf[..], pos) <==> WindowTouches(bf, doc, m, k + 1, pos)
    {
      WindowTouchesMore(bf, doc, m, k, pos);
    }
  }

  method CreateDocBloom(m: nat, doc: Text, bloomSize: nat) returns (bf: BloomFilter)
    requires bloomSize > 0 && bloomSize % 8 == 0 && m <= |doc| && Indexable(doc, m, bloomSize)
    ensures fresh(bf) && fresh(bf.buf) && bf.Valid() && bf.bsz == bloomSize && Indexes(bf, doc, m)
  {
    bf := new BloomFilter(bloomSize);
    var docHash, h := InitHash(doc, m);
    assert docHash == Rolled(doc, m, 0);
    AddWindow(bf, docHash, doc, m, 0);
    var index := 1;
    var n := Length(doc);
    while index <= n - m
      invariant 1 <= index <= n - m + 1 && docHash == Rolled(doc, m, index - 1)
      invariant IndexedTo(bf, doc, m, index)
    {
      docHash := Roll(doc, m, index - 1, docHash, h);
      AddWindow(bf, docHash, doc, m, index);
      index := index + 1;
    }
  }

  /** No false negatives: the filter holds the hash of every pattern that the matcher finds. */
  lemma HitHeld(bf: BloomFilter, p: Text, doc: Text, i: nat)
    requires bf.Valid() && |p| <= |doc| && Indexes(bf, doc, |p|) && Hit(p, doc, i)
    ensures bf.Holds(HashOf(p))
  {
    assert Rolled(doc, |p|, i) == HashOf(p);
    forall k | 0 <= k < BLOOM_HASH_NUM
      ensures bf.IsSet(k, HashOf(p))
    {
      PlaceInBounds(k, HashOf(p), bf.bsz);
      assert bf.Touches(HashOf(p), Place(k, HashOf(p), bf.bsz), BLOOM_HASH_NUM);
    }
  }

  /** The plain matcher's answer where the filter, whatever it was made from, holds the pattern's
      hash; 0 where it rejects, and then the first position is not written. */
  method MatchUsingBloom(p: Text, doc: Text, bf: BloomFilter, first0: int) returns (count: nat, first: int)
    requires bf.Valid() && bf.Scannable(HashOf(p), 0)
    ensures bf.Holds(HashOf(p)) ==> Matched(p, doc, count, first)
    ensures !bf.Holds(HashOf(p)) ==> count == 0 && first == first0
  {
    var m := Length(p);
    var patternHash, h := InitHash(p, m);
    assert p[..m] == p;
    var hit := bf.Query(patternHash);
    if hit {
      count, first := Match(p, doc);
      return;
    }
    return 0, first0;
  }

  lemma {:induction false} RejectedNowhere(p: Text, doc: Text, bf: BloomFilter, k: nat)
    requires bf.Valid() && |p| <= |doc| && Indexes(bf, doc, |p|) && !bf.Holds(HashOf(p))
    ensures Hits(p, doc, k) == 0
  {
    if k > 0 {
      RejectedNowhere(p, doc, bf, k - 1);
      if Hit(p, doc, k - 1) {
        HitHeld(bf, p, doc, k - 1);
      }
    }
  }

  /** What matching with the filter counts. */
  ghost predicate Filtered(p: Text, doc: Text, bf: BloomFilter, count: nat, first: int)
    requires bf.Valid()
    reads bf, bf.buf
  {
    if bf.Holds(HashOf(p)) then Matched(p, doc, count, first) else count == 0
  }

  lemma FilteredIsHits(p: Text, doc: Text, bf: BloomFilter, count: nat, first: int)
    requires bf.Valid() && |p| <= |doc| && Indexes(bf, doc, |p|) && Filtered(p, doc, bf, count, first)
    ensures count == Hits(p, doc, |doc| - |p| + 1)
  {
    if bf.Holds(HashOf(p)) {
      MatchedHits(p, doc, count, first);
    } else {
      RejectedNowhere(p, doc, bf, |doc| - |p| + 1);
    }
  }

  /** With the filter of the document for the pattern's length, the count is that of the plain
      matcher, and so the number of occurrences exactly when the signs agree at each. */
  lemma FilterLosesNothing(p: Text, doc: Text, bf: BloomFilter, count: nat, first: int)
    requires bf.Valid() && |p| <= |doc| && Indexes(bf, doc, |p|) && Filtered(p, doc, bf, count, first)
    ensures count == Hits(p, doc, |doc| - |p| + 1)
    ensures p != [] ==> (count == Occurrences(p, doc, |doc|) <==> AllSignsAgree(p, doc))
  {
    FilteredIsHits(p, doc, bf, count, first);
    HitsExact(p, doc, count);
  }
}
