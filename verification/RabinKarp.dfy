/** Rabin-Karp matching: the rolling hash, and the matcher proved against the plain count of
    occurrences. */
module RabinKarp {
  import opened CArith
  import opened CText

  const PRIME := 961748941
  const LLONG_MAX := 0x7fff_ffff_ffff_ffff

  /** What is read at i: past the last char, the terminator. */
  function At(s: Text, i: nat): int { if i < |s| then s[i] else 0 }

  // ----- modular arithmetic on long long -----

  predicate Fits(x: int) { -LLONG_MAX - 1 <= x <= LLONG_MAX }

  function MAdd(a: int, b: int): int
    requires Fits(a + b)
  {
    Rem(a + b, PRIME)
  }

  function MSub(a: int, b: int): int
    requires Fits(a - b) && Fits(a + PRIME) && Fits(a + PRIME - b)
  {
    if a > b then a - b else a + PRIME - b
  }

  function MMul(a: int, b: int): int
    requires Fits(a * b)
  {
    Rem(a * b, PRIME)
  }

  /** A remainder by PRIME. */
  predicate Reduced(x: int) { -PRIME < x < PRIME }

  lemma {:induction false} Scaled(x: int, c: nat)
    requires Reduced(x)
    ensures -PRIME * c <= x * c <= PRIME * c
  {
    if c > 0 {
      Scaled(x, c - 1);
      assert x * c == x * (c - 1) + x;
    }
  }

  lemma CharProduct(x: int, c: int)
    requires Reduced(x) && -128 <= c <= 256
    ensures Fits(x * c)
  {
    if c >= 0 {
      Scaled(x, c);
    } else {
      Scaled(x, -c);
      assert x * c == -(x * -c);
    }
  }

  function PowMod(k: nat): (p: int)
    ensures 0 <= p < PRIME
  {
    if k == 0 then 1 else
      CharProduct(PowMod(k - 1), 256);
      MMul(PowMod(k - 1), 256)
  }

  /** The hash of a text, summed from its last char. */
  function HashOf(s: Text): (h: int)
    ensures Reduced(h)
  {
    if s == [] then 0 else
      CharProduct(PowMod(|s| - 1), s[0]);
      MAdd(HashOf(s[1..]), MMul(PowMod(|s| - 1), s[0]))
  }

  /** The hash of the next window. */
  function NextHash(curr: int, h: int, leftmost: int, rightmost: int): (r: int)
    requires Reduced(curr) && Reduced(h) && -128 <= leftmost <= 127 && -128 <= rightmost <= 127
    ensures Reduced(r)
  {
    CharProduct(curr, 256);
    CharProduct(h, leftmost);
    assert 256 * curr == curr * 256 && leftmost * h == h * leftmost;
    MAdd(MSub(MMul(256, curr), MMul(leftmost, h)), rightmost)
  }

  /** The hash the matcher holds at position i, rolled there from the start. */
  function Rolled(doc: Text, m: nat, i: nat): (h: int)
    requires m <= |doc|
    ensures Reduced(h)
  {
    if i == 0 then HashOf(doc[..m]) else NextHash(Rolled(doc, m, i - 1), PowMod(m), At(doc, i - 1), At(doc, i - 1 + m))
  }

  method Length(s: Text) returns (count: nat)
    ensures count == |s|
  {
    count := 0;
    while At(s, count) != 0
      invariant count <= |s|
      decreases |s| - count
    {
      count := count + 1;
    }
  }

  method InitHash(buf: Text, m: nat) returns (hashret: int, h: int)
    requires m <= |buf|
    ensures hashret == HashOf(buf[..m]) && h == PowMod(m)
  {
    hashret, h := 0, 1;
    var i := m - 1;
    while i >= 0
      invariant -1 <= i < m
      invariant hashret == HashOf(buf[..m][i + 1..]) && h == PowMod(m - 1 - i)
    {
      assert buf[..m][i..][1..] == buf[..m][i + 1..];
      CharProduct(h, buf[i]);
      CharProduct(h, 256);
      hashret := MAdd(hashret, MMul(h, buf[i]));
      h := MMul(h, 256);
      i := i - 1;
    }
  }

  // ----- occurrences -----

  ghost predicate Occurs(p: Text, doc: Text, i: nat) {
    i + |p| <= |doc| && doc[i..i + |p|] == p
  }

  /** The matcher finds an occurrence only where the hashes agree, and the empty text nowhere. */
  ghost predicate Hit(p: Text, doc: Text, i: nat)
    requires |p| <= |doc|
  {
    p != [] && Rolled(doc, |p|, i) == HashOf(p) && Occurs(p, doc, i)
  }

  ghost function Hits(p: Text, doc: Text, k: nat): nat
    requires |p| <= |doc|
  {
    if k == 0 then 0 else Hits(p, doc, k - 1) + if Hit(p, doc, k - 1) then 1 else 0
  }

  ghost function Occurrences(p: Text, doc: Text, k: nat): nat {
    if k == 0 then 0 else Occurrences(p, doc, k - 1) + if Occurs(p, doc, k - 1) then 1 else 0
  }

  /** first is the least of the hits below k, or -1. */
  ghost predicate FirstHit(p: Text, doc: Text, k: nat, first: int)
    requires |p| <= |doc|
  {
    if first == -1 then Hits(p, doc, k) == 0 else 0 <= first < k && Hit(p, doc, first) && Hits(p, doc, first) == 0
  }

  lemma FirstHitStep(p: Text, doc: Text, k: nat, first: int)
    requires |p| <= |doc| && FirstHit(p, doc, k, first)
    ensures FirstHit(p, doc, k + 1, if first == -1 && Hit(p, doc, k) then k else first)
  {
  }

  /** first is the least position below k at which p occurs, or -1. */
  ghost predicate FirstOccurrence(p: Text, doc: Text, k: nat, first: int) {
    if first == -1 then forall i: nat :: i < k ==> !Occurs(p, doc, i)
    else 0 <= first < k && Occurs(p, doc, first) && forall i: nat :: i < first ==> !Occurs(p, doc, i)
  }

  /** Compares char by char; nothing is found of an empty pattern. */
  method CompareAt(p: Text, doc: Text, i: nat) returns (found: bool)
    requires i + |p| <= |doc|
    ensures found <==> p != [] && Occurs(p, doc, i)
  {
    found := false;
    var k := 0;
    while At(p, k) != 0
      invariant 0 <= k <= |p| && doc[i..i + k] == p[..k] && (found <==> k > 0)
      decreases |p| - k
    {
      if At(p, k) == At(doc, i + k) {
        assert doc[i..i + k + 1] == doc[i..i + k] + [doc[i + k]] && p[..k + 1] == p[..k] + [p[k]];
        k := k + 1;
        found := true;
      } else {
        assert doc[i..i + |p|][k] != p[k];
        return false;
      }
    }
    assert p[..k] == p;
  }

  /** Rolls the hash of the window at i on by one char. */
  method Roll(doc: Text, m: nat, i: nat, docHash: int, h: int) returns (next: int)
    requires m <= |doc| && docHash == Rolled(doc, m, i) && h == PowMod(m)
    ensures next == Rolled(doc, m, i + 1)
  {
    next := NextHash(docHash, h, At(doc, i), At(doc, i + m));
  }

  /** Compares only where the hashes agree. */
  method Examine(p: Text, doc: Text, i: nat, patternHash: int, docHash: int) returns (found: bool)
    requires i + |p| <= |doc| && patternHash == HashOf(p) && docHash == Rolled(doc, |p|, i)
    ensures found <==> Hit(p, doc, i)
  {
    found := false;
    if patternHash == docHash {
      found := CompareAt(p, doc, i);
    }
  }

  /** The answer of the matcher: the number of hits, and the least. */
  ghost predicate Matched(p: Text, doc: Text, count: nat, first: int) {
    if |p| > |doc| then count == 0 && first == -1
    else count == Hits(p, doc, |doc| - |p| + 1) && FirstHit(p, doc, |doc| - |p| + 1, first)
  }

  lemma MatchedHits(p: Text, doc: Text, count: nat, first: int)
    requires |p| <= |doc| && Matched(p, doc, count, first)
    ensures count == Hits(p, doc, |doc| - |p| + 1)
  {
  }

  /** Counts the hits; with chars of either sign this need not be the count of occurrences. */
  method Match(p: Text, doc: Text) returns (count: nat, first: int)
    ensures Matched(p, doc, count, first)
  {
    count, first := 0, -1;
    var m := Length(p);
    var n := Length(doc);
    if m > n {
      return;
    }
    var patternHash, h := InitHash(p, m);
    assert p[..m] == p;
    var docHash;
    docHash, h := InitHash(doc, m);
    var index := 0;
    while index <= n - m
      invariant 0 <= index <= n - m + 1
      invariant docHash == Rolled(doc, m, index)
      invariant count == Hits(p, doc, index) && FirstHit(p, doc, index, first)
    {
      var found := Examine(p, doc, index, patternHash, docHash);
      FirstHitStep(p, doc, index, first);
      if found {
        if first == -1 {
          first := index;
        }
        count := count + 1;
      }
      docHash := Roll(doc, m, index, docHash, h);
      index := index + 1;
    }
  }

  // ----- the hash is the polynomial -----

  function Power(k: nat): (p: nat)
  {
    if k == 0 then 1 else Power(k - 1) * 256
  }

  /** 256^(m-1) s[0] + 256^(m-2) s[1] + ... + s[m-1]. */
  function Value(s: Text): int {
    if s == [] then 0 else Power(|s| - 1) * s[0] + Value(s[1..])
  }

  lemma {:induction false} PowModIsPower(k: nat)
    ensures Congruent(Power(k), PowMod(k), PRIME)
  {
    if k > 0 {
      PowModIsPower(k - 1);
      CharProduct(PowMod(k - 1), 256);
      var q := QuotientOf(Power(k - 1), PowMod(k - 1), PRIME);
      var t := RemQuotient(PowMod(k - 1) * 256, PRIME);
      ByQuotient(Power(k), PowMod(k), q * 256 + t, PRIME);
    }
  }

  /** The hash is the polynomial modulo PRIME. */
  lemma {:induction false} HashIsValue(s: Text)
    ensures Congruent(Value(s), HashOf(s), PRIME)
  {
    if s != [] {
      var k, c, rest := |s| - 1, s[0], s[1..];
      PowModIsPower(k);
      HashIsValue(rest);
      CharProduct(PowMod(k), c);
      var a := QuotientOf(Power(k), PowMod(k), PRIME);
      ScaledQuotient(Power(k), PowMod(k), a, PRIME, c);
      var b := QuotientOf(Value(rest), HashOf(rest), PRIME);
      var t := RemQuotient(PowMod(k) * c, PRIME);
      var u := RemQuotient(HashOf(rest) + MMul(PowMod(k), c), PRIME);
      ByQuotient(Value(s), HashOf(s), a * c + b + t + u, PRIME);
    }
  }

  lemma {:induction false} ValueAppend(s: Text, c: Char)
    ensures Value(s + [c]) == 256 * Value(s) + c
  {
    if s == [] {
      assert [c][1..] == [];
    } else {
      assert (s + [c])[1..] == s[1..] + [c];
      ValueAppend(s[1..], c);
    }
  }

  lemma Times256(p: int, c: int)
    ensures p * 256 * c == 256 * (p * c)
  {
  }

  lemma ValuePrepend(c: Char, s: Text)
    ensures 256 * Value([c] + s) == Power(|s| + 1) * c + 256 * Value(s)
  {
    assert ([c] + s)[1..] == s;
    Times256(Power(|s|), c);
  }

  /** Sliding the window by one char. */
  lemma ValueSlide(doc: Text, m: nat, i: nat)
    requires 0 < m && i + m < |doc|
    ensures Value(doc[i + 1..i + 1 + m]) == 256 * Value(doc[i..i + m]) - Power(m) * doc[i] + doc[i + m]
  {
    var l, mid, r := doc[i], doc[i + 1..i + m], doc[i + m];
    assert doc[i..i + m] == [l] + mid && doc[i + 1..i + 1 + m] == mid + [r];
    ValueAppend(mid, r);
    ValuePrepend(l, mid);
  }

  /** The update is right modulo PRIME, although msub yields PRIME for zero. */
  lemma NextIsValue(x: int, h: int, v: int, p: int, c: int, r: int)
    requires Reduced(x) && Reduced(h) && -128 <= c <= 127 && -128 <= r <= 127
    requires Congruent(v, x, PRIME) && Congruent(p, h, PRIME)
    ensures Congruent(256 * v - p * c + r, NextHash(x, h, c, r), PRIME)
  {
    CharProduct(x, 256);
    CharProduct(h, c);
    assert 256 * x == x * 256 && c * h == h * c;
    var a := QuotientOf(v, x, PRIME);
    var b := QuotientOf(p, h, PRIME);
    ScaledQuotient(p, h, b, PRIME, c);
    var t := RemQuotient(256 * x, PRIME);
    var u := RemQuotient(c * h, PRIME);
    var d := MSub(MMul(256, x), MMul(c, h));
    var w := RemQuotient(d + r, PRIME);
    var e := if MMul(256, x) > MMul(c, h) then 0 else 1;
    ByQuotient(256 * v - p * c + r, NextHash(x, h, c, r), 256 * a - b * c + t - u + w - e, PRIME);
  }

  lemma RolledOnce(doc: Text, m: nat, i: nat)
    requires 0 < m && i + m < |doc|
    requires Congruent(Value(doc[i..i + m]), Rolled(doc, m, i), PRIME)
    ensures Congruent(Value(doc[i + 1..i + 1 + m]), Rolled(doc, m, i + 1), PRIME)
  {
    PowModIsPower(m);
    ValueSlide(doc, m, i);
    NextIsValue(Rolled(doc, m, i), PowMod(m), Value(doc[i..i + m]), Power(m), doc[i], doc[i + m]);
  }

  /** At every position the rolled hash is the polynomial of the window there, modulo PRIME. */
  lemma {:induction false} RolledIsValue(doc: Text, m: nat, i: nat)
    requires 0 < m && i + m <= |doc|
    ensures Congruent(Value(doc[i..i + m]), Rolled(doc, m, i), PRIME)
  {
    if i == 0 {
      HashIsValue(doc[..m]);
    } else {
      RolledIsValue(doc, m, i - 1);
      RolledOnce(doc, m, i - 1);
    }
  }

  predicate SignsAgreeAt(p: Text, doc: Text, i: nat)
    requires |p| <= |doc|
  {
    Rolled(doc, |p|, i) < 0 <==> HashOf(p) < 0
  }

  /** At every occurrence below k the two hashes are of one sign. */
  ghost predicate SignsAgree(p: Text, doc: Text, k: nat)
    requires |p| <= |doc|
  {
    forall i: nat :: i < k && Occurs(p, doc, i) ==> SignsAgreeAt(p, doc, i)
  }

  /** Exactly when an occurrence is found: the rolled hash always has the residue of the
      pattern's, so it is missed just where the two remainders differ in sign. */
  lemma HitExactly(p: Text, doc: Text, i: nat)
    requires p != [] && |p| <= |doc|
    ensures Hit(p, doc, i) <==> Occurs(p, doc, i) && SignsAgreeAt(p, doc, i)
  {
    if Occurs(p, doc, i) {
      RolledIsValue(doc, |p|, i);
      HashIsValue(p);
      SameSign(Rolled(doc, |p|, i), HashOf(p), PRIME);
    }
  }

  lemma NonnegativeProduct(a: nat, b: nat)
    ensures a * b >= 0
  {
  }

  lemma {:induction false} AsciiHash(s: Text)
    requires Ascii(s)
    ensures HashOf(s) >= 0
  {
    if s != [] {
      AsciiHash(s[1..]);
      CharProduct(PowMod(|s| - 1), s[0]);
      NonnegativeProduct(PowMod(|s| - 1), s[0]);
    }
  }

  lemma {:induction false} AsciiRolled(doc: Text, m: nat, i: nat)
    requires Ascii(doc) && m <= |doc|
    ensures Rolled(doc, m, i) >= 0
  {
    if i == 0 {
      AsciiHash(doc[..m]);
    } else {
      AsciiRolled(doc, m, i - 1);
      CharProduct(PowMod(m), At(doc, i - 1));
      NonnegativeProduct(At(doc, i - 1), PowMod(m));
    }
  }

  /** On ASCII the signs always agree. */
  lemma AsciiSignsAgree(p: Text, doc: Text, k: nat)
    requires Ascii(doc) && |p| <= |doc|
    ensures SignsAgree(p, doc, k)
  {
    forall i: nat | i < k && Occurs(p, doc, i)
      ensures SignsAgreeAt(p, doc, i)
    {
      AsciiHash(p);
      AsciiRolled(doc, |p|, i);
    }
  }

  /** No more is counted than occurs, and as much exactly when the signs agree. */
  lemma {:induction false} HitsAreOccurrences(p: Text, doc: Text, k: nat)
    requires p != [] && |p| <= |doc|
    ensures Hits(p, doc, k) <= Occurrences(p, doc, k)
    ensures Hits(p, doc, k) == Occurrences(p, doc, k) <==> SignsAgree(p, doc, k)
  {
    if k > 0 {
      HitExactly(p, doc, k - 1);
      HitsAreOccurrences(p, doc, k - 1);
      assert SignsAgree(p, doc, k) <==>
        SignsAgree(p, doc, k - 1) && (Occurs(p, doc, k - 1) ==> SignsAgreeAt(p, doc, k - 1));
    }
  }

  lemma {:induction false} NoHitsOfEmpty(p: Text, doc: Text, k: nat)
    requires p == []
    ensures Hits(p, doc, k) == 0
  {
    if k > 0 {
      NoHitsOfEmpty(p, doc, k - 1);
    }
  }

  /** The matcher counts the occurrences of a nonempty pattern below k exactly when at each of them
      the two hashes are of one sign; of the empty pattern it finds none. */
  lemma CountExact(p: Text, doc: Text, k: nat)
    requires |p| <= |doc|
    ensures p == [] ==> Hits(p, doc, k) == 0
    ensures p != [] ==> (Hits(p, doc, k) == Occurrences(p, doc, k) <==> SignsAgree(p, doc, k))
  {
    if p == [] {
      NoHitsOfEmpty(p, doc, k);
    } else {
      HitsAreOccurrences(p, doc, k);
    }
  }

  lemma {:induction false} NoOccurrences(p: Text, doc: Text, k: nat)
    ensures Occurrences(p, doc, k) == 0 <==> forall i: nat :: i < k ==> !Occurs(p, doc, i)
  {
    if k > 0 {
      NoOccurrences(p, doc, k - 1);
    }
  }

  /** When the signs agree, the position reported is the first occurrence, or -1 for none. */
  lemma FirstExact(p: Text, doc: Text, k: nat, first: int)
    requires |p| <= |doc| && SignsAgree(p, doc, k)
    ensures FirstHit(p, doc, k, first) <==> if p == [] then first == -1 else FirstOccurrence(p, doc, k, first)
  {
    var bound: nat := if first < 0 || k < first then k else first;
    if p == [] {
      NoHitsOfEmpty(p, doc, bound);
    } else {
      HitsAreOccurrences(p, doc, bound);
      NoOccurrences(p, doc, bound);
      if 0 <= first < k {
        HitExactly(p, doc, first);
      }
    }
  }

  /** No occurrence starts where too little of the text is left. */
  lemma {:induction false} OccurrencesEnd(p: Text, doc: Text, k: nat, more: nat)
    requires |doc| < k + |p|
    ensures Occurrences(p, doc, k + more) == Occurrences(p, doc, k)
  {
    if more > 0 {
      OccurrencesEnd(p, doc, k, more - 1);
    }
  }

  lemma FirstEnd(p: Text, doc: Text, k: nat, n: nat, first: int)
    requires |doc| < k + |p| && k <= n && FirstOccurrence(p, doc, k, first)
    ensures FirstOccurrence(p, doc, n, first)
  {
  }

  /** At every occurrence in the text the two hashes are of one sign. */
  ghost predicate AllSignsAgree(p: Text, doc: Text) {
    |p| <= |doc| ==> SignsAgree(p, doc, |doc| - |p| + 1)
  }

  lemma AllExact(p: Text, doc: Text, k: nat, count: nat)
    requires p != [] && |p| <= |doc| && k == |doc| - |p| + 1 && count == Hits(p, doc, k)
    ensures count == Occurrences(p, doc, |doc|) <==> AllSignsAgree(p, doc)
  {
    CountExact(p, doc, k);
    OccurrencesEnd(p, doc, k, |doc| - k);
  }

  lemma HitsExact(p: Text, doc: Text, count: nat)
    requires |p| <= |doc| && count == Hits(p, doc, |doc| - |p| + 1)
    ensures p != [] ==> (count == Occurrences(p, doc, |doc|) <==> AllSignsAgree(p, doc))
  {
    if p != [] {
      AllExact(p, doc, |doc| - |p| + 1, count);
    }
  }

  lemma FirstOfAll(p: Text, doc: Text, k: nat, first: int)
    requires p != [] && |p| <= |doc| && k == |doc| - |p| + 1 && SignsAgree(p, doc, k) && FirstHit(p, doc, k, first)
    ensures FirstOccurrence(p, doc, |doc|, first)
  {
    FirstExact(p, doc, k, first);
    FirstEnd(p, doc, k, |doc|, first);
  }

  /** The answer to a nonempty pattern is the number of its occurrences in the text exactly when the
      signs agree at each, and then the position is the least of them, or -1 for none. */
  lemma AnswerExact(p: Text, doc: Text, count: nat, first: int)
    requires p != [] && Matched(p, doc, count, first)
    ensures count == Occurrences(p, doc, |doc|) <==> AllSignsAgree(p, doc)
    ensures AllSignsAgree(p, doc) ==> FirstOccurrence(p, doc, |doc|, first)
  {
    if |p| > |doc| {
      OccurrencesEnd(p, doc, 0, |doc|);
      FirstEnd(p, doc, 0, |doc|, first);
    } else {
      HitsExact(p, doc, count);
      if AllSignsAgree(p, doc) {
        FirstOfAll(p, doc, |doc| - |p| + 1, first);
      }
    }
  }

  /** On ASCII the answer is the number of occurrences and the least of them; the empty pattern,
      which occurs everywhere, is not found. */
  lemma AsciiAnswer(p: Text, doc: Text, count: nat, first: int)
    requires Ascii(doc) && Matched(p, doc, count, first)
    ensures p != [] ==> count == Occurrences(p, doc, |doc|) && FirstOccurrence(p, doc, |doc|, first)
    ensures p == [] ==> count == 0 && first == -1
  {
    if p == [] {
      FirstExact(p, doc, |doc| + 1, first);
      CountExact(p, doc, |doc| + 1);
    } else {
      if |p| <= |doc| {
        AsciiSignsAgree(p, doc, |doc| - |p| + 1);
      }
      AnswerExact(p, doc, count, first);
    }
  }

  /** Where char is signed, a byte above 127 can hide an occurrence: the rolled hash of the
      second window is reduced to a positive number, the pattern's own hash is not. */
  lemma NegativeCharMissed(p: Text, doc: Text)
    requires p == [-128] && doc == [97, -128]
    ensures Occurrences(p, doc, 2) == 1 && Hits(p, doc, 2) == 0
  {
    assert doc[0..1] == [97] && doc[1..2] == [-128] && doc[..1] == [97];
    assert PowMod(1) == 256;
    assert HashOf(p) == -128 by { assert p[1..] == []; }
    assert HashOf([97]) == 97 by { assert [97][1..] == []; }
    assert Rolled(doc, 1, 0) == 97;
    assert Rolled(doc, 1, 1) == PRIME - 128;
    assert !Occurs(p, doc, 0) && Occurs(p, doc, 1);
    assert Occurrences(p, doc, 1) == 0 && Hits(p, doc, 1) == 0;
  }
}
