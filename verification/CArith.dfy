/** C's remainder, and numbers modulo m by explicit quotients. */
module CArith {
  const INT_MAX := 0x7fff_ffff

  /** The remainder of C: it takes the sign of a. */
  function Rem(a: int, b: int): (r: int)
    requires b > 0
    ensures -b < r < b && (a >= 0 ==> r == a % b) && (a <= 0 ==> r <= 0)
  {
    if a >= 0 then a % b else -(-a % b)
  }

  /** a and b differ by q times m. */
  predicate Differ(a: int, b: int, q: int, m: int) { a == b + q * m }

  predicate Congruent(a: int, b: int, m: int)
    requires m > 0
  {
    a % m == b % m
  }

  lemma SmallMultiple(m: int, k: int)
    requires -m < m * k < m
    ensures k == 0
  {
  }

  lemma ByQuotient(a: int, b: int, q: int, m: int)
    requires m > 0 && Differ(a, b, q, m)
    ensures Congruent(a, b, m)
  {
    var d := a / m - q - b / m;
    assert m * d == m * (a / m) - q * m - m * (b / m) == b % m - a % m;
    SmallMultiple(m, d);
  }

  lemma QuotientOf(a: int, b: int, m: int) returns (q: int)
    requires m > 0 && Congruent(a, b, m)
    ensures Differ(a, b, q, m)
  {
    q := a / m - b / m;
    assert q * m == m * (a / m) - m * (b / m);
  }

  lemma RemQuotient(a: int, m: int) returns (q: int)
    requires m > 0
    ensures Differ(a, Rem(a, m), q, m)
  {
    q := if a >= 0 then a / m else -(-a / m);
  }

  lemma RemZero(a: int, m: int)
    requires m > 0
    ensures Rem(a, m) == 0 <==> Congruent(a, 0, m)
  {
    var t := RemQuotient(a, m);
    if Rem(a, m) == 0 {
      ByQuotient(a, 0, t, m);
    }
    if Congruent(a, 0, m) {
      var q := QuotientOf(a, 0, m);
      assert Rem(a, m) == m * (q - t);
      SmallMultiple(m, q - t);
    }
  }

  lemma ScaledQuotient(a: int, b: int, q: int, m: int, c: int)
    requires Differ(a, b, q, m)
    ensures Differ(a * c, b * c, q * c, m)
  {
    assert a * c == (b + q * m) * c == b * c + q * m * c == b * c + q * c * m;
  }

  /** Numbers of the same residue, both less than m in size, are equal just when their signs agree. */
  lemma SameSign(a: int, b: int, m: int)
    requires m > 0 && -m < a < m && -m < b < m && Congruent(a, b, m)
    ensures a == b <==> (a < 0 <==> b < 0)
  {
    var q := QuotientOf(a, b, m);
    if a < 0 <==> b < 0 {
      SmallMultiple(m, q);
    }
  }
}

/** C strings where char is signed. */
module CText {
  /** A char, and not the terminator. */
  type Char = c: int | -128 <= c <= 127 && c != 0 witness 1

  type Text = seq<Char>

  predicate Ascii(s: Text) { forall i :: 0 <= i < |s| ==> s[i] > 0 }
}
