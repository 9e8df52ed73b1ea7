/** JavaScript Numbers are IEEE 754 doubles (section 6.1.6.1 of ECMA-262): a
    64-bit rowid handed to JavaScript is rounded to the nearest double, and a
    Number inside a template literal is written by Number::toString (section
    6.1.6.1.20), with the fewest significant digits that read back as it. */
module JsNumber {

  /** 2^53: every integer up to here is exactly a double. */
  const ExactLimit: int := 0x20_0000_0000_0000

  /** The gap between consecutive doubles around `n`: 1 below 2^53, and twice
      as wide in each following binade. */
  function Spacing(n: nat): (u: nat)
    ensures u >= 1
    ensures n < ExactLimit <==> u == 1
  {
    if n < ExactLimit then 1 else 2 * Spacing(n / 2)
  }

  /** Division by `u` has exactly one quotient and remainder. */
  lemma DivModUnique(n: int, u: int, q: int, r: int)
    requires u >= 1 && 0 <= r < u && n == q * u + r
    ensures n / u == q && n % u == r
  {
    var q', r' := n / u, n % u;
    assert n == q' * u + r';
    MultiplyLarger(q', q, u);
    MultiplyLarger(q, q', u);
  }

  /** A larger factor times a positive `u` is at least `u` more. */
  lemma MultiplyLarger(a: int, b: int, u: int)
    ensures a > b && u >= 1 ==> a * u >= b * u + u
  {
    if a > b && u >= 1 {
      var d := a - b;
      assert a * u == b * u + d * u;
      assert d * u == (d - 1) * u + u;
    }
  }

  /** A multiple of `a * b` is a multiple of `a`. */
  lemma MultipleOfFactor(c: nat, a: nat, b: nat)
    requires a >= 1 && b >= 1 && c % (a * b) == 0
    ensures c % a == 0
  {
    var k := c / (a * b);
    assert c == (k * b) * a;
    DivModUnique(c, a, k * b, 0);
  }

  /** `n` rounded to the nearest multiple of `u`, a tie going to the even
      multiple. */
  function RoundToMultiple(n: nat, u: nat): (v: nat)
    requires u >= 1
    ensures v % u == 0
    ensures 2 * (if v >= n then v - n else n - v) <= u
    ensures 2 * (if v >= n then v - n else n - v) == u ==> (v / u) % 2 == 0
  {
    var q, r := n / u, n % u;
    assert n == q * u + r;
    assert (q + 1) * u == q * u + u;
    DivModUnique(q * u, u, q, 0);
    DivModUnique((q + 1) * u, u, q + 1, 0);
    if 2 * r < u || (2 * r == u && q % 2 == 0) then q * u else (q + 1) * u
  }

  /** The Number an integer becomes: the nearest double, ties going to the
      even significand. The result is a double: a multiple of the spacing. */
  function ToNumber(n: nat): (v: nat)
    ensures v % Spacing(n) == 0
    ensures 2 * (if v >= n then v - n else n - v) <= Spacing(n)
    ensures 2 * (if v >= n then v - n else n - v) == Spacing(n) ==> (v / Spacing(n)) % 2 == 0
  {
    RoundToMultiple(n, Spacing(n))
  }

  /** A multiple of `u` is its own nearest multiple. */
  lemma RoundMultiple(v: nat, u: nat)
    requires u >= 1 && v % u == 0
    ensures RoundToMultiple(v, u) == v
  {
    DivModUnique(v, u, v / u, 0);
  }

  /** Integers up to 2^53 are converted exactly. */
  lemma ToNumberExact(n: nat)
    requires n <= ExactLimit
    ensures ToNumber(n) == n
  {
    if n == ExactLimit {
      assert Spacing(n) == 2 by {
        assert Spacing(n / 2) == 1;
      }
    }
  }

  /** The first integer that is not: 2^53 + 1 becomes 2^53. */
  lemma ToNumberPastExactLimit()
    ensures ToNumber(ExactLimit + 1) == ExactLimit
  {
    assert Spacing(ExactLimit + 1) == 2 by {
      assert Spacing((ExactLimit + 1) / 2) == 1;
    }
  }

  /** Past 2^53 the spacing is at most a 2^52nd part of the number. */
  lemma {:induction false} SpacingBound(n: nat)
    requires n >= ExactLimit
    ensures Spacing(n) * 0x10_0000_0000_0000 <= n
  {
    if n / 2 < ExactLimit {
      assert Spacing(n / 2) == 1;
    } else {
      SpacingBound(n / 2);
    }
  }

  /** 2^k. */
  function Pow2(k: nat): (p: nat)
    ensures p >= 1
  {
    if k == 0 then 1 else 2 * Pow2(k - 1)
  }

  /** Every integer from 2^53 on lies in a binade [2^(53+j), 2^(54+j)). */
  lemma {:induction false} Binade(n: nat) returns (j: nat)
    requires n >= ExactLimit
    ensures ExactLimit * Pow2(j) <= n < ExactLimit * Pow2(j + 1)
  {
    if n < 2 * ExactLimit {
      j := 0;
    } else {
      var i := Binade(n / 2);
      j := i + 1;
    }
  }

  /** Within the binade [2^(53+j), 2^(54+j)) consecutive doubles are 2^(j+1)
      apart, as a 53-bit significand gives (section 6.1.6.1 of ECMA-262). */
  lemma {:induction false} SpacingIsUlp(n: nat, j: nat)
    requires ExactLimit * Pow2(j) <= n < ExactLimit * Pow2(j + 1)
    ensures Spacing(n) == Pow2(j + 1)
  {
    if j == 0 {
      assert Spacing(n / 2) == 1;
    } else {
      SpacingIsUlp(n / 2, j - 1);
    }
  }

  /** Only 2^53 + 1, besides the integer itself, becomes an integer up to 2^53. */
  lemma ConvertsToExact(c: nat, x: nat)
    requires x <= ExactLimit && ToNumber(c) == x
    ensures c == x || (x == ExactLimit && c == ExactLimit + 1)
  {
    if c <= ExactLimit {
      ToNumberExact(c);
    } else if c < 2 * ExactLimit {
      assert Spacing(c) == 2 by {
        assert Spacing(c / 2) == 1;
      }
    } else {
      SpacingBound(c);
    }
  }

  /** A multiple of `u` within `u / 2` of a point between the multiples
      `a * u` and `b * u` lies between them too. */
  lemma NearMultipleBetween(n: nat, v: nat, u: nat, a: nat, b: nat)
    requires u >= 1 && v % u == 0 && a * u <= n <= b * u
    requires 2 * (if v >= n then v - n else n - v) <= u
    ensures a * u <= v <= b * u
  {
    var q := v / u;
    assert v == q * u;
    MultiplyLarger(a, q, u);
    MultiplyLarger(q, b, u);
  }

  /** A Number converts to itself: converting twice is converting once. */
  lemma ToNumberIdempotent(n: nat)
    ensures ToNumber(ToNumber(n)) == ToNumber(n)
  {
    var v := ToNumber(n);
    if n >= ExactLimit {
      var j := Binade(n);
      SpacingIsUlp(n, j);
      var u := Spacing(n);
      var m := ExactLimit / 2;
      assert ExactLimit * Pow2(j) == m * u && ExactLimit * Pow2(j + 1) == 2 * m * u;
      // v lies in the binade of n, or is the power of two that ends it.
      NearMultipleBetween(n, v, u, m, 2 * m);
      if v == ExactLimit * Pow2(j + 1) {
        SpacingIsUlp(v, j + 1);
        DivModUnique(v, 2 * u, m, 0);
        RoundMultiple(v, 2 * u);
      } else {
        SpacingIsUlp(v, j);
        RoundMultiple(v, u);
      }
    }
  }

  /** The integer written for a Number converts back to that Number, for the
      Number of any id. */
  lemma PrintedReadsBack(id: nat)
    ensures ToNumber(PrintedInteger(ToNumber(id))) == ToNumber(id)
  {
    ToNumberIdempotent(id);
  }

  function Pow10(z: nat): (p: nat)
    ensures p >= 1
  {
    if z == 0 then 1 else 10 * Pow10(z - 1)
  }

  /** Number::toString writes an integer Number below 10^21 as digits followed
      by zeros, so at most 20 trailing zeros. */
  const MaxExponent: nat := 20

  /** The multiple of 10^e nearest to `x` converts back to `x`. */
  predicate ReadsBackAt(x: nat, e: nat) {
    ToNumber(RoundToMultiple(x, Pow10(e))) == x
  }

  /** The most trailing zeros, up to `z`, that Number::toString can write for
      `x`: the largest `e` whose nearest multiple of 10^e converts back to `x`,
      or 0 when there is none. */
  function PrintedExponent(x: nat, z: nat): (e: nat)
    ensures e <= z
    ensures e == 0 || ReadsBackAt(x, e)
    ensures forall j :: e < j <= z ==> !ReadsBackAt(x, j)
  {
    if z == 0 then 0
    else if ReadsBackAt(x, z) then z
    else PrintedExponent(x, z - 1)
  }

  /** The integer whose decimal digits Number::toString writes for the Number
      `x`: the nearest multiple of the largest power of ten that still reads
      back as `x`. */
  function PrintedInteger(x: nat): (c: nat)
    ensures ToNumber(x) == x ==> ToNumber(c) == x
    ensures c % Pow10(PrintedExponent(x, MaxExponent)) == 0
  {
    var e := PrintedExponent(x, MaxExponent);
    RoundToMultiple(x, Pow10(e))
  }

  /** A Number up to 2^53 is written with its own digits. */
  lemma PrintedExact(x: nat)
    requires x <= ExactLimit
    ensures PrintedInteger(x) == x
  {
    var e := PrintedExponent(x, MaxExponent);
    var c := PrintedInteger(x);
    if e > 0 && c != x {
      ConvertsToExact(c, x);
      assert Pow10(e) == 10 * Pow10(e - 1);
      MultipleOfFactor(c, 10, Pow10(e - 1));
      DivModUnique(ExactLimit + 1, 10, 900719925474099, 3);
      assert false;
    }
  }

  /** Between 2^54 and 2^55 the doubles are 4 apart. */
  lemma SpacingPastTwiceExactLimit(c: nat)
    requires 2 * ExactLimit <= c < 4 * ExactLimit
    ensures Spacing(c) == 4
  {
    assert Spacing(c / 4) == 1;
    assert Spacing(c / 2) == 2;
  }

  /** 2^54 + 8 is exactly a double. */
  lemma TwiceExactLimitIsANumber()
    ensures ToNumber(2 * ExactLimit + 8) == 2 * ExactLimit + 8
  {
    SpacingPastTwiceExactLimit(2 * ExactLimit + 8);
    DivModUnique(2 * ExactLimit + 8, 4, 4503599627370498, 0);
  }

  /** Its nearest multiple of ten, 18014398509481990, converts back to it. */
  lemma TwiceExactLimitReadsBackAtTen()
    ensures RoundToMultiple(2 * ExactLimit + 8, Pow10(1)) == 18014398509481990
    ensures ReadsBackAt(2 * ExactLimit + 8, 1)
  {
    var c := 18014398509481990;
    DivModUnique(2 * ExactLimit + 8, 10, 1801439850948199, 2);
    SpacingPastTwiceExactLimit(c);
    DivModUnique(c, 4, 4503599627370497, 2);
  }

  /** A multiple of 10^e, for e >= 2, is a multiple of 100. */
  lemma MultipleOfHundred(m: nat, e: nat)
    requires e >= 2 && m % Pow10(e) == 0
    ensures m % 100 == 0
  {
    assert Pow10(e) == 100 * Pow10(e - 2);
    MultipleOfFactor(m, 100, Pow10(e - 2));
  }

  /** 2^54 + 8 is exactly a double, but Number::toString writes it as
      18014398509481990, which is 2^54 + 6 and reads back as 2^54 + 8. */
  lemma PrintedPastTwiceExactLimit()
    ensures ToNumber(2 * ExactLimit + 8) == 2 * ExactLimit + 8
    ensures PrintedInteger(2 * ExactLimit + 8) == 18014398509481990
  {
    TwiceExactLimitIsANumber();
    PrintedTwiceExactLimit(2 * ExactLimit + 8);
  }

  /** The printing half, for `x` given by name so that the solver does not
      evaluate `PrintedExponent` on the literal. */
  lemma PrintedTwiceExactLimit(x: nat)
    requires x == 2 * ExactLimit + 8
    ensures PrintedInteger(x) == 18014398509481990
  {
    TwiceExactLimitReadsBackAtTen();
    var e := PrintedExponent(x, MaxExponent);
    if e >= 2 {
      var m := RoundToMultiple(x, Pow10(e));
      MultipleOfHundred(m, e);
      NearTwiceExactLimit(m);
      NoHundredNearTwiceExactLimit(m);
      assert false;
    }
    assert e == 1;
    assert PrintedInteger(x) == RoundToMultiple(x, Pow10(e));
  }

  /** No multiple of 100 lies within 2 of 2^54 + 8. */
  lemma NoHundredNearTwiceExactLimit(m: int)
    requires 2 * ExactLimit + 6 <= m <= 2 * ExactLimit + 10
    ensures m % 100 != 0
  {
    DivModUnique(m, 100, 180143985094819, m - 18014398509481900);
  }

  /** Only integers within 2 of 2^54 + 8 become it. */
  lemma NearTwiceExactLimit(c: nat)
    requires ToNumber(c) == 2 * ExactLimit + 8
    ensures 2 * ExactLimit + 6 <= c <= 2 * ExactLimit + 10
  {
    if c <= ExactLimit {
      ToNumberExact(c);
    } else if 2 * ExactLimit <= c < 4 * ExactLimit {
      SpacingPastTwiceExactLimit(c);
    } else if c >= 4 * ExactLimit {
      SpacingBound(c);
    }
  }
}
