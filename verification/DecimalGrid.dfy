/**
  Decimal values with two places are held as whole hundredths, so
  Decimal("0.85") is 85. Quantising to Decimal("0.01") with ROUND_HALF_UP is
  rounding a count of hundredths to the nearest integer, ties away from zero.
*/
module DecimalGrid {
  function RoundHalfUp(x: real): int {
    if x >= 0.0 then (x + 0.5).Floor else -(0.5 - x).Floor
  }

  /** quantize(Decimal("0.01"), ROUND_HALF_UP) of a decimal, in hundredths. */
  function Quantize(x: real): int {
    RoundHalfUp(x * 100.0)
  }

  /** (score * mark) quantised, all three in hundredths. */
  function Product(score: int, mark: int): int {
    RoundHalfUp((score * mark) as real / 100.0)
  }

  /** max(Decimal("0.00"), min(Decimal("1.00"), s)) on the grid. */
  function ClampGrid(s: int): int {
    if s > 100 then 100 else if s < 0 then 0 else s
  }

  function ClampUnit(x: real): real {
    if x > 1.0 then 1.0 else if x < 0.0 then 0.0 else x
  }

  /** ROUND_HALF_UP picks the one nearest integer, and of two the one away from zero. */
  lemma RoundHalfUpMeaning(x: real, n: int)
    ensures RoundHalfUp(x) == n <==>
            if x >= 0.0 then n as real - 0.5 <= x < n as real + 0.5
            else n as real - 0.5 < x <= n as real + 0.5
  {
    if x >= 0.0 {
      var f := (x + 0.5).Floor;
      assert f as real <= x + 0.5 < f as real + 1.0;
    } else {
      var f := (0.5 - x).Floor;
      assert f as real <= 0.5 - x < f as real + 1.0;
    }
  }

  lemma RoundHalfUpMonotone(x: real, y: real)
    requires x <= y
    ensures RoundHalfUp(x) <= RoundHalfUp(y)
  {
    RoundHalfUpMeaning(x, RoundHalfUp(x));
    RoundHalfUpMeaning(y, RoundHalfUp(y));
  }

  lemma RoundHalfUpExact(n: int)
    ensures RoundHalfUp(n as real) == n
  {
    RoundHalfUpMeaning(n as real, n);
  }

  /** Rounding then clamping a score is clamping then rounding it. */
  lemma RoundClampCommute(x: real)
    ensures ClampGrid(Quantize(x)) == Quantize(ClampUnit(x))
  {
    RoundHalfUpExact(0);
    RoundHalfUpExact(100);
    if x > 1.0 {
      RoundHalfUpMonotone(100.0, x * 100.0);
    } else if x < 0.0 {
      RoundHalfUpMonotone(x * 100.0, 0.0);
    } else {
      RoundHalfUpMonotone(0.0, x * 100.0);
      RoundHalfUpMonotone(x * 100.0, 100.0);
    }
  }

  /** A question score is score times mark rounded half up to hundredths, and no other number. */
  lemma ProductMeaning(score: int, mark: int, n: int)
    ensures Product(score, mark) == n <==>
            if score * mark >= 0 then 100 * n - 50 <= score * mark < 100 * n + 50
            else 100 * n - 50 < score * mark <= 100 * n + 50
  {
    var x := (score * mark) as real / 100.0;
    RoundHalfUpMeaning(x, n);
    assert x * 100.0 == (score * mark) as real;
  }

  /** A question score is within half a hundredth of score times mark. */
  lemma ProductError(score: int, mark: int)
    ensures -50 <= 100 * Product(score, mark) - score * mark <= 50
  {
    var x := (score * mark) as real / 100.0;
    RoundHalfUpMeaning(x, Product(score, mark));
    assert x * 100.0 == (score * mark) as real;
  }

  /** Full and zero scores lose nothing to rounding. */
  lemma ProductExact(score: int, mark: int)
    requires score == 0 || score == 100
    ensures Product(score, mark) == if score == 0 then 0 else mark
  {
    if score == 100 {
      assert (score * mark) as real / 100.0 == mark as real;
      RoundHalfUpExact(mark);
    } else {
      assert score * mark == 0;
      RoundHalfUpExact(0);
    }
  }

  lemma ProductMonotone(s: int, t: int, mark: int)
    requires s <= t && mark >= 0
    ensures Product(s, mark) <= Product(t, mark)
  {
    assert s * mark <= t * mark by {
      assert (t - s) * mark >= 0;
    }
    RoundHalfUpMonotone((s * mark) as real / 100.0, (t * mark) as real / 100.0);
  }

  /** A score between 0 and 1 earns between nothing and the whole mark. */
  lemma ProductBounds(score: int, mark: int)
    requires 0 <= score <= 100 && mark >= 0
    ensures 0 <= Product(score, mark) <= mark
  {
    ProductMonotone(0, score, mark);
    ProductMonotone(score, 100, mark);
    ProductExact(0, mark);
    ProductExact(100, mark);
  }
}
