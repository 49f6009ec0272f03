/** The display helpers of the web client: a percentage rounded to two
    decimals, and a text shortened to a maximum length with an ellipsis.
    Numbers are exact reals here, not binary floating point. */
module Helpers {

  /** `Math.round`: the nearest integer, with halves rounded up. */
  function Round(x: real): (n: int)
    ensures n as real - 0.5 <= x < n as real + 0.5
  {
    (x + 0.5).Floor
  }

  /** Rounding keeps the order of its arguments. */
  lemma RoundMonotone(x: real, y: real)
    requires x <= y
    ensures Round(x) <= Round(y)
  {
  }

  /** `calculatePercentage(obtained, total)`: `obtained / total` as a
      percentage rounded to two decimals, and 0 when `total` is 0. */
  function CalculatePercentage(obtained: real, total: real): (p: real)
    ensures total == 0.0 ==> p == 0.0
  {
    if total == 0.0 then 0.0 else Round(obtained / total * 100.0 * 100.0) as real / 100.0
  }

  /** The rounded percentage is a whole number of hundredths of a percent,
      and it differs from the exact one by at most half a hundredth. */
  lemma PercentageError(obtained: real, total: real)
    requires total != 0.0
    ensures (CalculatePercentage(obtained, total) * 100.0).Floor as real
      == CalculatePercentage(obtained, total) * 100.0
    ensures var exact := obtained / total * 100.0;
      exact - 0.005 < CalculatePercentage(obtained, total) <= exact + 0.005
  {
    var exact := obtained / total * 100.0;
    var n := Round(exact * 100.0);
    var y := n as real;
    assert exact * 100.0 - 0.5 < y <= exact * 100.0 + 0.5;
    assert CalculatePercentage(obtained, total) == y / 100.0;
    assert y / 100.0 * 100.0 == y;
    assert (n as real).Floor == n;
  }

  /** Marks between none and full give a percentage between 0 and 100, and
      full marks give exactly 100. */
  lemma PercentageBounds(obtained: real, total: real)
    requires total > 0.0 && 0.0 <= obtained <= total
    ensures 0.0 <= CalculatePercentage(obtained, total) <= 100.0
    ensures obtained == total ==> CalculatePercentage(obtained, total) == 100.0
  {
    var x := obtained / total * 100.0 * 100.0;
    assert 0.0 <= obtained / total <= 1.0 by {
      assert obtained / total * total == obtained;
    }
    assert 0.0 <= x <= 10000.0;
    RoundMonotone(0.0, x);
    RoundMonotone(x, 10000.0);
    if obtained == total {
      assert obtained / total == 1.0;
    }
  }

  /** More marks over the same total never give a lower percentage. */
  lemma PercentageMonotone(a: real, b: real, total: real)
    requires total > 0.0 && a <= b
    ensures CalculatePercentage(a, total) <= CalculatePercentage(b, total)
  {
    assert a / total <= b / total by {
      assert b / total - a / total == (b - a) / total;
    }
    RoundMonotone(a / total * 100.0 * 100.0, b / total * 100.0 * 100.0);
  }

  /** `truncate(text, maxLength)`: the text itself when it fits, else its
      first `maxLength` characters followed by "...". `substring` reads a
      negative end as 0. */
  function Truncate(text: string, maxLength: int): (r: string)
    ensures |text| <= maxLength ==> r == text
    ensures |text| > maxLength ==> var keep := if maxLength < 0 then 0 else maxLength;
      |r| == keep + 3 && r[..keep] == text[..keep] && r[keep..] == "..."
  {
    if |text| <= maxLength then text
    else
      var keep := if maxLength < 0 then 0 else maxLength;
      text[..keep] + "..."
  }

  /** Truncating a truncated text changes nothing. */
  lemma TruncateIdempotent(text: string, maxLength: int)
    ensures Truncate(Truncate(text, maxLength), maxLength) == Truncate(text, maxLength)
  {
    var r := Truncate(text, maxLength);
    if |text| > maxLength {
      var keep := if maxLength < 0 then 0 else maxLength;
      assert r == r[..keep] + r[keep..];
    }
  }

  /** A truncated text never exceeds `maxLength + 3` characters, so it is
      shorter than any original longer than that. */
  lemma TruncateLength(text: string, maxLength: int)
    requires maxLength >= 0
    ensures |Truncate(text, maxLength)| <= maxLength + 3
    ensures |text| > maxLength + 3 ==> |Truncate(text, maxLength)| < |text|
  {
  }
}
