/**
 * The window decision rule and the coercion of numeric settings shared by the
 * live trailing window (src/App.js) and the fixed-bucket aggregator
 * (src/components/PPEChart.js).
 */
module Policy {

  /** A numeric setting as `Number(...)` yields it: a finite number or NaN. */
  datatype NumInput = Finite(value: real) | NotANumber

  /** The detection method selector. Every value other than "any" takes the percentage branch. */
  datatype Method = Any | Percentage

  /** JavaScript's `Number(x) || d`: zero and NaN are falsy and give the default. */
  function NumberOr(x: NumInput, d: real): real
  {
    match x
    case Finite(v) => if v != 0.0 then v else d
    case NotANumber => d
  }

  function Max(a: real, b: real): real
  {
    if a >= b then a else b
  }

  /** Effective window size in seconds, `Math.max(0.5, Number(ws) || 3)`. */
  function WindowSize(x: NumInput): (r: real)
    ensures r >= 0.5
    ensures x.Finite? && x.value >= 0.5 ==> r == x.value
    ensures x.Finite? && x.value < 0.5 && x.value != 0.0 ==> r == 0.5
    ensures (x.NotANumber? || x == Finite(0.0)) ==> r == 3.0
  {
    Max(0.5, NumberOr(x, 3.0))
  }

  /** Effective percentage threshold, `Number(threshold) || 0`. */
  function Threshold(x: NumInput): real
  {
    NumberOr(x, 0.0)
  }

  /** `(positives / total) * 100`, exact. */
  function Percent(positives: nat, total: nat): real
    requires total > 0
  {
    (positives as real / total as real) * 100.0
  }

  /** `percent >= threshold`: a percentage equal to the threshold satisfies it. */
  predicate PercentMeets(positives: nat, total: nat, threshold: real)
    requires total > 0
  {
    Percent(positives, total) >= threshold
  }

  /** The percentage test is the division-free comparison `positives * 100 >= threshold * total`. */
  lemma PercentMeetsCrossMultiplied(positives: nat, total: nat, threshold: real)
    requires total > 0
    ensures PercentMeets(positives, total, threshold)
            <==> positives as real * 100.0 >= threshold * total as real
  {
    var n := total as real;
    var q := positives as real / n;
    assert q * n == positives as real;
    assert Percent(positives, total) * n == positives as real * 100.0;
    if Percent(positives, total) >= threshold {
      assert Percent(positives, total) * n >= threshold * n;
    } else {
      assert Percent(positives, total) * n < threshold * n;
    }
  }

  /** A percentage of at most `total` positives lies in [0, 100]. */
  lemma PercentBounds(positives: nat, total: nat)
    requires 0 < total && positives <= total
    ensures 0.0 <= Percent(positives, total) <= 100.0
  {
    var n := total as real;
    assert positives as real / n <= 1.0 by {
      assert (positives as real / n) * n == positives as real;
    }
  }

  /** A threshold that is NaN or zero defaults to 0, which every window meets. */
  lemma DefaultThresholdAlwaysMet(positives: nat, total: nat, x: NumInput)
    requires total > 0
    requires x.NotANumber? || x == Finite(0.0)
    ensures PercentMeets(positives, total, Threshold(x))
  {
    PercentMeetsCrossMultiplied(positives, total, Threshold(x));
  }
}
