/** `PercentRing`'s percentage: the ring shows `value` rounded to a whole
    number and clamped to [0, 100]. `AlignmentView` hands it a coverage
    that it has already clamped the same way. The ring's SVG geometry is
    drawing only. */
module PercentRing {
  import opened JsMath

  /** `Math.max(0, Math.min(100, Math.round(value)))`. */
  function Percent(value: real): (p: int)
    ensures 0 <= p <= 100
    ensures 0 < p < 100 ==> p as real - 0.5 <= value < p as real + 0.5
    ensures p == 100 <==> value >= 99.5
    ensures p == 0 <==> value < 0.5
  {
    Max(0, Min(100, Round(value)))
  }

  /** A value at or beyond either end shows that end. */
  lemma PercentEnds(value: real)
    ensures value >= 100.0 ==> Percent(value) == 100
    ensures value <= 0.0 ==> Percent(value) == 0
  {
  }

  /** A whole number already on the scale is shown as it is. */
  lemma PercentFixesWhole(n: int)
    requires 0 <= n <= 100
    ensures Percent(n as real) == n
  {
    RoundWhole(n);
  }

  /** A larger value never shows a smaller percentage. */
  lemma PercentMonotone(a: real, b: real)
    requires a <= b
    ensures Percent(a) <= Percent(b)
  {
    RoundMonotone(a, b);
  }

  /** Clamping twice is clamping once. */
  lemma PercentIdempotent(value: real)
    ensures Percent(Percent(value) as real) == Percent(value)
  {
    PercentFixesWhole(Percent(value));
  }

  /** `AlignmentView` passes `Math.max(0, Math.min(100, Math.round(coverage)))`
      as the ring's value. */
  function AlignmentRingValue(coverage: real): (v: real)
    ensures 0.0 <= v <= 100.0
  {
    Percent(coverage) as real
  }

  /** The pre-clamp in `AlignmentView` does not change what the ring shows. */
  lemma AlignmentRingShows(coverage: real)
    ensures Percent(AlignmentRingValue(coverage)) == Percent(coverage)
  {
    PercentIdempotent(coverage);
  }
}
