/** Which Content-Security-Policy header the nonce edge function writes. Without a
    rollout distribution it always writes the enforcing header; with one, a random
    draw above the distribution's threshold moves the response to the report-only
    header. `parseFloat` and `Math.random` are replaced by their results: a real
    value read from the distribution setting, and a draw in [0, 1). */
module HeaderSelection {
  import opened Wrappers

  /** The two headers the policy can be written to. */
  datatype CspHeader = Enforcing | ReportOnly {
    function Name(): string {
      match this
      case Enforcing => "content-security-policy"
      case ReportOnly => "content-security-policy-report-only"
    }
  }

  /** A rollout distribution setting: the number `parseFloat` reads from it, and
      whether the setting ends with `%`. An unset or empty setting is `None` where
      a distribution is optional. */
  datatype Distribution = Distribution(value: real, percent: bool)

  /** What the handler does with the response: write the policy to a header, or
      return the response as it came. */
  datatype Selection = Apply(header: CspHeader) | Unmodified

  /** The larger of two reals (`Math.max`). */
  function Max(a: real, b: real): real {
    if a >= b then a else b
  }

  /** The share of responses that keep the enforcing header. A setting ending in
      `%`, or above 1, is a percentage; anything else is a fraction. Negative
      settings count as 0. */
  function Threshold(d: Distribution): (t: real)
    ensures t >= 0.0
    ensures t == 0.0 <==> d.value <= 0.0
    ensures t <= 1.0 <==> d.value <= 100.0
  {
    if d.percent || d.value > 1.0 then Max(d.value / 100.0, 0.0) else Max(d.value, 0.0)
  }

  /** A percentage and the same share written as a fraction give the same
      threshold: `"50%"`, `"50"` and `"0.5"` all keep half the responses enforcing,
      and above 1 the `%` sign changes nothing. */
  lemma ThresholdScales(v: real)
    ensures v >= 0.0 ==> Threshold(Distribution(v, true)) == v / 100.0
    ensures 0.0 <= v <= 1.0 ==> Threshold(Distribution(v, false)) == v
    ensures v > 1.0 ==> Threshold(Distribution(v, false)) == Threshold(Distribution(v, true)) == v / 100.0
  {
  }

  /** The step taken when the draw falls above the threshold: the enforcing header
      becomes the report-only one; a report-only header would leave the response
      unmodified. */
  function Degrade(header: CspHeader): (s: Selection)
    ensures s.Unmodified? <==> header == ReportOnly
    ensures s.Apply? ==> s.header != header
  {
    match header
    case Enforcing => Apply(ReportOnly)
    case ReportOnly => Unmodified
  }

  /** The header selection of the handler for an optional distribution and a draw
      of `Math.random`. */
  function Select(dist: Option<Distribution>, random: real): (s: Selection)
    requires 0.0 <= random < 1.0
    ensures s.Apply?
  {
    var header := Enforcing;
    match dist
    case None => Apply(header)
    case Some(d) =>
      var threshold := Threshold(d);
      if random > threshold && threshold <= 1.0 then Degrade(header) else Apply(header)
  }

  /** The `threshold <= 1` test never decides anything: a draw below 1 that is above
      the threshold already puts the threshold below 1. */
  lemma ThresholdTestRedundant(d: Distribution, random: real)
    requires 0.0 <= random < 1.0
    ensures (random > Threshold(d) && Threshold(d) <= 1.0) <==> random > Threshold(d)
  {
  }

  /** The report-only header is chosen exactly when a distribution is set and the
      draw falls above its threshold; otherwise the enforcing header is. */
  lemma SelectReportOnly(dist: Option<Distribution>, random: real)
    requires 0.0 <= random < 1.0
    ensures Select(dist, random) == Apply(ReportOnly) <==> dist.Some? && random > Threshold(dist.value)
    ensures Select(dist, random) == Apply(Enforcing) <==> dist.None? || random <= Threshold(dist.value)
  {
    ThresholdTestRedundant(if dist.Some? then dist.value else Distribution(0.0, false), random);
  }

  /** Without a distribution every response keeps the enforcing header. */
  lemma UnsetEnforces(random: real)
    requires 0.0 <= random < 1.0
    ensures Select(None, random) == Apply(Enforcing)
  {
  }

  /** A distribution of 100% or more, or of 1 written as a fraction, keeps every
      response enforcing. */
  lemma FullDistributionEnforces(d: Distribution, random: real)
    requires 0.0 <= random < 1.0
    requires Threshold(d) >= 1.0
    ensures Select(Some(d), random) == Apply(Enforcing)
  {
  }

  /** A distribution of 0 (or below) moves every response to report-only, except
      on a draw of exactly 0. */
  lemma ZeroDistribution(d: Distribution, random: real)
    requires 0.0 <= random < 1.0
    requires d.value <= 0.0
    ensures Select(Some(d), random) == Apply(ReportOnly) <==> random > 0.0
  {
    SelectReportOnly(Some(d), random);
  }

  /** Raising the distribution never moves a draw from the enforcing header to the
      report-only one. */
  lemma SelectMonotone(d1: Distribution, d2: Distribution, random: real)
    requires 0.0 <= random < 1.0
    requires Threshold(d1) <= Threshold(d2)
    ensures Select(Some(d1), random) == Apply(Enforcing) ==> Select(Some(d2), random) == Apply(Enforcing)
  {
    SelectReportOnly(Some(d1), random);
    SelectReportOnly(Some(d2), random);
  }
}
