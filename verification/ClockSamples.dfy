/** What samples do to the disciplined clock: the frequency filter over runs of samples, and how far an
    accepted or a refused sample moves served time (main/clock_discipline.c). */
module ClockSamples {
  import opened Arith
  import opened ClockDiscipline
  import opened Esp

  // ---------------------------------------------------------------- the filter

  function Power(x: real, n: nat): real {
    if n == 0 then 1.0 else x * Power(x, n - 1)
  }

  lemma PowerStep(x: real, n: nat)
    ensures Power(x, n) == if n == 0 then 1.0 else x * Power(x, n - 1)
  {}

  lemma ScaledOrder(x: real, y: real, k: real)
    requires x <= y && k >= 0.0
    ensures x * k <= y * k
  {
    assert (y - x) * k >= 0.0;
  }

  lemma LlRoundIsNearest(x: real)
    ensures -0.5 <= LlRound(x) as real - x <= 0.5
  {}

  /** The average of two values within the limit is within it, so nothing is clamped. */
  lemma FilterStep(f: real, target: real)
    requires AbsReal(f) <= MAX_FREQUENCY && AbsReal(target) <= MAX_FREQUENCY
    ensures AbsReal(Filtered(f, target)) <= MAX_FREQUENCY
    ensures Filtered(f, target) - target == (1.0 - GAIN) * (f - target)
  {}

  lemma Associate(x: real, y: real, z: real)
    ensures x * (y * z) == (x * y) * z
  {}

  /** The target has the right sign and scale: applied to the very interval it was measured on, it gives
      that interval's UTC length back up to the square of the rate error. */
  lemma TargetCorrects(localUs: nat, utcSeconds: int)
    requires utcSeconds > 0
    ensures var t := TargetFrequency(localUs, utcSeconds) / 1_000_000.0;
      Corrected(localUs, TargetFrequency(localUs, utcSeconds)) == utcSeconds as real * (1.0 - t * t)
  {
    var u := utcSeconds as real;
    var l := localUs as real / 1_000_000.0;
    var ratio := l / u;
    assert l == ratio * u;
    RatioOfScaled(l, u);
    var t := TargetFrequency(localUs, utcSeconds) / 1_000_000.0;
    assert t == 1.0 - ratio;
    assert Corrected(localUs, TargetFrequency(localUs, utcSeconds)) == l * (1.0 + t);
    assert (ratio * u) * (2.0 - ratio) == u * (1.0 - (1.0 - ratio) * (1.0 - ratio)) by { SquareGap(ratio, u); }
  }

  lemma RatioOfScaled(l: real, u: real)
    requires u > 0.0
    ensures (l * 1_000_000.0 - u * 1_000_000.0) / (u * 1_000_000.0) == l / u - 1.0
  {
    var q := l / u;
    var a, b := l * 1_000_000.0 - u * 1_000_000.0, u * 1_000_000.0;
    assert l == q * u;
    assert a == (q - 1.0) * b;
    QuotientIs(a, b, q - 1.0);
  }

  lemma QuotientIs(a: real, b: real, q: real)
    requires b > 0.0 && a == q * b
    ensures a / b == q
  {}

  lemma SquareGap(r: real, u: real)
    ensures (r * u) * (2.0 - r) == u * (1.0 - (1.0 - r) * (1.0 - r))
  {
    var p := r * u;
    assert (1.0 - r) * (1.0 - r) == 1.0 - 2.0 * r + r * r;
    assert p * r == u * (r * r);
    assert u * (2.0 * r - r * r) == 2.0 * p - u * (r * r);
  }

  /** A sample follows the clock's last one at a local rate that calls for the frequency `target`. */
  predicate Follows(c: Clock, s: Sample, target: real) {
    && s.capture > c.lastCapture && c.lastUtc < s.utc <= c.lastUtc + MAX_STEADY_GAP
    && Abs(s.qerr) <= MAX_QERR_NS
    && TargetFrequency(s.capture - c.lastCapture, s.utc - c.lastUtc) == target
  }

  /** Ten minutes. */
  const MAX_STEADY_GAP: int := 600

  function SecondsOf(us: nat): real {
    us as real / 1_000_000.0
  }

  /** How far an interval of `e` local seconds at a relative rate falls short of `u` seconds. */
  function Miss(u: real, e: real, rate: real): real {
    u - e * (1.0 + rate)
  }

  lemma LocalInterval(localUs: nat, utcSeconds: int)
    requires utcSeconds > 0
    ensures SecondsOf(localUs) == utcSeconds as real * (1.0 - TargetFrequency(localUs, utcSeconds) / 1_000_000.0)
  {
    var u, l := utcSeconds as real, localUs as real / 1_000_000.0;
    var ratio := l / u;
    assert l == ratio * u;
    RatioOfScaled(l, u);
  }

  /** Two rates within the limit leave little phase over ten minutes. */
  lemma SteadyPhase(u: real, e: real, f: real, tau: real, g: real)
    requires 0.0 < u <= 600.0 && e == u * (1.0 - tau)
    requires AbsReal(f) <= 0.0002 && AbsReal(tau) <= 0.0002 && g - tau == (1.0 - GAIN) * (f - tau)
    ensures AbsReal(Miss(u, e, g)) <= 0.2101
  {
    var x := tau - g + tau * g;
    assert AbsReal(tau - g) <= 0.00035;
    assert AbsReal(g) <= 0.0002;
    SmallProduct(tau, g, 0.0002, 0.0002);
    assert AbsReal(x) <= 0.00035004;
    assert (1.0 - tau) * (1.0 + g) == 1.0 - x;
    Associate(u, 1.0 - tau, 1.0 + g);
    assert u - e * (1.0 + g) == u * x;
    SmallProduct(u, x, 600.0, 0.00035004);
  }

  lemma SmallProduct(x: real, y: real, a: real, b: real)
    requires AbsReal(x) <= a && AbsReal(y) <= b
    ensures AbsReal(x * y) <= a * b
  {
    var p, q := AbsReal(x), AbsReal(y);
    ScaledOrder(p, a, q);
    ScaledOrder(q, b, a);
    assert a * q == q * a && a * b == b * a;
    assert x * y == p * q || x * y == -(p * q);
  }

  /** Distance of a sample from the clock carried forward, in seconds since the anchor. */
  lemma OffIs(c: Clock, s: Sample, frequency: real)
    requires s.capture >= c.anchorCapture
    ensures s.utc as real - Extrapolated(c.anchorUtc, s.capture - c.anchorCapture, frequency)
         == Miss((s.utc - c.anchorUtc) as real, SecondsOf(s.capture - c.anchorCapture), frequency / 1_000_000.0)
  {}

  lemma SteadyOff(c: Clock, s: Sample, target: real, g: real)
    requires Inv(c) && Follows(c, s, target) && AbsReal(target) <= MAX_FREQUENCY
    requires g - target == (1.0 - GAIN) * (c.frequency - target)
    ensures AbsReal(s.utc as real - Extrapolated(c.anchorUtc, s.capture - c.anchorCapture, g)) <= 0.2101
  {
    var localUs, u := s.capture - c.anchorCapture, s.utc - c.anchorUtc;
    LocalInterval(localUs, u);
    OffIs(c, s, g);
    hide TargetFrequency, Extrapolated, SecondsOf, Miss;
    RatesAreSmall(c.frequency, target, g);
    assert 0 < u <= 600;
    hide AbsReal, Inv, Follows;
    SteadyPhase(u as real, SecondsOf(localUs), c.frequency / 1_000_000.0, target / 1_000_000.0, g / 1_000_000.0);
  }

  lemma RatesAreSmall(f: real, target: real, g: real)
    requires AbsReal(f) <= MAX_FREQUENCY && AbsReal(target) <= MAX_FREQUENCY && g - target == (1.0 - GAIN) * (f - target)
    ensures AbsReal(f / 1_000_000.0) <= 0.0002 && AbsReal(target / 1_000_000.0) <= 0.0002
    ensures g / 1_000_000.0 - target / 1_000_000.0 == (1.0 - GAIN) * (f / 1_000_000.0 - target / 1_000_000.0)
  {}

  lemma PhaseWithin(off: real, qerr: int)
    requires AbsReal(off) <= 0.2101 && Abs(qerr) <= MAX_QERR_NS
    ensures Abs(LlRound(off * 1_000_000_000.0) + qerr) <= MAX_ACCEPTABLE_NS
  {
    LlRoundIsNearest(off * 1_000_000_000.0);
    hide LlRound;
  }

  /** What is left of the distance to the target. */
  predicate Nearer(f: real, first: real, target: real, factor: real) {
    f - target == factor * (first - target)
  }

  /** Such a sample is always accepted, and the frequency takes one step of the filter. */
  lemma SteadySampleIsAccepted(cfg: Config, c: Clock, s: Sample, target: real)
    requires Inv(c) && c.solutionValid && Follows(c, s, target) && AbsReal(target) <= MAX_FREQUENCY
    ensures var (err, d) := Submitted(cfg, c, s);
      && err == OK && d.solutionValid && d.accepted == c.accepted + 1
      && Nearer(d.frequency, c.frequency, target, 1.0 - GAIN)
  {
    var g := Filtered(c.frequency, target);
    FilterStep(c.frequency, target);
    SteadyOff(c, s, target, g);
    hide Filtered, TargetFrequency, LlRound, Extrapolated, AbsReal;
    PhaseWithin(s.utc as real - Extrapolated(c.anchorUtc, s.capture - c.anchorCapture, g), s.qerr);
    assert Abs(PhaseError(c, s, g)) <= MAX_ACCEPTABLE_NS;
  }

  function Submits(samples: seq<Sample>): (ops: seq<Op>)
    ensures |ops| == |samples| && forall i :: 0 <= i < |ops| ==> ops[i] == Submit(samples[i])
  {
    seq(|samples|, i requires 0 <= i < |samples| => Submit(samples[i]))
  }

  /** Each sample follows the one before at the same rate; the quantization errors are free. */
  predicate Steady(cfg: Config, c: Clock, samples: seq<Sample>, target: real)
    requires Inv(c)
  {
    forall k :: 0 <= k < |samples| ==> Follows(Run(cfg, c, Submits(samples[..k])), samples[k], target)
  }

  /** All samples accepted, and the frequency error the first one times seven eighths for each. */
  predicate Converged(cfg: Config, c: Clock, samples: seq<Sample>, target: real)
    requires Inv(c)
  {
    var r := Run(cfg, c, Submits(samples));
    && r.solutionValid && r.accepted == c.accepted + |samples|
    && Accepted(cfg, c, Submits(samples)) == |samples|
    && Nearer(r.frequency, c.frequency, target, Power(1.0 - GAIN, |samples|))
  }

  lemma ConvergedAtStart(cfg: Config, c: Clock, target: real)
    requires Inv(c) && c.solutionValid
    ensures Converged(cfg, c, [], target)
  {
    hide Inv;
    assert Submits([]) == [];
  }

  lemma ConvergedStep(cfg: Config, c: Clock, samples: seq<Sample>, target: real)
    requires Inv(c) && samples != [] && AbsReal(target) <= MAX_FREQUENCY
    requires Converged(cfg, c, samples[..|samples| - 1], target)
    requires Follows(Run(cfg, c, Submits(samples[..|samples| - 1])), samples[|samples| - 1], target)
    ensures Converged(cfg, c, samples, target)
  {
    hide Run, Accepted, Submits, Follows, Submitted, Power, AbsReal, Nearer;
    var init := samples[..|samples| - 1];
    var before := Run(cfg, c, Submits(init));
    assert before.anchorCapture == before.lastCapture;
    hide Inv;
    LastSubmit(cfg, c, samples);
    PowerStep(1.0 - GAIN, |samples|);
    SteadySampleIsAccepted(cfg, before, samples[|samples| - 1], target);
    NearerStill(c.frequency, before.frequency, Submitted(cfg, before, samples[|samples| - 1]).1.frequency, target,
                Power(1.0 - GAIN, |init|));
  }

  /** With a steady oscillator every sample of a run is accepted and the frequency error shrinks by an eighth
      with each, whatever the quantization errors. */
  lemma {:induction false} FrequencyConverges(cfg: Config, c: Clock, samples: seq<Sample>, target: real)
    requires Inv(c) && c.solutionValid && Steady(cfg, c, samples, target) && AbsReal(target) <= MAX_FREQUENCY
    ensures Converged(cfg, c, samples, target)
  {
    hide Converged, Steady, Follows, Inv, AbsReal, Run;
    if samples == [] {
      ConvergedAtStart(cfg, c, target);
    } else {
      SteadyParts(cfg, c, samples, target);
      FrequencyConverges(cfg, c, samples[..|samples| - 1], target);
      ConvergedStep(cfg, c, samples, target);
    }
  }

  lemma NearerStill(first: real, before: real, after: real, target: real, p: real)
    requires Nearer(before, first, target, p) && Nearer(after, before, target, 1.0 - GAIN)
    ensures Nearer(after, first, target, (1.0 - GAIN) * p)
  {
    Associate(1.0 - GAIN, p, first - target);
  }

  lemma SteadyParts(cfg: Config, c: Clock, samples: seq<Sample>, target: real)
    requires Inv(c) && samples != [] && Steady(cfg, c, samples, target)
    ensures var init := samples[..|samples| - 1];
      Steady(cfg, c, init, target) && Follows(Run(cfg, c, Submits(init)), samples[|samples| - 1], target)
  {
    hide Follows, Run, Submits, Inv;
    var init := samples[..|samples| - 1];
    forall k | 0 <= k < |init| ensures samples[..k] == init[..k] && samples[k] == init[k] {}
  }

  lemma LastSubmit(cfg: Config, c: Clock, samples: seq<Sample>)
    requires Inv(c) && samples != []
    ensures var init, s := samples[..|samples| - 1], samples[|samples| - 1];
      var before := Run(cfg, c, Submits(init));
      && Run(cfg, c, Submits(samples)) == Submitted(cfg, before, s).1
      && Accepted(cfg, c, Submits(samples))
           == Accepted(cfg, c, Submits(init)) + if Submitted(cfg, before, s).0 == OK then 1 else 0
  {
    hide Submitted, Inv;
    assert Submits(samples)[..|samples| - 1] == Submits(samples[..|samples| - 1]);
  }

  // ---------------------------------------------------------------- how far a sample moves served time

  /** The acceptance limit, the quantization error and half a nanosecond of rounding, in seconds. */
  const ACCEPTED_MISS: real := 0.250_050_000_5

  predicate Between(x: real, bound: real) {
    0.0 <= x <= bound || bound <= x <= 0.0
  }

  /** The filter goes an eighth of the way to the target, or less where it is clamped, and never far. */
  lemma FilterGoesPartWay(f: real, target: real)
    requires AbsReal(f) <= MAX_FREQUENCY
    ensures Between(Filtered(f, target) - f, (target - f) / 8.0) && AbsReal(Filtered(f, target) - f) <= 400.0
  {}

  lemma RatesGoPartWay(f: real, target: real)
    requires AbsReal(f) <= MAX_FREQUENCY
    ensures var g := Filtered(f, target) / 1_000_000.0;
      && Between(g - f / 1_000_000.0, (target / 1_000_000.0 - f / 1_000_000.0) / 8.0)
      && AbsReal(g - f / 1_000_000.0) <= 0.0004
  {
    FilterGoesPartWay(f, target);
    hide Filtered;
  }

  lemma BetweenScales(e: real, x: real, bound: real)
    requires e >= 0.0 && Between(x, bound)
    ensures Between(Change(e, x), Change(e, bound))
  {
    if 0.0 <= x <= bound {
      ScaledOrder(x, bound, e);
      ScaledOrder(0.0, x, e);
    } else {
      ScaledOrder(bound, x, e);
      ScaledOrder(x, 0.0, e);
    }
  }

  /** What a change of rate makes of an interval. */
  function Change(e: real, x: real): real {
    e * x
  }

  /** What the old rate misses, as the new rate's miss and the change between them. */
  lemma MissChanges(u: real, e: real, f: real, g: real)
    ensures Miss(u, e, f) == Miss(u, e, g) + Change(e, g - f)
  {}

  lemma MissOfTarget(u: real, e: real, f: real, tau: real)
    requires e == u * (1.0 - tau)
    ensures Change(e, (tau - f) / 8.0) == (Miss(u, e, f) - u * (tau * tau)) / 8.0
  {
    assert e * tau == u * tau - u * (tau * tau) by { Associate(u, 1.0 - tau, tau); TauTerm(u, tau); }
    assert e == u - u * tau;
  }

  lemma TauTerm(u: real, tau: real)
    ensures u * ((1.0 - tau) * tau) == u * tau - u * (tau * tau)
  {
    assert (1.0 - tau) * tau == tau - tau * tau;
  }

  /** The miss at the old rate is at most eight sevenths of the one at the new rate, up to second order. */
  lemma MissBound(u: real, e: real, f: real, g: real, tau: real)
    requires u > 0.0 && e >= 0.0 && e == u * (1.0 - tau) && Between(g - f, (tau - f) / 8.0)
    ensures 7.0 * AbsReal(Miss(u, e, f)) <= 8.0 * AbsReal(Miss(u, e, g)) + u * (tau * tau)
  {
    hide Miss, Change;
    MissChanges(u, e, f, g);
    MissOfTarget(u, e, f, tau);
    BetweenScales(e, g - f, (tau - f) / 8.0);
    assert u * (tau * tau) >= 0.0 by { assert tau * tau >= 0.0; }
    StepFromMiss(Miss(u, e, f), Miss(u, e, g), Change(e, g - f), u * (tau * tau));
  }

  lemma StepFromMiss(step: real, miss: real, change: real, second: real)
    requires step == miss + change && second >= 0.0 && Between(change, (step - second) / 8.0)
    ensures 7.0 * AbsReal(step) <= 8.0 * AbsReal(miss) + second
  {}

  lemma MissNear(u: real, e: real, f: real, g: real)
    requires e >= 0.0 && AbsReal(g - f) <= 0.0004
    ensures AbsReal(Miss(u, e, f) - Miss(u, e, g)) <= 0.0004 * e
  {
    MissChanges(u, e, f, g);
    hide Miss, Change;
    SmallChange(e, g - f);
  }

  lemma SmallChange(e: real, x: real)
    requires e >= 0.0 && AbsReal(x) <= 0.0004
    ensures AbsReal(Change(e, x)) <= 0.0004 * e
  {
    ScaledOrder(x, 0.0004, e);
    ScaledOrder(-0.0004, x, e);
  }

  /** A later sample against the clock as it served, and as it would have served at the filtered rate. */
  datatype Comparison = Comparison(u: real, e: real, tau: real, step: real, miss: real)

  function Compared(c: Clock, s: Sample): Comparison
    requires s.capture >= c.anchorCapture && c.anchorCapture == c.lastCapture && s.utc > c.anchorUtc == c.lastUtc
  {
    var u, e := (s.utc - c.anchorUtc) as real, SecondsOf(s.capture - c.anchorCapture);
    var target := TargetFrequency(s.capture - c.lastCapture, s.utc - c.lastUtc);
    Comparison(u, e, target / 1_000_000.0, Miss(u, e, c.frequency / 1_000_000.0),
               Miss(u, e, Filtered(c.frequency, target) / 1_000_000.0))
  }

  lemma StepIsMiss(c: Clock, s: Sample)
    requires Inv(c) && s.capture > c.anchorCapture && s.utc > c.anchorUtc
    ensures Compared(c, s).step == s.utc as real - ServedUtc(c, s.capture)
  {
    OffIs(c, s, c.frequency);
    hide Miss, Filtered, TargetFrequency, Extrapolated;
  }

  /** Two bounds on the step, the one tighter for long and the other for short intervals. */
  predicate StepBounded(k: Comparison) {
    && 7.0 * AbsReal(k.step) <= 8.0 * AbsReal(k.miss) + k.u * (k.tau * k.tau)
    && AbsReal(k.step - k.miss) <= 0.0004 * k.e && k.e >= 0.0
  }

  lemma MissesAreBounded(u: real, e: real, f: real, g: real, tau: real)
    requires u > 0.0 && e >= 0.0 && e == u * (1.0 - tau)
    requires Between(g - f, (tau - f) / 8.0) && AbsReal(g - f) <= 0.0004
    ensures StepBounded(Comparison(u, e, tau, Miss(u, e, f), Miss(u, e, g)))
  {
    MissBound(u, e, f, g, tau);
    MissNear(u, e, f, g);
    hide Miss, Between, AbsReal;
  }

  lemma ComparedBounds(c: Clock, s: Sample)
    requires Inv(c) && s.capture > c.anchorCapture && s.utc > c.anchorUtc
    ensures StepBounded(Compared(c, s))
  {
    hide Miss, Filtered, TargetFrequency, Between, StepBounded, SecondsOf;
    var localUs, utc := s.capture - c.anchorCapture, s.utc - c.anchorUtc;
    var target := TargetFrequency(localUs, utc);
    RatesGoPartWay(c.frequency, target);
    LocalInterval(localUs, utc);
    assert SecondsOf(localUs) >= 0.0 by { NotNegative(localUs); }
    MissesAreBounded(utc as real, SecondsOf(localUs), c.frequency / 1_000_000.0,
                     Filtered(c.frequency, target) / 1_000_000.0, target / 1_000_000.0);
  }

  lemma NotNegative(us: nat)
    ensures SecondsOf(us) >= 0.0
  {}

  /** The phase the code compares with its limit is the miss in nanoseconds and the quantization error. */
  lemma PhaseIsMiss(c: Clock, s: Sample)
    requires Inv(c) && s.capture > c.anchorCapture && s.utc > c.anchorUtc
    ensures var k := Compared(c, s);
      var phase := PhaseError(c, s, Filtered(c.frequency, TargetFrequency(s.capture - c.lastCapture, s.utc - c.lastUtc)));
      -0.5 <= (phase - s.qerr) as real - k.miss * 1_000_000_000.0 <= 0.5
  {
    var g := Filtered(c.frequency, TargetFrequency(s.capture - c.lastCapture, s.utc - c.lastUtc));
    OffIs(c, s, g);
    hide Miss, Filtered, TargetFrequency, Extrapolated;
    LlRoundIsNearest(Compared(c, s).miss * 1_000_000_000.0);
    hide LlRound;
  }

  /** How far an accepted sample steps served time: it becomes the served time at its instant, and differs
      from what was served there before by no more than the limit and 400 ppm of the interval, and no more
      than eight sevenths of the limit and the second-order term of the measured rate. */
  lemma AcceptedStepBound(cfg: Config, c: Clock, s: Sample)
    requires Inv(c) && c.solutionValid && Submitted(cfg, c, s).0 == OK
    ensures s.capture > c.anchorCapture && s.utc > c.anchorUtc
    ensures var d, k := Submitted(cfg, c, s).1, Compared(c, s);
      && d.anchorCapture == s.capture && ServedUtc(d, s.capture) == s.utc as real
      && k.step == ServedUtc(d, s.capture) - ServedUtc(c, s.capture)
      && AbsReal(k.step) <= ACCEPTED_MISS + 0.0004 * k.e
      && 7.0 * AbsReal(k.step) <= 8.0 * ACCEPTED_MISS + k.u * (k.tau * k.tau)
  {
    var k := Compared(c, s);
    ComparedBounds(c, s);
    StepIsMiss(c, s);
    PhaseIsMiss(c, s);
    assert Corrected(0, Submitted(cfg, c, s).1.frequency) == 0.0;
    hide Miss, Filtered, TargetFrequency, Compared, Corrected, PhaseError;
    var filtered := Filtered(c.frequency, TargetFrequency(s.capture - c.lastCapture, s.utc - c.lastUtc));
    MissWithinLimit(k.miss, PhaseError(c, s, filtered), s.qerr);
  }

  lemma MissWithinLimit(miss: real, phase: int, qerr: int)
    requires -0.5 <= (phase - qerr) as real - miss * 1_000_000_000.0 <= 0.5 && Abs(qerr) <= MAX_QERR_NS
    ensures Abs(phase) <= MAX_ACCEPTABLE_NS ==> AbsReal(miss) <= ACCEPTED_MISS
    ensures Abs(phase) > MAX_ACCEPTABLE_NS ==> AbsReal(miss) > 0.249_949_999
  {}

  /** Same served time at every instant both can serve. */
  ghost predicate SameTime(c: Clock, d: Clock) {
    forall now: nat :: now >= c.anchorCapture && now >= d.anchorCapture ==> ServedUtc(c, now) == ServedUtc(d, now)
  }

  /** The sample is later than the last one in both times and within the quantization limit. */
  predicate Later(c: Clock, s: Sample) {
    Abs(s.qerr) <= MAX_QERR_NS && s.capture > c.lastCapture && s.utc > c.lastUtc
  }

  /** A refused sample of a serving clock: service continues unless it is the third in a row, and then served
      time moves if and only if the sample is a later one - it becomes the anchor although it was refused for
      being far off. */
  lemma RefusedMovesTimeIff(cfg: Config, c: Clock, s: Sample)
    requires Inv(c) && Serving(c) && Refused(Submitted(cfg, c, s).0)
    ensures var d := Submitted(cfg, c, s).1;
      && (Serving(d) <==> c.rejects + 1 < MAX_REJECTS)
      && (Serving(d) ==> (SameTime(c, d) <==> !Later(c, s)))
  {
    var d := Submitted(cfg, c, s).1;
    if Later(c, s) {
      FarOffMoves(cfg, c, s);
    } else {
      hide Disciplined, Extrapolated;
      assert d.anchorCapture == c.anchorCapture && d.anchorUtc == c.anchorUtc;
    }
  }

  lemma FarOffMoves(cfg: Config, c: Clock, s: Sample)
    requires Inv(c) && Serving(c) && Later(c, s) && Refused(Submitted(cfg, c, s).0)
    ensures var d := Submitted(cfg, c, s).1;
      && (Serving(d) <==> c.rejects + 1 < MAX_REJECTS)
      && d.anchorCapture == s.capture && d.anchorUtc == s.utc && d.frequency == 0.0
      && AbsReal(Compared(c, s).miss) > 0.249_949_999
      && !SameTime(c, d)
  {
    var d := Submitted(cfg, c, s).1;
    PhaseIsMiss(c, s);
    var phase := PhaseError(c, s, Filtered(c.frequency, TargetFrequency(s.capture - c.lastCapture, s.utc - c.lastUtc)));
    hide Miss, Filtered, TargetFrequency, Compared, Extrapolated, PhaseError;
    MissWithinLimit(Compared(c, s).miss, phase, s.qerr);
    assert d.anchorCapture == s.capture && d.anchorUtc == s.utc && d.frequency == 0.0;
    if SameTime(c, d) {
      hide Submitted, Inv;
      assert ServedUtc(c, s.capture) == ServedUtc(d, s.capture);
      assert ServedUtc(c, s.capture + 1_000_000) == ServedUtc(d, s.capture + 1_000_000);
      EqualTwiceMissesNothing(c, s, d);
    }
  }

  /** Two clocks that agree at the sample and a second later run at one rate. */
  lemma EqualTwiceMissesNothing(c: Clock, s: Sample, d: Clock)
    requires Inv(c) && s.capture > c.anchorCapture && s.utc > c.anchorUtc
    requires d.anchorCapture == s.capture && d.anchorUtc == s.utc && d.frequency == 0.0
    requires ServedUtc(c, s.capture) == ServedUtc(d, s.capture)
    requires ServedUtc(c, s.capture + 1_000_000) == ServedUtc(d, s.capture + 1_000_000)
    ensures Compared(c, s).miss == 0.0
  {
    var e := SecondsOf(s.capture - c.anchorCapture);
    var rate := 1.0 + c.frequency / 1_000_000.0;
    assert SecondsOf(s.capture + 1_000_000 - c.anchorCapture) == e + 1.0;
    assert ServedUtc(d, s.capture) == s.utc as real && ServedUtc(d, s.capture + 1_000_000) == s.utc as real + 1.0;
    assert ServedUtc(c, s.capture) == c.anchorUtc as real + e * rate;
    assert ServedUtc(c, s.capture + 1_000_000) == c.anchorUtc as real + (e + 1.0) * rate;
    assert (e + 1.0) * rate == e * rate + rate;
    assert c.frequency == 0.0;
    assert e == (s.utc - c.anchorUtc) as real;
    LocalInterval(s.capture - c.anchorCapture, s.utc - c.anchorUtc);
    var target := TargetFrequency(s.capture - c.lastCapture, s.utc - c.lastUtc);
    hide TargetFrequency;
    NoRate(e, target / 1_000_000.0);
    assert Filtered(0.0, 0.0) == 0.0;
  }

  lemma NoRate(u: real, tau: real)
    requires u > 0.0 && u == u * (1.0 - tau)
    ensures tau == 0.0
  {
    assert u * tau == 0.0;
  }

  /** And the jump is at least the limit less 400 ppm of the interval. */
  lemma FarOffJump(cfg: Config, c: Clock, s: Sample)
    requires Inv(c) && Serving(c) && Later(c, s) && Refused(Submitted(cfg, c, s).0)
    ensures var d, k := Submitted(cfg, c, s).1, Compared(c, s);
      && ServedUtc(d, s.capture) == s.utc as real && k.step == ServedUtc(d, s.capture) - ServedUtc(c, s.capture)
      && AbsReal(k.step) > 0.249_949_999 - 0.0004 * k.e
  {
    FarOffMoves(cfg, c, s);
    ComparedBounds(c, s);
    StepIsMiss(c, s);
    assert Corrected(0, 0.0) == 0.0;
    hide Submitted, Compared, Corrected, Inv;
  }

  // ---------------------------------------------------------------- a run to start from

  /** The k-th of a series of samples one second apart in both times. */
  function Tick(k: nat): Sample {
    Sample(1_000_000 * (k + 1), 1_700_000_000 + k, 0, 0)
  }

  function Ticks(n: nat): (ops: seq<Op>)
    ensures |ops| == n && forall k :: 0 <= k < n ==> ops[k] == Submit(Tick(k))
  {
    seq(n, k requires 0 <= k < n => Submit(Tick(k)))
  }

  function Ticked(cfg: Config, n: nat): Clock
    requires n >= 1
  {
    var capture, utc := 1_000_000 * n, 1_700_000_000 + n - 1;
    Clock(true, capture, utc, capture, utc, true, capture, utc, 0, 0.0, n, 0, 0, 0,
          if n >= 2 && n >= cfg.lockSamples then Synchronized else Acquiring)
  }

  lemma TickAfterTicks(cfg: Config, n: nat)
    requires n >= 1
    ensures Inv(Ticked(cfg, n)) && Submitted(cfg, Ticked(cfg, n), Tick(n)) == (OK, Ticked(cfg, n + 1))
  {
    assert TargetFrequency(1_000_000, 1) == 0.0;
    assert Filtered(0.0, 0.0) == 0.0;
    assert PhaseError(Ticked(cfg, n), Tick(n), 0.0) == 0;
  }

  /** They lead to a clock on time at nominal frequency. */
  lemma {:induction false} TicksReach(cfg: Config, n: nat)
    requires n >= 1
    ensures Inv(INITIAL) && Run(cfg, INITIAL, Ticks(n)) == Ticked(cfg, n)
  {
    assert Ticks(n)[..n - 1] == Ticks(n - 1);
    if n > 1 {
      TicksReach(cfg, n - 1);
      TickAfterTicks(cfg, n - 1);
      hide Submitted;
    } else {
      assert Run(cfg, INITIAL, Ticks(0)) == INITIAL;
    }
  }

  /** After any number of them, a sample 280 seconds on at a local rate 1000 ppm slow is accepted and steps
      served time by 0.28 s, more than the acceptance limit. */
  lemma AcceptedStepMayExceedLimit(cfg: Config, n: nat)
    requires n >= 1
    ensures Inv(INITIAL)
    ensures var c, s := Run(cfg, INITIAL, Ticks(n)), Sample(1_000_000 * n + 279_720_000, 1_700_000_000 + n - 1 + 280, 0, 0);
      && Submitted(cfg, c, s).0 == OK && s.capture >= c.anchorCapture && s.capture == Submitted(cfg, c, s).1.anchorCapture
      && ServedUtc(Submitted(cfg, c, s).1, s.capture) - ServedUtc(c, s.capture) == 0.28
  {
    TicksReach(cfg, n);
    var c, s := Ticked(cfg, n), Sample(1_000_000 * n + 279_720_000, 1_700_000_000 + n - 1 + 280, 0, 0);
    assert TargetFrequency(279_720_000, 280) == 1000.0;
    assert Filtered(0.0, 1000.0) == 125.0;
    assert PhaseError(c, s, 125.0) == 245_035_000;
    hide TargetFrequency, Filtered, PhaseError, Run;
  }

  /** After enough of them to lock, a sample a second on and a day ahead is refused, and served time jumps to
      it all the same. */
  lemma RefusedSampleMayMoveADay(cfg: Config, n: nat)
    requires n >= 2 && n >= cfg.lockSamples
    ensures Inv(INITIAL)
    ensures var c, s := Run(cfg, INITIAL, Ticks(n)), Sample(1_000_000 * (n + 1), 1_700_000_000 + n - 1 + 86_400, 0, 0);
      && Submitted(cfg, c, s).0 == INVALID_RESPONSE && Serving(c) && Serving(Submitted(cfg, c, s).1)
      && s.capture >= c.anchorCapture && s.capture == Submitted(cfg, c, s).1.anchorCapture
      && ServedUtc(Submitted(cfg, c, s).1, s.capture) - ServedUtc(c, s.capture) == 86_399.0
  {
    TicksReach(cfg, n);
    var c, s := Ticked(cfg, n), Sample(1_000_000 * (n + 1), 1_700_000_000 + n - 1 + 86_400, 0, 0);
    var g := Filtered(0.0, TargetFrequency(1_000_000, 86_400));
    FilterGoesPartWay(0.0, TargetFrequency(1_000_000, 86_400));
    OffIs(c, s, g);
    LlRoundIsNearest((s.utc as real - Extrapolated(c.anchorUtc, 1_000_000, g)) * 1_000_000_000.0);
    hide TargetFrequency, Filtered, LlRound, Run;
    assert PhaseError(c, s, g) > MAX_ACCEPTABLE_NS;
  }
}
