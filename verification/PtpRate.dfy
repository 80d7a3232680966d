/** The estimator of the hardware clock's rate (main/eth_service.c): every sample is compared with the first
    one, in 64-bit signed arithmetic. */
module PtpRate {
  import opened Arith
  import opened Bytes
  import opened Esp
  import opened PtpMap
  import opened Timestamps

  /** Clock, hardware time and clock again, and the monotonic time. */
  datatype Reading = Reading(before: Timestamp, ptp: PtpTime, after: Timestamp, nowUs: int)

  datatype Baseline = Baseline(offset: i64, utc: u64)

  datatype Estimator = Estimator(baseline: Option<Baseline>, offset: i64, change: i64, correlation: Correlation)

  const INITIAL := Estimator(None, 0, 0, Correlation(false, 0, 0, 0))

  function MidNs(r: Reading): u64
    requires NtpToNs(r.before) <= NtpToNs(r.after)
  {
    NtpToNs(r.before) + (NtpToNs(r.after) - NtpToNs(r.before)) / 2
  }

  function OffsetNs(r: Reading): i64
    requires NtpToNs(r.before) <= NtpToNs(r.after)
  {
    WrapI64(WrapI64(PtpToNs(r.ptp)) as int - WrapI64(MidNs(r)) as int)
  }

  /** Truncating division by a nonzero divisor of either sign. */
  function SignedQuotient(a: int, b: int): int
    requires b != 0
  {
    if b > 0 then TruncDiv(a, b) else TruncDiv(-a, -b)
  }

  /** Parts per billion, as computed: the product may leave 64 bits. */
  function Estimate(change: i64, elapsed: u64): i64 {
    if elapsed == 0 then 0 else WrapI64(SignedQuotient(WrapI64(change * NS_PER_S), WrapI64(elapsed)))
  }

  /** One sample; nothing changes when a reading is missing or the clock has gone backwards in between. */
  function Sampled(e: Estimator, reading: Option<Reading>): Estimator {
    if reading.None? || NtpToNs(reading.value.after) < NtpToNs(reading.value.before) then e
    else
      var r := reading.value;
      var samples := (e.correlation.samples + 1) % TWO_32;
      if e.baseline.None? then
        Estimator(Some(Baseline(OffsetNs(r), MidNs(r))), OffsetNs(r), 0, Correlation(true, samples, 0, r.nowUs))
      else
        var change := WrapI64(OffsetNs(r) as int - e.baseline.value.offset as int);
        var rate := Estimate(change, (MidNs(r) - e.baseline.value.utc) % TWO_64);
        Estimator(e.baseline, OffsetNs(r), change, Correlation(true, samples, rate, r.nowUs))
  }

  class RateEstimator {
    var baselineValid: bool
    var baselineOffset: i64
    var baselineUtc: u64
    var valid: bool
    var samples: u32
    var offset: i64
    var change: i64
    var ratePpb: i64
    var lastUs: int

    constructor ()
      ensures View() == INITIAL
    {
      baselineValid, baselineOffset, baselineUtc, valid, samples := false, 0, 0, false, 0;
      offset, change, ratePpb, lastUs := 0, 0, 0, 0;
    }

    function View(): Estimator
      reads this
    {
      Estimator(if baselineValid then Some(Baseline(baselineOffset, baselineUtc)) else None, offset, change,
                Correlation(valid, samples, ratePpb, lastUs))
    }

    method Sample(reading: Option<Reading>)
      modifies this
      ensures View() == Sampled(old(View()), reading)
    {
      hide NtpToNs, PtpToNs, WrapI64, SignedQuotient;
      if reading.None? { return; }
      var r := reading.value;
      var beforeNs, afterNs := NtpToNs(r.before), NtpToNs(r.after);
      if afterNs < beforeNs { return; }
      var midNs := beforeNs + (afterNs - beforeNs) / 2;
      assert midNs == MidNs(r);
      var offsetNs: i64 := WrapI64(WrapI64(PtpToNs(r.ptp)) as int - WrapI64(midNs) as int);
      var changeNs: i64, rate: i64 := 0, 0;
      if !baselineValid {
        baselineValid, baselineOffset, baselineUtc := true, offsetNs, midNs;
      } else {
        changeNs := WrapI64(offsetNs as int - baselineOffset as int);
        var elapsedNs: u64 := (midNs - baselineUtc) % TWO_64;
        if elapsedNs > 0 { rate := Estimate(changeNs, elapsedNs); }
      }
      valid, samples := true, (samples + 1) % TWO_32;
      offset, change, ratePpb, lastUs := offsetNs, changeNs, rate, r.nowUs;
    }
  }

  // ---------------------------------------------------------------- the estimate

  /** The offset change whose product with 10^9 is the last to fit in 64 bits: 9.2 seconds. */
  const MAX_CHANGE: int := 9_223_372_036

  /** Truncated quotients of numbers two divisors apart differ. */
  lemma TruncApart(a: int, b: int, d: int)
    requires d > 0 && a >= b + 2 * d
    ensures TruncDiv(a, d) > TruncDiv(b, d)
  {
    TruncError(a, d);
    TruncError(b, d);
    hide TruncDiv;
    if TruncDiv(a, d) <= TruncDiv(b, d) { Product(TruncDiv(a, d), TruncDiv(b, d), d); }
  }

  lemma TruncFits(a: i64, d: int)
    requires d > 0
    ensures WrapI64(TruncDiv(a, d)) == TruncDiv(a, d)
  {
    TruncError(a, d);
    hide TruncDiv;
    var q := TruncDiv(a, d);
    if q >= 0 { Product(1, d, q); } else { Product(1, d, -q); }
    assert q * d == d * q && -q * d == -(q * d);
    WrapNear(q);
  }

  /** For every change of offset and every elapsed time the estimate is the true quotient if and only if the
      change is at most 9.2 seconds. */
  lemma EstimateIff(change: i64, elapsed: int)
    requires 0 < elapsed <= 0x7FFF_FFFF_FFFF_FFFF
    ensures Estimate(change, elapsed) == TruncDiv(change * NS_PER_S, elapsed) <==> Abs(change) <= MAX_CHANGE
  {
    var product := change * NS_PER_S;
    hide WrapI64, TruncDiv, Estimate;
    EstimateOfWrapped(change, elapsed);
    WrapApart(product);
    WrapNearIff(product);
    if product >= WrapI64(product) + TWO_64 { TruncApart(product, WrapI64(product), elapsed); }
    if product <= WrapI64(product) - TWO_64 { TruncApart(WrapI64(product), product, elapsed); }
  }

  /** The same when the clock has gone back to before the first sample, by two nanoseconds or more: the division
      is by the negative interval. */
  lemma BackwardEstimateIff(change: i64, elapsed: int)
    requires 2 <= elapsed <= 0x7FFF_FFFF_FFFF_FFFF
    ensures Estimate(change, (-elapsed) % TWO_64) == TruncDiv(-(change * NS_PER_S), elapsed) <==> Abs(change) <= MAX_CHANGE
  {
    var product := change * NS_PER_S;
    var wrapped := WrapI64(product);
    BackwardEstimateOf(change, elapsed);
    hide WrapI64, TruncDiv, Estimate;
    WrapApart(product);
    WrapNearIff(product);
    if product >= wrapped + TWO_64 { TruncApart(-wrapped, -product, elapsed); }
    if product <= wrapped - TWO_64 { TruncApart(-product, -wrapped, elapsed); }
  }

  lemma BackwardEstimateOf(change: i64, elapsed: int)
    requires 2 <= elapsed <= 0x7FFF_FFFF_FFFF_FFFF
    ensures Estimate(change, (-elapsed) % TWO_64) == TruncDiv(-(WrapI64(change * NS_PER_S) as int), elapsed)
  {
    var wrapped := WrapI64(change * NS_PER_S);
    assert (-elapsed) % TWO_64 == TWO_64 - elapsed;
    assert WrapI64(TWO_64 - elapsed) == -elapsed;
    hide WrapI64;
    HalfFits(-(wrapped as int), elapsed);
  }

  lemma HalfFits(a: int, d: int)
    requires d >= 2 && -0x8000_0000_0000_0000 <= a <= 0x8000_0000_0000_0000
    ensures WrapI64(TruncDiv(a, d)) == TruncDiv(a, d)
  {
    TruncError(a, d);
    var q := TruncDiv(a, d);
    hide TruncDiv;
    if q >= 0 { Product(2, d, q); } else { Product(2, d, -q); }
    assert q * d == d * q && -q * d == -(q * d);
    WrapNear(q);
  }

  lemma EstimateOfWrapped(change: i64, elapsed: int)
    requires 0 < elapsed <= 0x7FFF_FFFF_FFFF_FFFF
    ensures Estimate(change, elapsed) == TruncDiv(WrapI64(change * NS_PER_S), elapsed)
  {
    WrapNear(elapsed);
    hide WrapI64;
    TruncFits(WrapI64(change * NS_PER_S), elapsed);
  }

  lemma WrapApart(x: int)
    ensures x == WrapI64(x) || x >= WrapI64(x) + TWO_64 || x <= WrapI64(x) - TWO_64
  {
    WrapMultiple(x);
  }

  lemma WrapNearIff(x: int)
    ensures WrapI64(x) == x <==> -0x8000_0000_0000_0000 <= x <= 0x7FFF_FFFF_FFFF_FFFF
  {}

  /** A hardware clock off by a steady number of parts per billion is measured right after `k` seconds if and
      only if it has gained or lost no more than that by then. */
  lemma SteadyDriftIff(ppb: int, k: int)
    requires 0 < k * NS_PER_S <= 0x7FFF_FFFF_FFFF_FFFF && -TWO_64 / 2 <= k * ppb < TWO_64 / 2
    ensures Estimate(k * ppb, k * NS_PER_S) == ppb <==> Abs(k * ppb) <= MAX_CHANGE
  {
    hide Estimate, TruncDiv;
    EstimateIff(k * ppb, k * NS_PER_S);
    assert k * ppb * NS_PER_S == ppb * (k * NS_PER_S);
    TruncOfMultiple(ppb, k * NS_PER_S);
  }

  lemma TruncOfMultiple(q: int, d: int)
    requires d > 0
    ensures TruncDiv(q * d, d) == q
  {
    if q >= 0 {
      Product(0, q, d);
      DivUnique(q * d, d, q, 0);
    } else {
      Product(q, 0, d);
      if q * d != 0 { DivUnique(-(q * d), d, -q, 0); } else { Product(q, -1, d); }
    }
  }

  /** How near the true scale the estimated one is: one part per billion, and what the two samples were off
      by over the time between them. */
  lemma EstimateNearTruth(change: i64, elapsed: int, trueScale: int, slack: nat)
    requires 0 < elapsed <= 0x7FFF_FFFF_FFFF_FFFF && Abs(change) <= MAX_CHANGE
    requires Abs(change * NS_PER_S - elapsed * (trueScale - NS_PER_S)) <= slack * NS_PER_S
    ensures elapsed * Abs(trueScale - (NS_PER_S + Estimate(change, elapsed))) <= elapsed + slack * NS_PER_S
  {
    EstimateIff(change, elapsed);
    TruncError(change * NS_PER_S, elapsed);
    hide Estimate, TruncDiv, Abs;
    NearRate(change * NS_PER_S, Estimate(change, elapsed), elapsed, trueScale - NS_PER_S, slack * NS_PER_S);
  }

  lemma NearRate(product: int, rate: int, elapsed: int, truth: int, slack: nat)
    requires elapsed > 0 && -elapsed < rate * elapsed - product < elapsed && Abs(product - elapsed * truth) <= slack
    ensures elapsed * Abs(truth - rate) <= elapsed + slack
  {
    AbsOfProduct(elapsed, truth - rate);
    assert elapsed * (truth - rate) == elapsed * truth - rate * elapsed;
  }

  // ---------------------------------------------------------------- whole runs

  function Run(readings: seq<Option<Reading>>): Estimator {
    if readings == [] then INITIAL else Sampled(Run(readings[..|readings| - 1]), readings[|readings| - 1])
  }

  predicate Counts(reading: Option<Reading>) {
    reading.Some? && NtpToNs(reading.value.before) <= NtpToNs(reading.value.after)
  }

  /** What a reading measures: hardware time less UTC, exactly, at the bracket's midpoint. */
  datatype Point = Point(offset: int, utc: int, nowUs: int)

  function PointOf(r: Reading): Point
    requires Counts(Some(r))
  {
    var middle := (NtpToNs(r.before) + NtpToNs(r.after)) / 2;
    Point(PtpToNs(r.ptp) - middle, middle, r.nowUs)
  }

  function Points(readings: seq<Option<Reading>>): seq<Point> {
    if readings == [] then []
    else
      var last := readings[|readings| - 1];
      Points(readings[..|readings| - 1]) + if Counts(last) then [PointOf(last.value)] else []
  }

  /** Sizes that 32-bit seconds allow. */
  predicate Sized(p: Point) {
    -4_300_000_000_000_000_000 <= p.offset <= 4_300_000_000_000_000_000 && 0 <= p.utc <= 4_295_000_000_000_000_000
  }

  lemma BelowRollover(t: Timestamp)
    ensures NtpToNs(t) <= 4_295_000_000_000_000_000
  {
    NsOfFraction(t);
  }

  /** The signed casts and the difference of the two times lose nothing. */
  lemma PointIsExact(r: Reading)
    requires Counts(Some(r))
    ensures Sized(PointOf(r)) && OffsetNs(r) == PointOf(r).offset && MidNs(r) == PointOf(r).utc
  {
    BelowRollover(r.before);
    BelowRollover(r.after);
    assert MidNs(r) == (NtpToNs(r.before) + NtpToNs(r.after)) / 2;
    hide NtpToNs;
    WrapNear(PtpToNs(r.ptp));
    WrapNear(MidNs(r));
    WrapNear(PtpToNs(r.ptp) - MidNs(r));
  }

  /** What the estimator holds after a run: the first point for ever, and the rate between it and the last. */
  predicate Measures(e: Estimator, points: seq<Point>) {
    if points == [] then e == INITIAL
    else
      var first, last := points[0], points[|points| - 1];
      && Sized(first) && Sized(last)
      && e.baseline == Some(Baseline(first.offset, first.utc)) && e.offset == last.offset
      && e.change == last.offset - first.offset
      && e.correlation == Correlation(true, |points| % TWO_32, RateBetween(first, last), last.nowUs)
  }

  function RateBetween(first: Point, last: Point): int
    requires Sized(first) && Sized(last)
  {
    Estimate(last.offset - first.offset, (last.utc - first.utc) % TWO_64)
  }

  /** A sample in terms of its point. */
  lemma SampledPoint(e: Estimator, r: Reading)
    requires Counts(Some(r))
    requires e.baseline.Some? ==> -4_300_000_000_000_000_000 <= e.baseline.value.offset <= 4_300_000_000_000_000_000
    ensures Sized(PointOf(r))
    ensures var p, n := PointOf(r), (e.correlation.samples + 1) % TWO_32;
      Sampled(e, Some(r))
        == if e.baseline.None? then Estimator(Some(Baseline(p.offset, p.utc)), p.offset, 0, Correlation(true, n, 0, p.nowUs))
           else
             var change := p.offset - e.baseline.value.offset;
             Estimator(e.baseline, p.offset, change,
                       Correlation(true, n, Estimate(change, (p.utc - e.baseline.value.utc) % TWO_64), p.nowUs))
  {
    hide OffsetNs, MidNs, NtpToNs, PtpToNs, WrapI64, Estimate, PointOf;
    PointIsExact(r);
    ReadingTime(r);
    if e.baseline.Some? { WrapNear(PointOf(r).offset - e.baseline.value.offset); }
  }

  lemma ReadingTime(r: Reading)
    requires Counts(Some(r))
    ensures PointOf(r).nowUs == r.nowUs
  {}

  lemma PointMeasures(e: Estimator, points: seq<Point>, r: Reading)
    requires Counts(Some(r)) && Measures(e, points)
    ensures Measures(Sampled(e, Some(r)), points + [PointOf(r)])
  {
    assert Estimate(0, 0) == 0;
    hide Sampled, PointOf, Estimate, Counts;
    SampledPoint(e, r);
    NextCount(|points|);
    assert points != [] ==> (points + [PointOf(r)])[0] == points[0];
  }

  lemma NextCount(n: nat)
    ensures (n % TWO_32 + 1) % TWO_32 == (n + 1) % TWO_32
  {
    WrapSum(n, 1, TWO_32);
  }

  lemma {:induction false} RunMeasuresFromFirst(readings: seq<Option<Reading>>)
    ensures Measures(Run(readings), Points(readings))
  {
    if readings != [] {
      var init, last := readings[..|readings| - 1], readings[|readings| - 1];
      RunMeasuresFromFirst(init);
      hide Measures, NtpToNs, OffsetNs, MidNs, WrapI64, Estimate, PointOf;
      if Counts(last) {
        PointMeasures(Run(init), Points(init), last.value);
      } else {
        assert Points(init) + [] == Points(init);
      }
    }
  }

  /** Since the first sample is never replaced, the rate goes wrong for good once the clocks have drifted too
      far apart: after any run whose last counting reading is later than its first, it is the true quotient of
      offset change and elapsed time if and only if the offset has changed by at most 9.2 seconds. */
  lemma RunEstimatesIff(readings: seq<Option<Reading>>)
    requires var points := Points(readings); points != [] && points[0].utc < points[|points| - 1].utc
    ensures var points := Points(readings);
      var first, last := points[0], points[|points| - 1];
      Run(readings).correlation.ratePpb == TruncDiv((last.offset - first.offset) * NS_PER_S, last.utc - first.utc)
      <==> Abs(last.offset - first.offset) <= MAX_CHANGE
  {
    RunMeasuresFromFirst(readings);
    var points := Points(readings);
    hide Estimate, TruncDiv, Run, Points, Abs;
    EstimateIff(points[|points| - 1].offset - points[0].offset, points[|points| - 1].utc - points[0].utc);
  }

  /** A hardware clock 20 ppm fast reads as 20 ppm slow after five and a third days. */
  lemma DriftWrapsTheEstimate()
    ensures var first := Reading(Timestamp(1_000, 0), PtpTime(1_000, 0), Timestamp(1_000, 0), 1);
      var last := Reading(Timestamp(462_200, 0), PtpTime(462_209, 224_000_000), Timestamp(462_200, 0), 2);
      Run([Some(first), Some(last)]).correlation.ratePpb == -19_997
  {
    var first := Reading(Timestamp(1_000, 0), PtpTime(1_000, 0), Timestamp(1_000, 0), 1);
    var last := Reading(Timestamp(462_200, 0), PtpTime(462_209, 224_000_000), Timestamp(462_200, 0), 2);
    WholeSecondPoint(1_000, 1_000, 0, 1);
    WholeSecondPoint(462_200, 462_209, 224_000_000, 2);
    DriftedEstimate();
    hide Estimate, PointOf, Run, Points, Counts;
    TwoPointRate(first, last);
  }

  lemma WholeSecondPoint(utc: u32, seconds: u32, nanoseconds: u32, nowUs: int)
    ensures var r := Reading(Timestamp(utc, 0), PtpTime(seconds, nanoseconds), Timestamp(utc, 0), nowUs);
      Counts(Some(r)) && PointOf(r) == Point((seconds - utc) * NS_PER_S + nanoseconds, utc * NS_PER_S, nowUs)
  {}

  lemma DriftedEstimate()
    ensures Estimate(9_224_000_000, 461_200_000_000_000) == -19_997
  {}

  lemma TwoPoints(first: Reading, last: Reading)
    requires Counts(Some(first)) && Counts(Some(last))
    ensures Points([Some(first), Some(last)]) == [PointOf(first), PointOf(last)]
  {
    hide Counts, PointOf;
    var one, two := [Some(first)], [Some(first), Some(last)];
    assert one[..0] == [] && two[..1] == one;
    assert Points([]) == [];
    assert Points(one) == [PointOf(first)];
  }

  /** Estimates at which the mapping of receive times fails in either way: a hardware clock that stands still
      for a second, and one that is found nine seconds ahead half a second after the first sample. */
  lemma OverflowingRatesOccur()
    ensures var first := Reading(Timestamp(1_000, 0), PtpTime(1_000, 0), Timestamp(1_000, 0), 1);
      var stopped := Reading(Timestamp(1_001, 0), PtpTime(1_000, 1), Timestamp(1_001, 0), 2);
      var rate := Run([Some(first), Some(stopped)]).correlation.ratePpb;
      NS_PER_S + rate == 1 && SplitAge(20_000_000_000, NS_PER_S + rate) != RoundedAge(20_000_000_000, NS_PER_S + rate)
    ensures var first := Reading(Timestamp(1_000, 0), PtpTime(1_000, 0), Timestamp(1_000, 0), 1);
      var stepped := Reading(Timestamp(1_000, 0x8000_0000), PtpTime(1_009, 723_000_000), Timestamp(1_000, 0x8000_0000), 2);
      var rate := Run([Some(first), Some(stepped)]).correlation.ratePpb;
      NS_PER_S + rate == 19_446_000_000
      && SplitAge(19_000_000_000, NS_PER_S + rate) != RoundedAge(19_000_000_000, NS_PER_S + rate)
  {
    var first := Reading(Timestamp(1_000, 0), PtpTime(1_000, 0), Timestamp(1_000, 0), 1);
    var stopped := Reading(Timestamp(1_001, 0), PtpTime(1_000, 1), Timestamp(1_001, 0), 2);
    var stepped := Reading(Timestamp(1_000, 0x8000_0000), PtpTime(1_009, 723_000_000), Timestamp(1_000, 0x8000_0000), 2);
    WholeSecondPoint(1_000, 1_000, 0, 1);
    WholeSecondPoint(1_001, 1_000, 1, 2);
    HalfSecondPoint(1_000, 1_009, 723_000_000, 2);
    SteppedEstimates();
    hide Estimate, PointOf, Run, Points, Counts, SplitAge, RoundedAge;
    TwoPointRate(first, stopped);
    TwoPointRate(first, stepped);
    SplitAgeFailures();
  }

  lemma HalfSecondPoint(utc: u32, seconds: u32, nanoseconds: u32, nowUs: int)
    ensures var r := Reading(Timestamp(utc, 0x8000_0000), PtpTime(seconds, nanoseconds), Timestamp(utc, 0x8000_0000), nowUs);
      && Counts(Some(r))
      && PointOf(r) == Point((seconds - utc) * NS_PER_S + nanoseconds - 500_000_000, utc * NS_PER_S + 500_000_000, nowUs)
  {}

  lemma SteppedEstimates()
    ensures Estimate(-999_999_999, 1_000_000_000) == -999_999_999
    ensures Estimate(9_223_000_000, 500_000_000) == 18_446_000_000
  {}

  lemma SplitAgeFailures()
    ensures SplitAge(20_000_000_000, 1) != RoundedAge(20_000_000_000, 1)
    ensures SplitAge(19_000_000_000, 19_446_000_000) != RoundedAge(19_000_000_000, 19_446_000_000)
  {
    SplitAgeIff(20_000_000_000, 1);
    SplitAgeIff(19_000_000_000, 19_446_000_000);
  }

  lemma TwoPointRate(first: Reading, last: Reading)
    requires Counts(Some(first)) && Counts(Some(last)) && Sized(PointOf(first)) && Sized(PointOf(last))
    ensures Run([Some(first), Some(last)]).correlation.ratePpb == RateBetween(PointOf(first), PointOf(last))
  {
    TwoPoints(first, last);
    hide Estimate, PointOf, Run, Points, Counts;
    RunMeasuresFromFirst([Some(first), Some(last)]);
  }
}
