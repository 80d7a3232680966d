/** Mapping hardware PTP timestamps to UTC by split 64-bit division (main/eth_service.c). */
module PtpMap {
  import opened Bytes
  import opened Esp
  import opened Arith
  import opened Timestamps

  const MAX_CORRELATION_AGE_US: int := 30_000_000
  const MAX_BRACKET_NS: int := 250_000

  /** The divisor is a signed 64-bit sum. */
  const MAX_DIVISOR: int := 0x7FFF_FFFF_FFFF_FFFF

  /** The correlation state the mapping reads under the lock. */
  datatype Correlation = Correlation(valid: bool, samples: u32, ratePpb: int, lastUs: int)

  datatype Mapped = Mapped(seconds: u32, fraction: u32, bracketNs: u32, ageUs: u32)

  function NtpToNs(t: Timestamp): u64 {
    NsOfFraction(t);
    t.seconds * NS_PER_S + (t.fraction * NS_PER_S + TWO_32 / 2) / TWO_32
  }

  lemma NsOfFraction(t: Timestamp)
    ensures 0 <= (t.fraction * NS_PER_S + TWO_32 / 2) / TWO_32 <= NS_PER_S
  {}

  function PtpToNs(t: PtpTime): u64 {
    t.seconds * NS_PER_S + t.nanoseconds
  }

  function NsToFraction(ns: int): int {
    (ns * TWO_32 + NS_PER_S / 2) / NS_PER_S
  }

  /** A 64-bit unsigned result. */
  function Wrap(x: int): u64 {
    x % TWO_64
  }

  function SplitOf(quotient: nat, remainder: nat, d: int): u64
    requires d > 0
  {
    Wrap(Wrap(quotient * NS_PER_S) + Wrap(Wrap(remainder * NS_PER_S) + d / 2) / d)
  }

  /** Local age scaled to UTC by quotient and remainder; every step wraps at 64 bits. */
  function SplitAge(age: u64, d: int): u64
    requires d > 0
  {
    SplitOf(age / d, age % d, d)
  }

  /** Nearest integer to age * 10^9 / d, halves up. */
  function RoundedAge(age: int, d: int): int
    requires d > 0
  {
    (age * NS_PER_S + d / 2) / d
  }

  function Saturate32(x: nat): u32 {
    if x > TWO_32 - 1 then TWO_32 - 1 else x
  }

  /** The event's UTC time in nanoseconds, by `eth_map_ptp_event_to_utc_ns` and, in the same steps, by the
      receive path; none when any plausibility check fails. */
  function UtcNs(before: Timestamp, now: PtpTime, after: Timestamp, event: PtpTime, c: Correlation, nowUs: int): Option<u64> {
    var b, a, p, e := NtpToNs(before), NtpToNs(after), PtpToNs(now), PtpToNs(event);
    if a < b || p < e then None
    else if !c.valid || c.samples < 2 || c.lastUs <= 0 || nowUs < c.lastUs
      || nowUs - c.lastUs > MAX_CORRELATION_AGE_US || a - b > MAX_BRACKET_NS then None
    else
      var d := NS_PER_S + c.ratePpb;
      if d <= 0 then None
      else
        var mid := b + (a - b) / 2;
        var utcAge := SplitAge(p - e, d);
        if utcAge > mid then None else Some(mid - utcAge)
  }

  /** The receive path's result: the mapped time as an NTP timestamp. */
  function MapReceive(before: Timestamp, now: PtpTime, after: Timestamp, event: PtpTime, c: Correlation, nowUs: int)
    : Option<Mapped>
  {
    match UtcNs(before, now, after, event, c, nowUs)
    case None => None
    case Some(mapped) =>
      if mapped / NS_PER_S > TWO_32 - 1 then None
      else
        FractionFits(mapped % NS_PER_S);
        Some(Mapped(mapped / NS_PER_S, NsToFraction(mapped % NS_PER_S),
                    Saturate32(NtpToNs(after) - NtpToNs(before)), Saturate32((PtpToNs(now) - PtpToNs(event)) / 1000)))
  }

  // ---------------------------------------------------------------- exactness

  /** Splitting is exact for every age and divisor, before any wrapping. */
  lemma SplitIsExact(age: nat, d: int)
    requires d > 0
    ensures age / d * NS_PER_S + (age % d * NS_PER_S + d / 2) / d == RoundedAge(age, d)
  {
    var q, r := age / d, age % d;
    assert age == q * d + r;
    assert age * NS_PER_S + d / 2 == (q * NS_PER_S) * d + (r * NS_PER_S + d / 2);
    DivAddMultiple(q * NS_PER_S, d, r * NS_PER_S + d / 2);
  }

  /** The rounded remainder term before its division, which the code computes in 64 bits. */
  function Head(age: nat, d: int): nat
    requires d > 0
  {
    age % d * NS_PER_S + d / 2
  }

  /** Neither the true quotient nor the remainder term leaves 64 bits. */
  predicate SplitFits(age: nat, d: int)
    requires d > 0
  {
    RoundedAge(age, d) < TWO_64 && Head(age, d) < TWO_64
  }

  /** For every age and every positive 64-bit divisor the computation is right exactly when both fit. */
  lemma SplitAgeIff(age: u64, d: int)
    requires 0 < d <= MAX_DIVISOR
    ensures SplitAge(age, d) == RoundedAge(age, d) <==> SplitFits(age, d)
  {
    var q, head := age / d, Head(age, d);
    SplitIsExact(age, d);
    RemainderTerm(age % d, d);
    WrappedHead(head, d);
    DivNonNegative(age, d);
    DivNonNegative(Wrap(head), d);
    SplitOfIs(q, age % d, d);
    hide SplitOf, Wrap;
    WrapLess(q * NS_PER_S + head / d, head / d - Wrap(head) / d);
  }

  /** A remainder term stands for at most one second. */
  lemma RemainderTerm(r: nat, d: int)
    requires 0 < d && r < d
    ensures 0 <= (r * NS_PER_S + d / 2) / d <= NS_PER_S
  {
    Product(r + 1, d, NS_PER_S);
    DivMonotone(r * NS_PER_S + d / 2, NS_PER_S * d + d / 2, d);
    DivAddMultiple(NS_PER_S, d, d / 2);
    DivUnique(d / 2, d, 0, d / 2);
    DivNonNegative(r * NS_PER_S + d / 2, d);
  }

  /** Wrapping the term lowers its quotient by one at least. */
  lemma WrappedHead(head: nat, d: int)
    requires 0 < d <= MAX_DIVISOR
    ensures head < TWO_64 ==> Wrap(head) == head
    ensures head >= TWO_64 ==> Wrap(head) / d < head / d
  {
    if head >= TWO_64 {
      assert Wrap(head) + d <= head;
      DivAddMultiple(1, d, Wrap(head));
      DivMonotone(1 * d + Wrap(head), head, d);
    }
  }

  lemma WrapLess(x: nat, drop: int)
    requires 0 <= drop <= x && drop < TWO_64
    ensures Wrap(x - drop) == x <==> x < TWO_64 && drop == 0
  {}

  lemma WrapTwice(x: nat, y: nat)
    ensures Wrap(Wrap(x) + y) == Wrap(x + y)
  {
    WrapSum(x, y, TWO_64);
  }

  lemma SplitOfIs(q: nat, r: nat, d: int)
    requires d > 0
    ensures var head := r * NS_PER_S + d / 2;
      Wrap(head) / d >= 0 && SplitOf(q, r, d) == Wrap(q * NS_PER_S + Wrap(head) / d)
  {
    hide Wrap;
    WrapTwice(r * NS_PER_S, d / 2);
    DivNonNegative(Wrap(r * NS_PER_S + d / 2), d);
    WrapTwice(q * NS_PER_S, Wrap(r * NS_PER_S + d / 2) / d);
  }

  /** Rates within half of nominal and ages between two hardware times never overflow. */
  lemma SaneRatesFit(now: PtpTime, event: PtpTime, ratePpb: int)
    requires PtpToNs(event) <= PtpToNs(now) && -500_000_000 <= ratePpb <= 500_000_000
    ensures SplitFits(PtpToNs(now) - PtpToNs(event), NS_PER_S + ratePpb)
  {
    var age, d := PtpToNs(now) - PtpToNs(event), NS_PER_S + ratePpb;
    assert age < 4_300_000_000_000_000_000;
    RoundedBound(age * NS_PER_S + d / 2, d);
    assert age % d < d;
  }

  lemma RoundedBound(n: nat, d: int)
    requires d >= 500_000_000 && n < 500_000_000 * TWO_64
    ensures n / d < TWO_64
  {}

  /** Outside that range it fails in either way: at -999999999 ppb the quotient of a 20-second age
      overflows, at +19000000000 ppb the remainder term of a 19-second age does. */
  lemma SplitAgeOverflows()
    ensures RoundedAge(20_000_000_000, NS_PER_S - 999_999_999) >= TWO_64
    ensures SplitAge(20_000_000_000, NS_PER_S - 999_999_999) != RoundedAge(20_000_000_000, NS_PER_S - 999_999_999)
    ensures RoundedAge(19_000_000_000, NS_PER_S + 19_000_000_000) < TWO_64
    ensures SplitAge(19_000_000_000, NS_PER_S + 19_000_000_000) != RoundedAge(19_000_000_000, NS_PER_S + 19_000_000_000)
  {
    SplitAgeIff(20_000_000_000, 1);
    SplitAgeIff(19_000_000_000, 20_000_000_000);
  }

  // ---------------------------------------------------------------- fractions

  /** The NTP fraction of a nanosecond count below one second never reaches 2^32. */
  lemma FractionFits(ns: int)
    requires 0 <= ns < NS_PER_S
    ensures 0 <= NsToFraction(ns) < TWO_32
  {}

  /** Both conversions round to the nearest unit, halves up. */
  lemma FractionIsNearest(ns: int, t: Timestamp)
    requires 0 <= ns < NS_PER_S
    ensures -NS_PER_S < 2 * (NsToFraction(ns) * NS_PER_S - ns * TWO_32) <= NS_PER_S
    ensures -TWO_32 < 2 * ((NtpToNs(t) - t.seconds * NS_PER_S) * TWO_32 - t.fraction * NS_PER_S) <= TWO_32
  {}

  /** Converting nanoseconds to a fraction and back is the identity. */
  lemma FractionRoundTrip(seconds: u32, ns: int)
    requires 0 <= ns < NS_PER_S
    ensures 0 <= NsToFraction(ns) < TWO_32
    ensures NtpToNs(Timestamp(seconds, NsToFraction(ns))) == seconds * NS_PER_S + ns
  {
    var f := NsToFraction(ns);
    var n := ns * TWO_32 + NS_PER_S / 2;
    assert f * NS_PER_S <= n < (f + 1) * NS_PER_S;
  }

  /** The conversion respects the order of timestamps, also across a second boundary. */
  lemma NtpToNsMonotone(s: Timestamp, t: Timestamp)
    requires s.seconds < t.seconds || (s.seconds == t.seconds && s.fraction <= t.fraction)
    ensures NtpToNs(s) <= NtpToNs(t)
  {
    NsOfFraction(s);
    if s.seconds == t.seconds {
      DivMonotone(s.fraction * NS_PER_S + TWO_32 / 2, t.fraction * NS_PER_S + TWO_32 / 2, TWO_32);
    }
  }

  /** The exact time of an event: the bracket's midpoint less the age scaled to UTC. */
  function ExactNs(before: Timestamp, now: PtpTime, after: Timestamp, event: PtpTime, c: Correlation): int
    requires NS_PER_S + c.ratePpb > 0
  {
    NtpToNs(before) + (NtpToNs(after) - NtpToNs(before)) / 2
      - RoundedAge(PtpToNs(now) - PtpToNs(event), NS_PER_S + c.ratePpb)
  }

  /** The whole mapping, at every rate the code lets through: the timestamp it returns denotes exactly the
      bracket's midpoint less the rounded scaled age if and only if the split computation fits. */
  lemma MapReceiveIsExactIff(before: Timestamp, now: PtpTime, after: Timestamp, event: PtpTime, c: Correlation, nowUs: int)
    requires c.ratePpb <= MAX_DIVISOR - NS_PER_S
    requires MapReceive(before, now, after, event, c, nowUs).Some?
    ensures PtpToNs(event) <= PtpToNs(now) && NS_PER_S + c.ratePpb > 0
    ensures var m := MapReceive(before, now, after, event, c, nowUs).value;
      NtpToNs(Timestamp(m.seconds, m.fraction)) == ExactNs(before, now, after, event, c)
      <==> SplitFits(PtpToNs(now) - PtpToNs(event), NS_PER_S + c.ratePpb)
  {
    hide NtpToNs, PtpToNs, SplitAge, NsToFraction, SplitFits, RoundedAge;
    var mapped := UtcNs(before, now, after, event, c, nowUs).value;
    SplitAgeIff(PtpToNs(now) - PtpToNs(event), NS_PER_S + c.ratePpb);
    FractionRoundTrip(mapped / NS_PER_S, mapped % NS_PER_S);
  }

  /** What the code asks of two clock readings at most 250 us apart, a hardware reading between them no earlier
      than the event, and a correlation of two samples or more that is at most 30 s old and whose rate leaves
      the hardware clock running forward. */
  predicate Plausible(before: Timestamp, now: PtpTime, after: Timestamp, event: PtpTime, c: Correlation, nowUs: int) {
    && NtpToNs(before) <= NtpToNs(after) <= NtpToNs(before) + 250_000
    && PtpToNs(event) <= PtpToNs(now)
    && c.valid && c.samples >= 2 && 0 < c.lastUs <= nowUs <= c.lastUs + 30_000_000
    && c.ratePpb > -1_000_000_000
  }

  /** And the event lies between the epoch and the end of 32-bit seconds. */
  predicate Mappable(before: Timestamp, now: PtpTime, after: Timestamp, event: PtpTime, c: Correlation, nowUs: int) {
    Plausible(before, now, after, event, c, nowUs)
    && 0 <= ExactNs(before, now, after, event, c) < TWO_32 * NS_PER_S
  }

  /** When an event is mapped. Nothing implausible is; and wherever the split computation fits, an event is
      mapped if and only if it is plausible and its exact time has 32-bit seconds. The result also carries
      the bracket and the age in microseconds, as far as they fit in 32 bits. */
  lemma MapReceiveIff(before: Timestamp, now: PtpTime, after: Timestamp, event: PtpTime, c: Correlation, nowUs: int)
    requires c.ratePpb <= MAX_DIVISOR - NS_PER_S
    ensures var m := MapReceive(before, now, after, event, c, nowUs);
      && (m.Some? ==> Plausible(before, now, after, event, c, nowUs))
      && (Plausible(before, now, after, event, c, nowUs)
          && SplitFits(PtpToNs(now) - PtpToNs(event), NS_PER_S + c.ratePpb) ==>
            (m.Some? <==> Mappable(before, now, after, event, c, nowUs)))
      && (m.Some? ==> m.value.bracketNs == NtpToNs(after) - NtpToNs(before))
      && (m.Some? ==> var us := (PtpToNs(now) - PtpToNs(event)) / 1000;
            m.value.ageUs == if us < TWO_32 then us else TWO_32 - 1)
  {
    hide NtpToNs, PtpToNs, SplitAge, NsToFraction, SplitFits, RoundedAge;
    if PtpToNs(event) <= PtpToNs(now) && c.ratePpb > -1_000_000_000 {
      SplitAgeIff(PtpToNs(now) - PtpToNs(event), NS_PER_S + c.ratePpb);
      assert RoundedAge(PtpToNs(now) - PtpToNs(event), NS_PER_S + c.ratePpb) >= 0 by {
        RoundedNonNegative(PtpToNs(now) - PtpToNs(event), NS_PER_S + c.ratePpb);
      }
    }
  }

  lemma RoundedNonNegative(age: nat, d: int)
    requires d > 0
    ensures RoundedAge(age, d) >= 0
  {
    DivNonNegative(age * NS_PER_S + d / 2, d);
  }

  lemma RoundedIsNearest(age: int, d: int)
    requires d > 0
    ensures -d <= 2 * (RoundedAge(age, d) * d - age * NS_PER_S) <= d
  {
    var n := age * NS_PER_S + d / 2;
    assert n == n / d * d + n % d;
  }

  /** How far off a mapped time is. Take any true time `x` of the hardware reading inside the bracket and any
      true scale `D` of the hardware clock: `D` of its nanoseconds last 10^9 true ones. Wherever the split
      computation fits, the mapped time is off the true time of the event by at most half the bracket, one
      nanosecond, and the age times the relative error of the estimated scale `d`. */
  lemma MappedNearTruth(before: Timestamp, now: PtpTime, after: Timestamp, event: PtpTime, c: Correlation, nowUs: int,
                        x: int, trueScale: int)
    requires c.ratePpb <= MAX_DIVISOR - NS_PER_S && trueScale > 0
    requires MapReceive(before, now, after, event, c, nowUs).Some?
    requires NtpToNs(before) <= x <= NtpToNs(after)
    ensures PtpToNs(event) <= PtpToNs(now) && NS_PER_S + c.ratePpb > 0
    ensures var m := MapReceive(before, now, after, event, c, nowUs).value;
      var d, age, bracket := NS_PER_S + c.ratePpb, PtpToNs(now) - PtpToNs(event), NtpToNs(after) - NtpToNs(before);
      var error := NtpToNs(Timestamp(m.seconds, m.fraction)) * d * trueScale - (x * d * trueScale - age * NS_PER_S * d);
      SplitFits(age, d) ==>
        2 * Abs(error) <= d * (bracket + 2) * trueScale + 2 * (age * NS_PER_S * Abs(trueScale - d))
  {
    MapReceiveIsExactIff(before, now, after, event, c, nowUs);
    var m := MapReceive(before, now, after, event, c, nowUs).value;
    var d, age := NS_PER_S + c.ratePpb, PtpToNs(now) - PtpToNs(event);
    hide MapReceive, NtpToNs, PtpToNs, RoundedAge, SplitFits, Abs;
    if SplitFits(age, d) {
      var mapped := NtpToNs(Timestamp(m.seconds, m.fraction));
      ExactWithinBracket(NtpToNs(before), NtpToNs(after), mapped, x, age, d);
      Rescaled(mapped, x, age * NS_PER_S, d, trueScale, NtpToNs(after) - NtpToNs(before));
    }
  }

  /** The same error with the true scale in place of the estimated one. */
  lemma Rescaled(mapped: int, x: int, scaled: nat, d: int, trueScale: int, bracket: int)
    requires d > 0 && trueScale > 0
    requires -d * (bracket + 2) <= 2 * (mapped * d - (x * d - scaled)) <= d * (bracket + 2)
    ensures 2 * Abs(mapped * d * trueScale - (x * d * trueScale - scaled * d))
         <= d * (bracket + 2) * trueScale + 2 * (scaled * Abs(trueScale - d))
  {
    var near, bound := mapped * d - (x * d - scaled), d * (bracket + 2);
    assert -d * (bracket + 2) == -bound by { Negated(d, bracket + 2); }
    RescaledError(mapped * d, x * d, scaled, d, trueScale);
    NearBound(near, bound, trueScale);
    AbsOfProduct(scaled, -(trueScale - d));
    AbsOfSum(near * trueScale, scaled * -(trueScale - d));
  }

  lemma Negated(a: int, b: int)
    ensures -a * b == -(a * b)
  {}

  lemma RescaledError(m: int, x: int, scaled: int, d: int, trueScale: int)
    ensures m * trueScale - (x * trueScale - scaled * d) == (m - (x - scaled)) * trueScale + scaled * -(trueScale - d)
  {}

  lemma NearBound(near: int, bound: int, scale: int)
    requires scale > 0 && -bound <= 2 * near <= bound
    ensures 2 * Abs(near * scale) <= bound * scale
  {
    Product(2 * near, bound, scale);
    Product(-bound, 2 * near, scale);
    assert 2 * near * scale == 2 * (near * scale) && -bound * scale == -(bound * scale);
  }

  lemma ExactWithinBracket(before: int, after: int, mapped: int, x: int, age: int, d: int)
    requires d > 0 && before <= x <= after && mapped == before + (after - before) / 2 - RoundedAge(age, d)
    ensures var error := mapped * d - (x * d - age * NS_PER_S);
      -d * (after - before + 2) <= 2 * error <= d * (after - before + 2)
  {
    RoundedIsNearest(age, d);
    hide RoundedAge;
    BracketError(before + (after - before) / 2, x, RoundedAge(age, d), age, after - before, d);
  }

  lemma BracketError(mid: int, x: int, rounded: int, age: int, bracket: int, d: int)
    requires d > 0 && -(bracket + 1) <= 2 * (mid - x) <= bracket + 1
    requires -d <= 2 * (rounded * d - age * NS_PER_S) <= d
    ensures var error := (mid - rounded) * d - (x * d - age * NS_PER_S);
      -d * (bracket + 2) <= 2 * error <= d * (bracket + 2)
  {
    var miss := mid - x;
    Product(2 * miss, bracket + 1, d);
    Product(-(bracket + 1), 2 * miss, d);
    assert (mid - rounded) * d - x * d == miss * d - rounded * d;
    assert d * (bracket + 2) == (bracket + 1) * d + d && -d * (bracket + 2) == -(d * (bracket + 2));
    assert -(bracket + 1) * d == -((bracket + 1) * d) && 2 * miss * d == 2 * (miss * d);
  }

  /** An event at the instant of the hardware reading, with both clock readings equal, maps to that reading,
      at every rate. */
  lemma EventNowMapsToNow(seconds: u32, ns: int, now: PtpTime, c: Correlation, nowUs: int)
    requires 0 <= ns < NS_PER_S && c.valid && c.samples >= 2 && 0 < NS_PER_S + c.ratePpb <= MAX_DIVISOR
    requires 0 < c.lastUs <= nowUs <= c.lastUs + MAX_CORRELATION_AGE_US
    ensures 0 <= NsToFraction(ns) < TWO_32
    ensures var clock := Timestamp(seconds, NsToFraction(ns));
      MapReceive(clock, now, clock, now, c, nowUs) == Some(Mapped(seconds, NsToFraction(ns), 0, 0))
  {
    FractionRoundTrip(seconds, ns);
    NothingScales(NS_PER_S + c.ratePpb);
    DivUnique(seconds * NS_PER_S + ns, NS_PER_S, seconds, ns);
    hide NtpToNs, PtpToNs, NsToFraction, SplitAge;
  }

  lemma NothingScales(d: int)
    requires 0 < d <= MAX_DIVISOR
    ensures SplitAge(0, d) == 0
  {
    DivUnique(d / 2, d, 0, d / 2);
    assert RoundedAge(0, d) == 0 && Head(0, d) == d / 2;
    hide SplitAge, RoundedAge, Head;
    SplitAgeIff(0, d);
  }
}
