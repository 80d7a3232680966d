/** Served time and the error bound it is advertised with (main/clock_discipline.c). */
module ClockDispersion {
  import opened Arith
  import opened Bytes
  import opened ClockDiscipline
  import opened ClockSamples
  import opened Esp
  import opened Timestamps

  // ---------------------------------------------------------------- served time

  lemma SlopeIsPositive(utc: int, a: nat, b: nat, frequency: real)
    requires a <= b && -MAX_FREQUENCY <= frequency <= MAX_FREQUENCY
    ensures Extrapolated(utc, a, frequency) <= Extrapolated(utc, b, frequency)
  {
    var slope := 1.0 + frequency / 1_000_000.0;
    var x, y := a as real / 1_000_000.0, b as real / 1_000_000.0;
    assert slope >= 0.0 && x <= y;
    ScaledOrder(x, y, slope);
  }

  /** Seconds and fraction of a stamp, read back as Unix time before the 2036 rollover. */
  function UnixOf(t: Timestamp): real {
    (t.seconds - NTP_EPOCH_DELTA) as real + t.fraction as real / 4294967296.0
  }

  /** The stamp is the time rounded down to 2 to the -32 s. */
  lemma StampRoundsDown(utc: real)
    requires 0.0 <= utc < (TWO_32 - NTP_EPOCH_DELTA) as real
    ensures UnixOf(Stamp(utc)) <= utc < UnixOf(Stamp(utc)) + 1.0 / 4294967296.0
  {
    var whole := utc.Floor;
    var scaled := (utc - whole as real) * 4294967296.0;
    var fraction := scaled.Floor;
    assert (whole + NTP_EPOCH_DELTA) % TWO_32 == whole + NTP_EPOCH_DELTA;
    assert fraction as real <= scaled < fraction as real + 1.0;
  }

  /** Between samples, served time never goes back. */
  lemma ServedTimeIsMonotone(c: Clock, earlier: nat, later: nat)
    requires Inv(c) && c.anchorCapture <= earlier <= later
    requires 0.0 <= ServedUtc(c, earlier) && 0.0 <= ServedUtc(c, later) < (TWO_32 - NTP_EPOCH_DELTA) as real
    ensures UnixOf(Stamp(ServedUtc(c, earlier))) <= UnixOf(Stamp(ServedUtc(c, later)))
  {
    SlopeIsPositive(c.anchorUtc, earlier - c.anchorCapture, later - c.anchorCapture, c.frequency);
    hide Extrapolated;
    StampIsMonotone(ServedUtc(c, earlier), ServedUtc(c, later));
  }

  lemma StampIsMonotone(a: real, b: real)
    requires 0.0 <= a <= b < (TWO_32 - NTP_EPOCH_DELTA) as real
    ensures UnixOf(Stamp(a)) <= UnixOf(Stamp(b))
  {
    assert (a.Floor + NTP_EPOCH_DELTA) % TWO_32 == a.Floor + NTP_EPOCH_DELTA;
    assert (b.Floor + NTP_EPOCH_DELTA) % TWO_32 == b.Floor + NTP_EPOCH_DELTA;
    assert a.Floor <= b.Floor;
    StampRoundsDown(a);
    StampRoundsDown(b);
    hide UnixOf;
    if UnixOf(Stamp(a)) > UnixOf(Stamp(b)) { StampsAreApart(a, b); }
  }

  lemma StampsAreApart(a: real, b: real)
    requires 0.0 <= a && 0.0 <= b && UnixOf(Stamp(a)) > UnixOf(Stamp(b))
    ensures UnixOf(Stamp(a)) >= UnixOf(Stamp(b)) + 1.0 / 4294967296.0
  {
    var s, t := Stamp(a), Stamp(b);
    var m, n := s.seconds * TWO_32 + s.fraction, t.seconds * TWO_32 + t.fraction;
    assert UnixOf(s) * 4294967296.0 == (m - NTP_EPOCH_DELTA * TWO_32) as real;
    assert UnixOf(t) * 4294967296.0 == (n - NTP_EPOCH_DELTA * TWO_32) as real;
    assert m >= n + 1;
  }

  // ---------------------------------------------------------------- the advertised bound

  const ANCHOR_ERROR: real := 0.000064

  /** True time when the anchor was right to `bound` seconds and the frequency correction to 20 ppm since. */
  ghost predicate Plausible(c: Clock, now: nat, truth: real, bound: real)
    requires now >= c.anchorCapture
  {
    PlausibleAfter(c, now - c.anchorCapture, truth, bound)
  }

  ghost predicate PlausibleAfter(c: Clock, elapsedUs: nat, truth: real, bound: real) {
    exists anchorError: real, sinceAnchor: real :: TruthIs(c, elapsedUs, anchorError, sinceAnchor, truth, bound)
  }

  predicate TruthIs(c: Clock, elapsedUs: nat, anchorError: real, sinceAnchor: real, truth: real, bound: real) {
    && AbsReal(anchorError) <= bound
    && AbsReal(sinceAnchor - Corrected(elapsedUs, c.frequency)) <= 0.00002 * (elapsedUs as real / 1_000_000.0)
    && truth == c.anchorUtc as real + anchorError + sinceAnchor
  }

  /** A clock in a state that can be reached, serving, within its holdover limit and before the rollover. */
  predicate Permitted(c: Clock, now: nat, limit: nat) {
    && Inv(c) && Serving(c) && now >= c.anchorCapture && (now - c.anchorCapture) / 1_000_000 <= limit
    && 0.0 <= ServedUtc(c, now) < (TWO_32 - NTP_EPOCH_DELTA) as real
  }

  predicate Covered(c: Clock, now: nat, truth: real) {
    var served := NtpTimestamp(c, Some(now));
    served.Some? && AbsReal(truth - UnixOf(served.value)) <= Dispersion(c, HoldoverSeconds(c, now)) as real / 65536.0
  }

  /** How far off the extrapolation can be. */
  lemma PlausibleError(c: Clock, now: nat, truth: real, bound: real)
    requires now >= c.anchorCapture && Plausible(c, now, truth, bound)
    ensures AbsReal(truth - ServedUtc(c, now)) <= bound + 0.00002 * ((now - c.anchorCapture) as real / 1_000_000.0)
  {
    var elapsedUs := now - c.anchorCapture;
    var anchorError: real, sinceAnchor: real :| TruthIs(c, elapsedUs, anchorError, sinceAnchor, truth, bound);
    hide Corrected;
    TriangleInequality(anchorError, sinceAnchor - Corrected(elapsedUs, c.frequency));
    assert truth - ServedUtc(c, now) == anchorError + (sinceAnchor - Corrected(elapsedUs, c.frequency));
  }

  lemma TriangleInequality(x: real, y: real)
    ensures AbsReal(x + y) <= AbsReal(x) + AbsReal(y)
  {}

  /** Base, phase and wander in nanoseconds, before the cap. */
  function Budget(c: Clock, h: nat): nat {
    BASE_DISPERSION_NS + Abs(c.phaseError) + WANDER_NS_PER_SECOND * h
  }

  /** The 16.16 value is the budget to within its last unit, and one whole second once the cap is reached. */
  lemma DispersionIsBudget(c: Clock, h: nat)
    ensures Budget(c, h) <= MAX_DISPERSION_NS ==>
      Budget(c, h) * 65536 - 1_000_000_000 < Dispersion(c, h) * 1_000_000_000 <= Budget(c, h) * 65536
    ensures Budget(c, h) >= MAX_DISPERSION_NS ==> Dispersion(c, h) == 65536
  {}

  /** The numbers behind the bound: the whole seconds counted, and the margin in the base. */
  lemma BudgetIsEnough(elapsedUs: nat, phase: nat, budget: int, dispersion: nat)
    requires budget == BASE_DISPERSION_NS + phase + WANDER_NS_PER_SECOND * (elapsedUs / 1_000_000)
    requires dispersion * 1_000_000_000 > budget * 65536 - 1_000_000_000
    ensures 0.000064 + phase as real / 1_000_000_000.0 + 0.00002 * (elapsedUs as real / 1_000_000.0) + 1.0 / 4294967296.0
         <= dispersion as real / 65536.0
  {
    var h, rest := elapsedUs / 1_000_000, elapsedUs % 1_000_000;
    assert elapsedUs as real == h as real * 1_000_000.0 + rest as real;
    assert (dispersion * 1_000_000_000) as real > (budget * 65536 - 1_000_000_000) as real;
  }

  lemma CapIsEnough(elapsedUs: nat)
    requires elapsedUs / 1_000_000 <= 49_995
    ensures 0.000064 + 0.00002 * (elapsedUs as real / 1_000_000.0) + 1.0 / 4294967296.0 <= 1.0
  {
    assert elapsedUs as real < 49_996_000_000.0;
  }

  /** Below the cap the dispersion covers even an anchor that is off by the whole last phase error and 64 us
      more. */
  lemma BudgetCoversPhase(c: Clock, now: nat, limit: nat, truth: real)
    requires limit < TWO_32 && Permitted(c, now, limit)
    requires Budget(c, HoldoverSeconds(c, now)) <= MAX_DISPERSION_NS
    requires Plausible(c, now, truth, 0.000064 + Abs(c.phaseError) as real / 1_000_000_000.0)
    ensures Covered(c, now, truth)
  {
    var elapsedUs := now - c.anchorCapture;
    var bound := 0.000064 + Abs(c.phaseError) as real / 1_000_000_000.0;
    PlausibleError(c, now, truth, bound);
    StampRoundsDown(ServedUtc(c, now));
    var h := HoldoverSeconds(c, now);
    assert h == elapsedUs / 1_000_000;
    DispersionIsBudget(c, h);
    BudgetIsEnough(elapsedUs, Abs(c.phaseError), Budget(c, h), Dispersion(c, h));
    hide Dispersion, Extrapolated, Plausible, Inv, UnixOf, Stamp, Budget;
  }

  lemma PlausibleWeakens(c: Clock, now: nat, truth: real, small: real, large: real)
    requires now >= c.anchorCapture && Plausible(c, now, truth, small) && small <= large
    ensures Plausible(c, now, truth, large)
  {
    var anchorError: real, sinceAnchor: real :| TruthIs(c, now - c.anchorCapture, anchorError, sinceAnchor, truth, small);
    assert TruthIs(c, now - c.anchorCapture, anchorError, sinceAnchor, truth, large);
  }

  /** Dispersion covers holdover error for every holdover limit up to 49 995 s, the default among them: served
      time is within the advertised root dispersion of true UTC at every moment of the permitted holdover. */
  lemma DispersionCoversError(c: Clock, now: nat, limit: nat, truth: real)
    requires limit <= 49_995 && Permitted(c, now, limit) && Plausible(c, now, truth, ANCHOR_ERROR)
    ensures Covered(c, now, truth)
  {
    var h := HoldoverSeconds(c, now);
    if Budget(c, h) <= MAX_DISPERSION_NS {
      PlausibleWeakens(c, now, truth, ANCHOR_ERROR, 0.000064 + Abs(c.phaseError) as real / 1_000_000_000.0);
      hide Permitted, Plausible, Covered, Budget;
      BudgetCoversPhase(c, now, limit, truth);
    } else {
      PlausibleError(c, now, truth, ANCHOR_ERROR);
      StampRoundsDown(ServedUtc(c, now));
      DispersionIsBudget(c, h);
      CapIsEnough(now - c.anchorCapture);
      hide Dispersion, Extrapolated, Plausible, Inv, UnixOf, Stamp, Budget;
    }
  }

  /** The ranges the build accepts for the two settings. */
  predicate Buildable(cfg: Config) {
    3 <= cfg.lockSamples <= 3_600 && 1 <= cfg.holdoverMax <= 86_400
  }

  /** In every run from start-up, at every permitted moment, the advertised dispersion covers the error. */
  ghost predicate Safe(cfg: Config) {
    forall ops: seq<Op>, now: nat, truth: real ::
      Inv(INITIAL) && Permitted(Run(cfg, INITIAL, ops), now, cfg.holdoverMax) ==>
        (Plausible(Run(cfg, INITIAL, ops), now, truth, ANCHOR_ERROR) ==> Covered(Run(cfg, INITIAL, ops), now, truth))
  }

  /** A run that locks and goes into holdover for just under 49 997 s. */
  function Outgrowing(cfg: Config): seq<Op> {
    Ticks(cfg.lockSamples) + [Enforce(Some(HeldUntil(cfg)))]
  }

  function HeldUntil(cfg: Config): nat {
    1_000_000 * cfg.lockSamples + 49_996_999_999
  }

  lemma OutgrowingReaches(cfg: Config)
    requires Buildable(cfg) && cfg.holdoverMax >= 49_996
    ensures Inv(INITIAL) && Run(cfg, INITIAL, Outgrowing(cfg)) == Ticked(cfg, cfg.lockSamples).(state := Holdover)
  {
    var ticks := Ticks(cfg.lockSamples);
    assert Outgrowing(cfg)[..|ticks|] == ticks;
    TicksReach(cfg, cfg.lockSamples);
    assert HoldoverSeconds(Ticked(cfg, cfg.lockSamples), HeldUntil(cfg)) == 49_996;
  }

  /** The cap of one second is what ends the guarantee: with a limit of 49 996 s, still well inside the
      range the build accepts, twenty parts per million of drift outgrow it. */
  lemma CapIsOutgrown(cfg: Config)
    requires Buildable(cfg) && cfg.holdoverMax >= 49_996
    ensures !Safe(cfg)
  {
    OutgrowingReaches(cfg);
    var c, now := Ticked(cfg, cfg.lockSamples).(state := Holdover), HeldUntil(cfg);
    var elapsed, drift := 49_996.999999, 0.99993999998;
    var truth := c.anchorUtc as real + 0.000064 + (elapsed + drift);
    assert Corrected(now - c.anchorCapture, 0.0) == elapsed;
    assert TruthIs(c, now - c.anchorCapture, 0.000064, elapsed + drift, truth, ANCHOR_ERROR);
    assert Plausible(c, now, truth, ANCHOR_ERROR);
    assert ServedUtc(c, now) == c.anchorUtc as real + elapsed;
    StampRoundsDown(ServedUtc(c, now));
    assert Permitted(c, now, cfg.holdoverMax);
    assert HoldoverSeconds(c, now) == 49_996;
    DispersionIsBudget(c, 49_996);
    assert truth - ServedUtc(c, now) > 1.0;
    assert !Covered(c, now, truth);
    hide Permitted, Plausible, Covered, Inv, Run, Outgrowing;
    assert Run(cfg, INITIAL, Outgrowing(cfg)) == c;
  }

  /** Exactly the holdover limits for which the advertised dispersion is an error bound, over every run. */
  lemma SafeIff(cfg: Config)
    requires Buildable(cfg)
    ensures Safe(cfg) <==> cfg.holdoverMax <= 49_995
  {
    if cfg.holdoverMax <= 49_995 {
      ReachableIsSound(cfg, []);
      hide Permitted, Plausible, Covered, Inv, Run;
      forall ops: seq<Op>, now: nat, truth: real
        | Permitted(Run(cfg, INITIAL, ops), now, cfg.holdoverMax) && Plausible(Run(cfg, INITIAL, ops), now, truth, ANCHOR_ERROR)
        ensures Covered(Run(cfg, INITIAL, ops), now, truth)
      {
        DispersionCoversError(Run(cfg, INITIAL, ops), now, cfg.holdoverMax, truth);
      }
    } else {
      CapIsOutgrown(cfg);
    }
  }
}
