/** The disciplined clock: samples, rejections, holdover and the error bound it advertises
    (main/clock_discipline.c). Floating-point values are real numbers. */
module ClockDiscipline {
  import opened Arith
  import opened Bytes
  import opened Esp
  import opened Timestamps

  const MAX_QERR_NS: int := 50_000
  const MAX_REJECTS: nat := 3
  const BASE_DISPERSION_NS: int := 100_000
  const WANDER_NS_PER_SECOND: int := 20_000
  const MAX_DISPERSION_NS: int := 1_000_000_000
  const MAX_ACCEPTABLE_NS: int := 250_000_000
  const MAX_FREQUENCY: real := 200.0
  const GAIN: real := 0.125
  const NTP_EPOCH_DELTA: int := 2_208_988_800

  datatype State = Unsynchronized | Acquiring | Synchronized | Holdover | FailClosed

  /** The two build-time settings. */
  datatype Config = Config(lockSamples: nat, holdoverMax: nat)

  datatype Clock = Clock(
    solutionValid: bool,
    anchorCapture: nat, anchorUtc: int,
    lastCapture: nat, lastUtc: int,
    referenceValid: bool, referenceCapture: nat, referenceUtc: int,
    phaseError: int, frequency: real,
    accepted: nat, rejected: nat, rejects: nat,
    leap: int, state: State)

  datatype Sample = Sample(capture: nat, utc: int, qerr: int, leap: int)

  const LEAP_UNKNOWN: int := 3
  const INITIAL := Clock(false, 0, 0, 0, 0, false, 0, 0, 0, 0.0, 0, 0, 0, LEAP_UNKNOWN, Unsynchronized)

  // ---------------------------------------------------------------- arithmetic on samples

  function AbsReal(x: real): real {
    if x < 0.0 then -x else x
  }

  /** Nearest integer, halves away from zero. */
  function LlRound(x: real): int {
    if x >= 0.0 then (x + 0.5).Floor else -(-x + 0.5).Floor
  }

  function Clamped(f: real): real {
    if f > MAX_FREQUENCY then MAX_FREQUENCY else if f < -MAX_FREQUENCY then -MAX_FREQUENCY else f
  }

  /** One step of the frequency filter. */
  function Filtered(f: real, target: real): real {
    Clamped((1.0 - GAIN) * f + GAIN * target)
  }

  /** The correction that would have made the local interval come out right, in parts per million. */
  function TargetFrequency(localUs: nat, utcSeconds: int): real
    requires utcSeconds > 0
  {
    var expected := utcSeconds as real * 1_000_000.0;
    -(((localUs as real - expected) / expected) * 1_000_000.0)
  }

  /** Seconds that have passed when the local counter says `elapsedUs`. */
  function Corrected(elapsedUs: nat, frequency: real): real {
    (elapsedUs as real / 1_000_000.0) * (1.0 + frequency / 1_000_000.0)
  }

  /** UTC carried forward from the anchor. */
  function Extrapolated(utc: int, elapsedUs: nat, frequency: real): real {
    utc as real + Corrected(elapsedUs, frequency)
  }

  // ---------------------------------------------------------------- the specification of each step

  function Reject(c: Clock): Clock {
    var d := c.(rejected := c.rejected + 1, rejects := c.rejects + 1);
    if d.rejects >= MAX_REJECTS then d.(solutionValid := false, state := Acquiring, accepted := 0, frequency := 0.0)
    else d
  }

  function Anchored(c: Clock, s: Sample): Clock {
    c.(anchorCapture := s.capture, anchorUtc := s.utc, lastCapture := s.capture, lastUtc := s.utc)
  }

  function Referenced(c: Clock, s: Sample): Clock {
    c.(referenceValid := true, referenceCapture := s.capture, referenceUtc := s.utc, leap := s.leap)
  }

  /** Phase of a sample against the clock carried forward with the frequency in force. */
  function PhaseError(c: Clock, s: Sample, frequency: real): int
    requires s.capture >= c.anchorCapture
  {
    LlRound((s.utc as real - Extrapolated(c.anchorUtc, s.capture - c.anchorCapture, frequency)) * 1_000_000_000.0) + s.qerr
  }

  function Started(c: Clock, s: Sample): Clock {
    Referenced(Anchored(c, s), s).(phaseError := s.qerr, frequency := 0.0, accepted := 1, rejected := 0, rejects := 0,
                                   state := Acquiring, solutionValid := true)
  }

  /** A phase beyond the limit moves the anchor, forgets the frequency and counts as a rejection. */
  function FarOff(c: Clock, s: Sample, phase: int): Clock {
    Reject(Anchored(c, s).(phaseError := phase, frequency := 0.0, accepted := 1))
  }

  function Admitted(cfg: Config, c: Clock, s: Sample, phase: int, filtered: real): Clock {
    Referenced(Anchored(c, s), s).(phaseError := phase, frequency := filtered, accepted := c.accepted + 1, rejects := 0,
                                   state := if c.accepted + 1 >= cfg.lockSamples then Synchronized else Acquiring)
  }

  function Disciplined(cfg: Config, c: Clock, s: Sample): (EspErr, Clock)
    requires c.anchorCapture == c.lastCapture < s.capture && c.lastUtc < s.utc
  {
    var filtered := Filtered(c.frequency, TargetFrequency(s.capture - c.lastCapture, s.utc - c.lastUtc));
    var phase := PhaseError(c, s, filtered);
    if Abs(phase) > MAX_ACCEPTABLE_NS then (INVALID_RESPONSE, FarOff(c, s, phase))
    else (OK, Admitted(cfg, c, s, phase, filtered))
  }

  function Submitted(cfg: Config, c: Clock, s: Sample): (EspErr, Clock)
    requires c.anchorCapture == c.lastCapture
  {
    if s.capture == 0 || s.utc <= 0 then (INVALID_ARG, c)
    else if Abs(s.qerr) > MAX_QERR_NS then (INVALID_RESPONSE, Reject(c))
    else if !c.solutionValid then (OK, Started(c, s))
    else if s.capture <= c.lastCapture || s.utc <= c.lastUtc then (INVALID_STATE, Reject(c))
    else Disciplined(cfg, c, s)
  }

  function HoldoverSeconds(c: Clock, now: nat): u32 {
    if !c.solutionValid || now < c.lastCapture then 0 else (now - c.lastCapture) / 1_000_000 % TWO_32
  }

  function Enforced(cfg: Config, c: Clock, clock: Option<nat>): Clock {
    if !c.solutionValid || clock.None? then c
    else
      var h := HoldoverSeconds(c, clock.value);
      if h > cfg.holdoverMax then c.(solutionValid := false, state := FailClosed)
      else if h > 0 && c.state == Synchronized then c.(state := Holdover)
      else c
  }

  function ReferenceUpdated(c: Clock, ready: bool): Clock {
    if c.solutionValid then c else c.(state := if ready then Acquiring else Unsynchronized)
  }

  /** The advertised root dispersion in 2 to the -16 s. */
  function Dispersion(c: Clock, holdoverSeconds: nat): u32 {
    var ns := BASE_DISPERSION_NS + Abs(c.phaseError) + WANDER_NS_PER_SECOND * holdoverSeconds;
    var capped := if ns > MAX_DISPERSION_NS then MAX_DISPERSION_NS else ns;
    capped * 65536 / 1_000_000_000
  }

  predicate Serving(c: Clock) {
    c.solutionValid && (c.state == Synchronized || c.state == Holdover)
  }

  function ServedUtc(c: Clock, now: nat): real
    requires now >= c.anchorCapture
  {
    Extrapolated(c.anchorUtc, now - c.anchorCapture, c.frequency)
  }

  function Stamp(utc: real): Timestamp
    requires utc >= 0.0
  {
    var whole := utc.Floor;
    Timestamp((whole + NTP_EPOCH_DELTA) % TWO_32, ((utc - whole as real) * 4294967296.0).Floor)
  }

  function NtpTimestamp(c: Clock, clock: Option<nat>): Option<Timestamp> {
    if !Serving(c) || clock.None? || clock.value < c.anchorCapture || ServedUtc(c, clock.value) < 0.0 then None
    else Some(Stamp(ServedUtc(c, clock.value)))
  }

  // ---------------------------------------------------------------- the invariant

  /** What every step keeps: extrapolation starts at the last sample, the frequency is within its limit, and
      time is served only from a valid solution. */
  predicate Inv(c: Clock) {
    && c.anchorCapture == c.lastCapture && c.anchorUtc == c.lastUtc
    && -MAX_FREQUENCY <= c.frequency <= MAX_FREQUENCY
    && (c.state == Synchronized || c.state == Holdover ==> c.solutionValid)
    && (c.solutionValid ==>
          && c.state != Unsynchronized && c.state != FailClosed
          && c.anchorCapture > 0 && c.anchorUtc > 0 && c.accepted >= 1 && c.rejects < MAX_REJECTS
          && c.referenceValid && c.referenceCapture <= c.anchorCapture && 0 < c.referenceUtc <= c.anchorUtc)
  }

  datatype Op = Submit(sample: Sample) | Enforce(clock: Option<nat>) | UpdateReference(ready: bool)

  function Step(cfg: Config, c: Clock, op: Op): Clock
    requires c.anchorCapture == c.lastCapture
  {
    match op
    case Submit(s) => Submitted(cfg, c, s).1
    case Enforce(clock) => Enforced(cfg, c, clock)
    case UpdateReference(ready) => ReferenceUpdated(c, ready)
  }

  lemma StepKeepsInv(cfg: Config, c: Clock, op: Op)
    requires Inv(c)
    ensures Inv(Step(cfg, c, op))
  {
    hide TargetFrequency, LlRound, Extrapolated;
  }

  function Run(cfg: Config, c: Clock, ops: seq<Op>): (r: Clock)
    requires Inv(c)
    ensures Inv(r)
  {
    if ops == [] then c
    else
      var before := Run(cfg, c, ops[..|ops| - 1]);
      StepKeepsInv(cfg, before, ops[|ops| - 1]);
      Step(cfg, before, ops[|ops| - 1])
  }

  /** Every state reachable from start-up. */
  lemma ReachableIsSound(cfg: Config, ops: seq<Op>)
    ensures Inv(INITIAL) && Inv(Run(cfg, INITIAL, ops))
  {}

  // ---------------------------------------------------------------- the routines

  class ClockContext {
    const lockSamples: nat
    const holdoverMax: nat
    var solutionValid: bool
    var anchorCapture: nat
    var anchorUtc: int
    var lastCapture: nat
    var lastUtc: int
    var referenceValid: bool
    var referenceCapture: nat
    var referenceUtc: int
    var phaseError: int
    var frequency: real
    var accepted: nat
    var rejected: nat
    var rejects: nat
    var leap: int
    var state: State

    constructor (lockSamples: nat, holdoverMax: nat)
      ensures View() == INITIAL && Settings() == Config(lockSamples, holdoverMax)
    {
      this.lockSamples, this.holdoverMax := lockSamples, holdoverMax;
      solutionValid, anchorCapture, anchorUtc, lastCapture, lastUtc := false, 0, 0, 0, 0;
      referenceValid, referenceCapture, referenceUtc, phaseError, frequency := false, 0, 0, 0, 0.0;
      accepted, rejected, rejects, leap, state := 0, 0, 0, LEAP_UNKNOWN, Unsynchronized;
    }

    function Settings(): Config {
      Config(lockSamples, holdoverMax)
    }

    function View(): Clock
      reads this
    {
      Clock(solutionValid, anchorCapture, anchorUtc, lastCapture, lastUtc, referenceValid, referenceCapture, referenceUtc,
            phaseError, frequency, accepted, rejected, rejects, leap, state)
    }

    method RejectSample()
      modifies this
      ensures View() == Reject(old(View()))
    {
      rejected := rejected + 1;
      rejects := rejects + 1;
      if rejects >= MAX_REJECTS {
        solutionValid := false;
        state := Acquiring;
        accepted := 0;
        frequency := 0.0;
      }
    }

    /** Both time pairs move to the sample. */
    method Anchor(s: Sample)
      modifies this`anchorCapture, this`anchorUtc, this`lastCapture, this`lastUtc
      ensures View() == Anchored(old(View()), s)
    {
      anchorCapture, anchorUtc := s.capture, s.utc;
      lastCapture, lastUtc := s.capture, s.utc;
    }

    /** The reference time and the leap indicator follow it. */
    method Reference(s: Sample)
      modifies this`referenceValid, this`referenceCapture, this`referenceUtc, this`leap
      ensures View() == Referenced(old(View()), s)
    {
      referenceValid, referenceCapture, referenceUtc, leap := true, s.capture, s.utc, s.leap;
    }

    /** The first sample of a solution. */
    method StartSolution(s: Sample)
      modifies this
      ensures View() == Started(old(View()), s)
    {
      Anchor(s);
      Reference(s);
      hide Anchored, Referenced;
      phaseError, frequency := s.qerr, 0.0;
      accepted, rejected, rejects := 1, 0, 0;
      state, solutionValid := Acquiring, true;
    }

    method SubmitSample(s: Sample) returns (err: EspErr)
      requires Inv(View())
      modifies this
      ensures err == Submitted(Settings(), old(View()), s).0 && View() == Submitted(Settings(), old(View()), s).1
      ensures Inv(View())
    {
      StepKeepsInv(Settings(), View(), Submit(s));
      hide Disciplined, Reject, Started, Inv;
      if s.capture == 0 || s.utc <= 0 { return INVALID_ARG; }
      if Abs(s.qerr) > MAX_QERR_NS {
        RejectSample();
        return INVALID_RESPONSE;
      }
      if !solutionValid {
        StartSolution(s);
        return OK;
      }
      if s.capture <= lastCapture || s.utc <= lastUtc {
        RejectSample();
        return INVALID_STATE;
      }
      err := Discipline(s);
    }

    /** Frequency and phase of a sample that is later than the last one. */
    method Discipline(s: Sample) returns (err: EspErr)
      requires anchorCapture == lastCapture < s.capture && lastUtc < s.utc
      modifies this
      ensures err == Disciplined(Settings(), old(View()), s).0 && View() == Disciplined(Settings(), old(View()), s).1
    {
      hide TargetFrequency, Filtered, LlRound, Extrapolated, FarOff, Admitted;
      var filtered := Filtered(frequency, TargetFrequency(s.capture - lastCapture, s.utc - lastUtc));
      var predicted := Extrapolated(anchorUtc, s.capture - anchorCapture, filtered);
      var phase := LlRound((s.utc as real - predicted) * 1_000_000_000.0) + s.qerr;
      if Abs(phase) > MAX_ACCEPTABLE_NS {
        ReAnchor(s, phase);
        return INVALID_RESPONSE;
      }
      Admit(s, phase, filtered);
      return OK;
    }

    method ReAnchor(s: Sample, phase: int)
      modifies this
      ensures View() == FarOff(old(View()), s, phase)
    {
      Anchor(s);
      phaseError, frequency, accepted := phase, 0.0, 1;
      RejectSample();
    }

    method Admit(s: Sample, phase: int, filtered: real)
      modifies this
      ensures View() == Admitted(Settings(), old(View()), s, phase, filtered)
    {
      Anchor(s);
      Reference(s);
      hide Anchored, Referenced;
      phaseError, frequency := phase, filtered;
      accepted, rejects := accepted + 1, 0;
      state := if accepted >= lockSamples then Synchronized else Acquiring;
    }

    method EnforceHoldoverPolicy(clock: Option<nat>)
      requires Inv(View())
      modifies this`solutionValid, this`state
      ensures View() == Enforced(Settings(), old(View()), clock) && Inv(View())
      ensures clock.Some? && Serving(View()) ==> HoldoverSeconds(View(), clock.value) <= holdoverMax
    {
      if !solutionValid || clock.None? { return; }
      var holdover := HoldoverSeconds(View(), clock.value);
      if holdover > holdoverMax {
        solutionValid, state := false, FailClosed;
      } else if holdover > 0 && state == Synchronized {
        state := Holdover;
      }
    }

    method UpdateReferenceState(ready: bool)
      requires Inv(View())
      modifies this`state
      ensures View() == ReferenceUpdated(old(View()), ready) && Inv(View())
    {
      if !solutionValid && ready {
        state := Acquiring;
      } else if !solutionValid && !ready {
        state := Unsynchronized;
      }
    }
  }

  // ---------------------------------------------------------------- every answer

  /** When a sample is accepted: it has a capture time and a UTC time, its quantization error is at most 50 us,
      and it is the first of a solution, or later than the last one with a phase of at most 250 ms. */
  lemma AcceptedIff(cfg: Config, c: Clock, s: Sample)
    requires Inv(c)
    ensures Submitted(cfg, c, s).0 == OK
      <==> && s.capture > 0 && s.utc > 0 && -50_000 <= s.qerr <= 50_000
           && (c.solutionValid ==>
                 && s.capture > c.lastCapture && s.utc > c.lastUtc
                 && var target := TargetFrequency(s.capture - c.lastCapture, s.utc - c.lastUtc);
                    -250_000_000 <= PhaseError(c, s, Filtered(c.frequency, target)) <= 250_000_000)
  {
    hide TargetFrequency, Filtered, LlRound, Extrapolated;
  }

  /** What a rejection leaves: two counters one higher, or, the third time in a row, no solution. */
  function Rejected(c: Clock): Clock {
    if c.rejects + 1 < 3 then c.(rejected := c.rejected + 1, rejects := c.rejects + 1)
    else c.(rejected := c.rejected + 1, rejects := c.rejects + 1, solutionValid := false, state := Acquiring,
            accepted := 0, frequency := 0.0)
  }

  /** What a sample that is not accepted is answered, and what it leaves: nothing of one without its times; a
      rejection of one with too large a quantization error, or one that is not later; and of one too far off a
      rejection from a clock anchored at it. */
  lemma RefusalIs(cfg: Config, c: Clock, s: Sample)
    requires Inv(c) && Submitted(cfg, c, s).0 != OK
    ensures Submitted(cfg, c, s)
      == if s.capture == 0 || s.utc <= 0 then (INVALID_ARG, c)
         else if s.qerr < -50_000 || s.qerr > 50_000 then (INVALID_RESPONSE, Rejected(c))
         else if s.capture <= c.lastCapture || s.utc <= c.lastUtc then (INVALID_STATE, Rejected(c))
         else
           var phase := PhaseError(c, s, Filtered(c.frequency, TargetFrequency(s.capture - c.lastCapture, s.utc - c.lastUtc)));
           (INVALID_RESPONSE,
            Rejected(c.(anchorCapture := s.capture, anchorUtc := s.utc, lastCapture := s.capture, lastUtc := s.utc,
                        phaseError := phase, frequency := 0.0, accepted := 1)))
  {
    hide TargetFrequency, Filtered, LlRound, Extrapolated;
  }

  /** What an accepted sample leaves: a clock anchored at it with its leap indicator and no rejections in a row -
      the first of a solution, or one more, serving from the lock setting on. */
  lemma AcceptanceIs(cfg: Config, c: Clock, s: Sample)
    requires Inv(c) && Submitted(cfg, c, s).0 == OK
    ensures var d := Submitted(cfg, c, s).1;
      && d.anchorCapture == d.lastCapture == d.referenceCapture == s.capture
      && d.anchorUtc == d.lastUtc == d.referenceUtc == s.utc && d.referenceValid && d.leap == s.leap
      && d.solutionValid && d.rejects == 0 && d.rejected == (if c.solutionValid then c.rejected else 0)
      && d.accepted == (if c.solutionValid then c.accepted + 1 else 1)
      && d.state == (if c.solutionValid && d.accepted >= cfg.lockSamples then Synchronized else Acquiring)
      && (!c.solutionValid ==> d.phaseError == s.qerr && d.frequency == 0.0)
      && (c.solutionValid ==>
            && d.frequency == Filtered(c.frequency, TargetFrequency(s.capture - c.lastCapture, s.utc - c.lastUtc))
            && d.phaseError == PhaseError(c, s, d.frequency))
  {
    hide TargetFrequency, Filtered, LlRound, Extrapolated;
  }

  /** The holdover policy in microseconds since the last sample: after a whole second a synchronized clock is in
      holdover, and once more than the limit of whole seconds has passed any solution is given up. */
  lemma HoldoverIs(cfg: Config, c: Clock, now: nat)
    requires Inv(c) && c.solutionValid && c.lastCapture <= now < c.lastCapture + TWO_32 * 1_000_000
    ensures var since := now - c.lastCapture;
      Enforced(cfg, c, Some(now))
        == if since >= (cfg.holdoverMax + 1) * 1_000_000 then c.(solutionValid := false, state := FailClosed)
           else if since >= 1_000_000 && c.state == Synchronized then c.(state := Holdover)
           else c
  {}

  /** And without a solution the state shows whether the receiver and its pulse could give one. */
  lemma WaitingShows(cfg: Config, c: Clock, ready: bool, clock: Option<nat>)
    requires !c.solutionValid
    ensures ReferenceUpdated(c, ready) == c.(state := if ready then Acquiring else Unsynchronized)
    ensures Enforced(cfg, c, clock) == c && NtpTimestamp(c, clock) == None
  {}

  // ---------------------------------------------------------------- lock before service

  /** Samples accepted in a run. */
  function Accepted(cfg: Config, c: Clock, ops: seq<Op>): nat
    requires Inv(c)
  {
    if ops == [] then 0
    else
      var init, op := ops[..|ops| - 1], ops[|ops| - 1];
      Accepted(cfg, c, init) + if op.Submit? && Submitted(cfg, Run(cfg, c, init), op.sample).0 == OK then 1 else 0
  }

  lemma {:induction false} AcceptedCountsUp(cfg: Config, c: Clock, ops: seq<Op>)
    requires Inv(c) && !c.solutionValid
    ensures var r := Run(cfg, c, ops);
      (r.solutionValid ==> r.accepted <= Accepted(cfg, c, ops)) && (Serving(r) ==> cfg.lockSamples <= Accepted(cfg, c, ops))
  {
    if ops != [] {
      var init, op := ops[..|ops| - 1], ops[|ops| - 1];
      AcceptedCountsUp(cfg, c, init);
      CountStep(cfg, Run(cfg, c, init), op, Accepted(cfg, c, init));
    }
  }

  lemma CountStep(cfg: Config, c: Clock, op: Op, count: nat)
    requires Inv(c) && (c.solutionValid ==> c.accepted <= count) && (Serving(c) ==> cfg.lockSamples <= count)
    ensures var r := Step(cfg, c, op);
      var after := count + if op.Submit? && Submitted(cfg, c, op.sample).0 == OK then 1 else 0;
      (r.solutionValid ==> r.accepted <= after) && (Serving(r) ==> cfg.lockSamples <= after)
  {
    hide TargetFrequency, Filtered, LlRound, Extrapolated;
  }

  /** Fail closed: once the holdover limit has been exceeded, no time is served until as many new samples
      have been accepted as a first lock takes, whatever else happens. */
  lemma FailedClosedStaysClosed(cfg: Config, c: Clock, now: nat, ops: seq<Op>, clock: Option<nat>)
    requires Inv(c) && HoldoverSeconds(c, now) > cfg.holdoverMax
    ensures var closed := Enforced(cfg, c, Some(now));
      && Inv(closed) && closed.state == FailClosed
      && (NtpTimestamp(Run(cfg, closed, ops), clock).Some? ==> Accepted(cfg, closed, ops) >= cfg.lockSamples)
  {
    StepKeepsInv(cfg, c, Enforce(Some(now)));
    AcceptedCountsUp(cfg, Enforced(cfg, c, Some(now)), ops);
  }

  /** Three samples refused one after another end a solution, whatever the reasons. */
  lemma ThreeRejectionsEndSolution(cfg: Config, c: Clock, s1: Sample, s2: Sample, s3: Sample)
    requires Inv(c)
    ensures var (e1, c1) := Submitted(cfg, c, s1);
      Inv(c1) &&
      var (e2, c2) := Submitted(cfg, c1, s2);
      Inv(c2) &&
      var (e3, c3) := Submitted(cfg, c2, s3);
      Refused(e1) && Refused(e2) && Refused(e3) ==> !c3.solutionValid && !Serving(c3)
  {
    StepKeepsInv(cfg, c, Submit(s1));
    var c1 := Submitted(cfg, c, s1).1;
    StepKeepsInv(cfg, c1, Submit(s2));
    var c2 := Submitted(cfg, c1, s2).1;
    RefusalCounts(cfg, c, s1);
    RefusalCounts(cfg, c1, s2);
    RefusalCounts(cfg, c2, s3);
    hide Submitted, Inv;
  }

  predicate Refused(e: EspErr) {
    e == INVALID_RESPONSE || e == INVALID_STATE
  }

  lemma RefusalCounts(cfg: Config, c: Clock, s: Sample)
    requires Inv(c)
    ensures var (e, d) := Submitted(cfg, c, s);
      Refused(e) ==> d.rejects == c.rejects + 1 && (d.rejects >= MAX_REJECTS ==> !d.solutionValid && d.state == Acquiring)
  {
    hide TargetFrequency, Filtered, LlRound, Extrapolated;
  }
}
