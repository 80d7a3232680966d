/** Cooldown deadlines that survive reboots: scheduler-started ACME transactions and automatic TLS
    handoffs (main/web_console.c). A power cut may fall between any two durable actions. */
module Cooldown {
  import opened Esp

  /** Six hours. */
  const COOLDOWN: int := 21_600

  // ---------------------------------------------------------------- renewal attempts

  datatype Attempt = Attempt(count: nat, lastAttempt: int, retryNotBefore: int, wasInProgress: bool)

  const NO_ATTEMPT := Attempt(0, 0, 0, false)

  /** The scheduler fields the gate reads; `loaded` once the task has been started. */
  datatype Ram = Ram(loaded: bool, recovered: bool, preflightReady: bool, eligible: bool, inProgress: bool,
                     count: nat, lastAttempt: int, retryNotBefore: int)

  const COLD := Ram(false, false, false, false, false, 0, 0, 0)

  datatype System = System(nvs: Option<Attempt>, ram: Ram)

  /** Where power fails during an execution. */
  datatype PowerCut = BeforePersist | AfterPersist | AfterStart | Never

  datatype Event =
    | Boot(load: EspErr)
    | Evaluate(eligible: bool, now: int)
    | Execute(clock: Option<int>, persist: EspErr, finish: EspErr, cut: PowerCut)

  function Booted(s: System, load: EspErr): System {
    if load != OK then System(s.nvs, COLD)
    else
      var r := if s.nvs.Some? then s.nvs.value else NO_ATTEMPT;
      System(s.nvs, Ram(true, r.wasInProgress, false, false, false, r.count, r.lastAttempt, r.retryNotBefore))
  }

  function Evaluated(s: System, eligible: bool, now: int): System {
    if !s.ram.loaded then s
    else
      var clear := s.ram.lastAttempt == 0 || now <= 0 || now >= s.ram.retryNotBefore;
      s.(ram := s.ram.(eligible := eligible, preflightReady := eligible && !s.ram.inProgress && clear))
  }

  /** The gate as `renewal_scheduler_execute_if_ready` evaluates it. */
  predicate GateOpen(r: Ram, clock: Option<int>) {
    && r.loaded && r.preflightReady && r.eligible && !r.inProgress
    && clock.Some? && clock.value > 0
    && !(r.retryNotBefore > 0 && clock.value < r.retryNotBefore)
  }

  function Consumed(r: Ram, now: int): Ram {
    r.(inProgress := true, preflightReady := false, count := r.count + 1, lastAttempt := now, retryNotBefore := now + COOLDOWN)
  }

  function Recorded(r: Ram, inProgress: bool): Attempt {
    Attempt(r.count, r.lastAttempt, r.retryNotBefore, inProgress)
  }

  /** System after an execution and the start time of the transaction, if one was started. */
  function Executed(s: System, e: Event): (System, Option<int>)
    requires e.Execute?
  {
    if !GateOpen(s.ram, e.clock) then (s, None)
    else
      var now := e.clock.value;
      var ram := Consumed(s.ram, now);
      if e.cut == BeforePersist then (System(s.nvs, COLD), None)
      else if e.persist != OK then (System(s.nvs, ram.(inProgress := false, preflightReady := false)), None)
      else
        var nvs := Some(Recorded(ram, true));
        if e.cut == AfterPersist then (System(nvs, COLD), None)
        else if e.cut == AfterStart then (System(nvs, COLD), Some(now))
        else
          var done := ram.(inProgress := false, preflightReady := false);
          (System(if e.finish == OK then Some(Recorded(done, false)) else nvs, done), Some(now))
  }

  function Next(s: System, e: Event): (System, Option<int>) {
    match e
    case Boot(load) => (Booted(s, load), None)
    case Evaluate(eligible, now) => (Evaluated(s, eligible, now), None)
    case Execute(_, _, _, _) => Executed(s, e)
  }

  /** The scheduler with its persisted record; `Execute` is cut short where the event says. */
  class Scheduler {
    var nvs: Option<Attempt>
    var ram: Ram
    /** Start times of the transactions so far. */
    ghost var starts: seq<int>

    constructor (record: Option<Attempt>)
      ensures nvs == record && ram == COLD && starts == []
    {
      nvs, ram := record, COLD;
      starts := [];
    }

    function View(): System
      reads this
    {
      System(nvs, ram)
    }

    method Start(load: EspErr)
      modifies this
      ensures View() == Booted(old(View()), load) && starts == old(starts)
    {
      ram := COLD;
      if load != OK { return; }
      var r := if nvs.Some? then nvs.value else NO_ATTEMPT;
      ram := ram.(count := r.count, lastAttempt := r.lastAttempt, retryNotBefore := r.retryNotBefore);
      ram := ram.(loaded := true, recovered := r.wasInProgress);
    }

    method EvaluateNow(eligible: bool, now: int)
      modifies this
      ensures View() == Evaluated(old(View()), eligible, now) && starts == old(starts)
    {
      if !ram.loaded { return; }
      var cooldownClear := ram.lastAttempt == 0 || now <= 0 || now >= ram.retryNotBefore;
      ram := ram.(eligible := eligible, preflightReady := eligible && !ram.inProgress && cooldownClear);
    }

    method Persist(inProgress: bool, err: EspErr) returns (result: EspErr)
      modifies this`nvs
      ensures result == err && nvs == if err == OK then Some(Recorded(ram, inProgress)) else old(nvs)
    {
      if err == OK { nvs := Some(Attempt(ram.count, ram.lastAttempt, ram.retryNotBefore, inProgress)); }
      return err;
    }

    method ExecuteIfReady(clock: Option<int>, persist: EspErr, finish: EspErr, cut: PowerCut)
      modifies this
      ensures var (s, start) := Executed(old(View()), Execute(clock, persist, finish, cut));
        View() == s && starts == old(starts) + if start.Some? then [start.value] else []
    {
      if !ram.loaded || !ram.preflightReady || !ram.eligible || ram.inProgress { return; }
      if clock.None? || clock.value <= 0 { return; }
      var now := clock.value;
      if ram.retryNotBefore > 0 && now < ram.retryNotBefore { return; }
      ram := ram.(inProgress := true, preflightReady := false);
      ram := ram.(count := ram.count + 1, lastAttempt := now);
      ram := ram.(retryNotBefore := now + COOLDOWN);
      if cut == BeforePersist { ram := COLD; return; }
      var err := Persist(true, persist);
      if err != OK {
        ram := ram.(inProgress := false, preflightReady := false);
        return;
      }
      if cut == AfterPersist { ram := COLD; return; }
      starts := starts + [now];
      if cut == AfterStart { ram := COLD; return; }
      ram := ram.(inProgress := false, preflightReady := false);
      err := Persist(false, finish);
    }
  }

  function StateAfter(s: System, es: seq<Event>): System {
    if es == [] then s else Next(StateAfter(s, es[..|es| - 1]), es[|es| - 1]).0
  }

  function Starts(s: System, es: seq<Event>): seq<int> {
    if es == [] then []
    else
      var init := es[..|es| - 1];
      var start := Next(StateAfter(s, init), es[|es| - 1]).1;
      Starts(s, init) + if start.Some? then [start.value] else []
  }

  predicate Spaced(times: seq<int>, gap: int) {
    forall i :: 0 <= i < |times| - 1 ==> times[i + 1] - times[i] >= gap
  }

  /** The flash and, once loaded, the memory hold a deadline no earlier than `bound`; a bound is positive. */
  predicate Guards(s: System, bound: int) {
    && 0 < bound
    && s.nvs.Some? && s.nvs.value.retryNotBefore >= bound
    && (s.ram.loaded ==> s.ram.retryNotBefore >= bound)
  }

  predicate GuardsLast(s: System, starts: seq<int>) {
    starts != [] ==> Guards(s, starts[|starts| - 1] + COOLDOWN)
  }

  lemma NextKeepsGuard(s: System, e: Event, starts: seq<int>)
    requires GuardsLast(s, starts)
    ensures var (next, start) := Next(s, e);
      && (start.Some? && starts != [] ==> start.value - starts[|starts| - 1] >= COOLDOWN)
      && GuardsLast(next, if start.Some? then starts + [start.value] else starts)
  {}

  /** Over every run of boots, evaluations and executions with power cuts anywhere, from any persisted
      record, started transactions are at least six hours apart - whatever the clock does. */
  lemma {:induction false} StartsAreSpaced(s: System, es: seq<Event>)
    requires s.ram == COLD
    ensures Spaced(Starts(s, es), COOLDOWN) && GuardsLast(StateAfter(s, es), Starts(s, es))
  {
    if es != [] {
      var init := es[..|es| - 1];
      StartsAreSpaced(s, init);
      NextKeepsGuard(StateAfter(s, init), es[|es| - 1], Starts(s, init));
    }
  }

  // ---------------------------------------------------------------- when a transaction starts

  predicate AllEvaluate(es: seq<Event>) {
    forall i :: 0 <= i < |es| ==> es[i].Evaluate?
  }

  /** Of several evaluations the last one counts. */
  lemma {:induction false} LastEvaluationCounts(s: System, evals: seq<Event>)
    requires AllEvaluate(evals) && evals != []
    ensures var last := evals[|evals| - 1];
      StateAfter(s, evals) == Evaluated(s, last.eligible, last.now)
  {
    var init := evals[..|evals| - 1];
    if init == [] {
      assert StateAfter(s, init) == s;
    } else {
      LastEvaluationCounts(s, init);
    }
  }

  /** From a loaded, idle scheduler: evaluations and then an execution start a transaction if and only if the
      last evaluation found it eligible with the cooldown over or no usable clock, and the execution has a
      clock that is past the deadline, gets its record written and keeps its power until then. */
  lemma StartsIff(s: System, evals: seq<Event>, e: Event)
    requires s.ram.loaded && !s.ram.inProgress && AllEvaluate(evals) && evals != [] && e.Execute?
    ensures var last := evals[|evals| - 1];
      var cleared := last.eligible && (s.ram.lastAttempt == 0 || last.now <= 0 || s.ram.retryNotBefore <= last.now);
      var ready := e.clock.Some? && e.clock.value > 0 && s.ram.retryNotBefore <= e.clock.value;
      Next(StateAfter(s, evals), e).1
        == if cleared && ready && e.persist == OK && (e.cut == AfterStart || e.cut == Never) then e.clock else None
  {
    LastEvaluationCounts(s, evals);
    hide StateAfter;
  }

  /** No run leaves a loaded scheduler in the middle of a transaction, so this covers every reachable one. */
  lemma {:induction false} LoadedIsIdle(s: System, es: seq<Event>)
    requires s.ram == COLD
    ensures StateAfter(s, es).ram.loaded ==> !StateAfter(s, es).ram.inProgress
  {
    if es != [] { LoadedIsIdle(s, es[..|es| - 1]); }
  }

  /** In a record, and in memory, the deadline is six hours past the last attempt, or there has been none. */
  predicate SixHours(lastAttempt: int, retryNotBefore: int) {
    (lastAttempt == 0 && retryNotBefore == 0) || (lastAttempt > 0 && retryNotBefore == lastAttempt + 21_600)
  }

  lemma {:induction false} DeadlineIsSixHours(es: seq<Event>)
    ensures var s := StateAfter(System(None, COLD), es);
      && (s.nvs.Some? ==> SixHours(s.nvs.value.lastAttempt, s.nvs.value.retryNotBefore))
      && (s.ram.loaded ==> SixHours(s.ram.lastAttempt, s.ram.retryNotBefore))
  {
    if es != [] { DeadlineIsSixHours(es[..|es| - 1]); }
  }

  /** Over every run from an empty flash: boot, evaluate and execute start a transaction if and only if the
      record could be read, the last evaluation found it eligible six hours after the recorded attempt or
      without a clock, and the execution comes that late with a clock, a write and power. */
  lemma BootedStartsIff(es: seq<Event>, load: EspErr, evals: seq<Event>, e: Event)
    requires AllEvaluate(evals) && evals != [] && e.Execute?
    ensures var s := StateAfter(System(None, COLD), es);
      var attempted := s.nvs.Some? && s.nvs.value.lastAttempt > 0;
      var deadline := if attempted then s.nvs.value.lastAttempt + 21_600 else 0;
      var last := evals[|evals| - 1];
      var cleared := last.eligible && (!attempted || last.now <= 0 || deadline <= last.now);
      var ready := e.clock.Some? && e.clock.value > 0 && deadline <= e.clock.value;
      Next(StateAfter(s, [Boot(load)] + evals), e).1
        == if load == OK && cleared && ready && e.persist == OK && (e.cut == AfterStart || e.cut == Never) then e.clock else None
  {
    var s := StateAfter(System(None, COLD), es);
    DeadlineIsSixHours(es);
    BootFirst(s, load, evals);
    var booted := Booted(s, load);
    if load == OK { StartsIff(booted, evals, e); } else { LastEvaluationCounts(booted, evals); }
    hide StateAfter;
  }

  lemma {:induction false} BootFirst(s: System, load: EspErr, evals: seq<Event>)
    ensures StateAfter(s, [Boot(load)] + evals) == StateAfter(Booted(s, load), evals)
    decreases |evals|
  {
    var all := [Boot(load)] + evals;
    hide Booted, Evaluated, Executed;
    if evals == [] {
      assert all[..0] == [] && StateAfter(s, []) == s;
    } else {
      assert all[..|all| - 1] == [Boot(load)] + evals[..|evals| - 1];
      BootFirst(s, load, evals[..|evals| - 1]);
    }
  }

  /** In any state at all: nothing starts while a transaction is in progress or none is called for, and no
      evaluation readies one then. */
  lemma NothingStartsUncalled(s: System, e: Event)
    requires s.ram.inProgress || !s.ram.eligible || !s.ram.preflightReady || !s.ram.loaded
    ensures Next(s, e).1 == None
    ensures e.Evaluate? && Next(s, e).0.ram.preflightReady ==>
      if s.ram.loaded then e.eligible && !s.ram.inProgress else s.ram.preflightReady
  {}

  /** What a boot loads, and that nothing starts before the next evaluation. */
  lemma BootLoads(s: System, load: EspErr, e: Event)
    requires e.Execute?
    ensures Next(s, Boot(load)) == (Booted(s, load), None) && Next(Booted(s, load), e).1 == None
    ensures load != OK ==> Booted(s, load) == System(s.nvs, COLD)
    ensures load == OK ==>
      var r := if s.nvs.Some? then s.nvs.value else Attempt(0, 0, 0, false);
      Booted(s, load) == System(s.nvs, Ram(true, r.wasInProgress, false, false, false, r.count, r.lastAttempt, r.retryNotBefore))
  {}

  /** A record that cannot be written: nothing starts, the flash is as it was, and memory waits six hours and for
      another evaluation all the same. */
  lemma UnwrittenIsNotStarted(s: System, e: Event)
    requires e.Execute? && GateOpen(s.ram, e.clock) && e.cut != BeforePersist && e.persist != OK
    ensures var now := e.clock.value;
      Next(s, e)
        == (System(s.nvs, s.ram.(preflightReady := false, count := s.ram.count + 1, lastAttempt := now, retryNotBefore := now + 21_600)),
            None)
  {}

  /** What a start leaves: memory and flash count it, with its time and its deadline; the flash shows it in
      progress until its end has been written. */
  lemma StartIsRecorded(s: System, e: Event)
    requires e.Execute? && Next(s, e).1.Some?
    ensures var now, after := Next(s, e).1.value, Next(s, e).0;
      && after.nvs == Some(Attempt(s.ram.count + 1, now, now + 21_600, e.cut == AfterStart || e.finish != OK))
      && (if e.cut == AfterStart then after.ram == COLD
          else after.ram == s.ram.(preflightReady := false, count := s.ram.count + 1, lastAttempt := now, retryNotBefore := now + 21_600))
  {}

  // ---------------------------------------------------------------- TLS handoff

  datatype Handoff = Handoff(inProgress: bool, recovered: bool, count: nat, started: int, retryNotBefore: int, target: string)

  const NO_HANDOFF := Handoff(false, false, 0, 0, 0, "")

  datatype HandoffOp =
    | Reconcile(clock: Option<int>, write: EspErr)
    | Begin(target: string, now: int, write: EspErr)
    | Finish(success: bool, now: int, write: EspErr)

  /** The record, its error, and the record to write, before the write itself. */
  function HandoffStep(r: Handoff, op: HandoffOp): (EspErr, Option<Handoff>) {
    match op
    case Reconcile(clock, _) =>
      if !r.inProgress then (OK, None)
      else
        var now := if clock.Some? then clock.value else 0;
        var deadline := if now > 0 && r.retryNotBefore < now + COOLDOWN then now + COOLDOWN else r.retryNotBefore;
        (OK, Some(r.(inProgress := false, recovered := true, retryNotBefore := deadline)))
    case Begin(target, now, _) =>
      if target == "" || now <= 0 then (INVALID_ARG, None)
      else if r.inProgress then (INVALID_STATE, None)
      else if r.retryNotBefore > 0 && now < r.retryNotBefore then (TIMEOUT, None)
      else (OK, Some(Handoff(true, false, r.count + 1, now, now + COOLDOWN, target)))
    case Finish(success, now, _) =>
      var done := r.(inProgress := false, recovered := false);
      (OK, Some(if success then done.(retryNotBefore := 0, target := "")
                else if now > 0 then done.(retryNotBefore := now + COOLDOWN) else done))
  }

  function HandoffNext(r: Handoff, op: HandoffOp): (EspErr, Handoff) {
    var (err, record) := HandoffStep(r, op);
    if record.None? then (err, r) else if op.write == OK then (OK, record.value) else (op.write, r)
  }

  class HandoffStore {
    var nvs: Handoff

    constructor ()
      ensures nvs == NO_HANDOFF
    {
      nvs := NO_HANDOFF;
    }

    method Write(record: Handoff, err: EspErr) returns (result: EspErr)
      modifies this
      ensures result == err && nvs == if err == OK then record else old(nvs)
    {
      if err == OK { nvs := record; }
      return err;
    }

    method LoadAndReconcile(clock: Option<int>, write: EspErr) returns (err: EspErr)
      modifies this
      ensures (err, nvs) == HandoffNext(old(nvs), Reconcile(clock, write))
    {
      var record := nvs;
      if !record.inProgress { return OK; }
      var now := 0;
      if clock.Some? { now := clock.value; }
      record := record.(inProgress := false, recovered := true);
      if now > 0 && record.retryNotBefore < now + COOLDOWN {
        record := record.(retryNotBefore := now + COOLDOWN);
      }
      err := Write(record, write);
    }

    method BeginHandoff(target: string, now: int, write: EspErr) returns (err: EspErr)
      modifies this
      ensures (err, nvs) == HandoffNext(old(nvs), Begin(target, now, write))
    {
      if target == "" || now <= 0 { return INVALID_ARG; }
      var record := nvs;
      if record.inProgress { return INVALID_STATE; }
      if record.retryNotBefore > 0 && now < record.retryNotBefore { return TIMEOUT; }
      record := record.(inProgress := true, recovered := false, count := record.count + 1);
      record := record.(started := now, retryNotBefore := now + COOLDOWN, target := target);
      err := Write(record, write);
    }

    method FinishHandoff(success: bool, now: int, write: EspErr) returns (err: EspErr)
      modifies this
      ensures (err, nvs) == HandoffNext(old(nvs), Finish(success, now, write))
    {
      var record := nvs.(inProgress := false, recovered := false);
      if success {
        record := record.(retryNotBefore := 0, target := "");
      } else if now > 0 {
        record := record.(retryNotBefore := now + COOLDOWN);
      }
      err := Write(record, write);
    }
  }

  /** What finishing and restarting leave of any record, and that a failed write leaves it as it was. */
  lemma HandoffRecords(r: Handoff, u: int, clock: Option<int>, write: EspErr, op: HandoffOp)
    ensures HandoffNext(r, Finish(true, u, OK)) == (OK, Handoff(false, false, r.count, r.started, 0, ""))
    ensures HandoffNext(r, Finish(false, u, OK))
         == (OK, Handoff(false, false, r.count, r.started, if u > 0 then u + 21_600 else r.retryNotBefore, r.target))
    ensures var past := clock.Some? && clock.value > 0 && clock.value + 21_600 > r.retryNotBefore;
      HandoffNext(r, Reconcile(clock, OK))
        == (OK, if r.inProgress
                then Handoff(false, true, r.count, r.started, if past then clock.value + 21_600 else r.retryNotBefore, r.target)
                else r)
    ensures op.write != OK ==> HandoffNext(r, op).1 == r
    ensures op.write != OK && HandoffStep(r, op).1.Some? ==> HandoffNext(r, op).0 == op.write
  {}

  /** Why a handoff cannot begin. */
  lemma BeginRefusals(r: Handoff, target: string, now: int, write: EspErr)
    ensures var err := HandoffNext(r, Begin(target, now, write)).0;
      && (target == "" || now <= 0 ==> err == INVALID_ARG)
      && (target != "" && now > 0 && r.inProgress ==> err == INVALID_STATE)
      && (target != "" && now > 0 && !r.inProgress && now < r.retryNotBefore ==> err == TIMEOUT)
      && (target != "" && now > 0 && !r.inProgress && now >= r.retryNotBefore ==> err == write)
  {}

  /** The life of a handoff. Begun at `t`, it cannot be begun again before it is finished; after a success one
      can be begun at any time, after a failure six hours after its clock - or after `t` when it had none - and
      after a restart six hours after `t` and after the restart's clock. */
  lemma HandoffCycle(r: Handoff, target: string, t: int, next: string, v: int, u: int, clock: Option<int>)
    requires HandoffNext(r, Begin(target, t, OK)).0 == OK
    ensures var begun, again := HandoffNext(r, Begin(target, t, OK)).1, Begin(next, v, OK);
      var valid := next != "" && v > 0;
      var restarted := if clock.Some? && clock.value > t then clock.value else t;
      && begun == Handoff(true, false, r.count + 1, t, t + 21_600, target)
      && HandoffNext(begun, again) == (if valid then INVALID_STATE else INVALID_ARG, begun)
      && (HandoffNext(HandoffNext(begun, Finish(true, u, OK)).1, again).0 == OK <==> valid)
      && (HandoffNext(HandoffNext(begun, Finish(false, u, OK)).1, again).0 == OK
          <==> valid && v >= (if u > 0 then u else t) + 21_600)
      && (HandoffNext(HandoffNext(begun, Reconcile(clock, OK)).1, again).0 == OK
          <==> valid && v >= restarted + 21_600)
      && HandoffNext(begun, Reconcile(clock, OK)).1.recovered
  {}

  function HandoffAfter(r: Handoff, ops: seq<HandoffOp>): Handoff {
    if ops == [] then r else HandoffNext(HandoffAfter(r, ops[..|ops| - 1]), ops[|ops| - 1]).1
  }

  predicate Begins(r: Handoff, op: HandoffOp) {
    op.Begin? && HandoffNext(r, op).0 == OK
  }

  /** Times of the handoffs begun since the last finish that reported success and was written. */
  function Open(r: Handoff, ops: seq<HandoffOp>): seq<int> {
    if ops == [] then []
    else
      var init, op := ops[..|ops| - 1], ops[|ops| - 1];
      if Begins(HandoffAfter(r, init), op) then Open(r, init) + [op.now]
      else if Closes(op) then []
      else Open(r, init)
  }

  /** A success that was written. */
  predicate Closes(op: HandoffOp) {
    op.Finish? && op.success && op.write == OK
  }

  /** A failure that was written and had a clock to read. */
  predicate Fails(op: HandoffOp) {
    op.Finish? && !op.success && op.write == OK && op.now > 0
  }

  /** The last handoff still open, and the clock of the last written failure since. */
  datatype Track = Track(begin: Option<int>, failed: Option<int>)

  function TrackOf(r: Handoff, ops: seq<HandoffOp>): Track {
    if ops == [] then Track(None, None)
    else
      var init, op := ops[..|ops| - 1], ops[|ops| - 1];
      var before := TrackOf(r, init);
      if Begins(HandoffAfter(r, init), op) then Track(Some(op.now), None)
      else if Closes(op) then Track(None, None)
      else if Fails(op) then Track(before.begin, Some(op.now))
      else before
  }

  /** The failure's clock had not gone back behind the begin. */
  predicate ClockKept(t: Track) {
    t.begin.Some? && t.failed.Some? ==> t.failed.value >= t.begin.value
  }

  /** The record after a run, as far as the cooldown is concerned. */
  predicate Reflects(t: Track, r: Handoff) {
    && (t.begin.Some? ==> t.begin.value > 0)
    && (t.failed.Some? ==> t.failed.value > 0 && !r.inProgress && r.retryNotBefore == t.failed.value + COOLDOWN)
    && (t.begin.Some? && t.failed.None? ==> r.retryNotBefore >= t.begin.value + COOLDOWN)
  }

  lemma {:induction false} RecordReflectsTrack(r: Handoff, ops: seq<HandoffOp>)
    ensures Reflects(TrackOf(r, ops), HandoffAfter(r, ops))
  {
    if ops != [] { RecordReflectsTrack(r, ops[..|ops| - 1]); }
  }

  /** Over every run of begins, finishes, reboots and failed writes, the deadline protects the last open
      handoff if and only if the last written failure since its begin did not read an earlier clock. */
  lemma DeadlineKeptIff(r: Handoff, ops: seq<HandoffOp>)
    requires TrackOf(r, ops).begin.Some?
    ensures HandoffAfter(r, ops).retryNotBefore >= TrackOf(r, ops).begin.value + COOLDOWN <==> ClockKept(TrackOf(r, ops))
  {
    RecordReflectsTrack(r, ops);
    hide HandoffAfter, TrackOf;
  }

  ghost predicate NextBeginIsSpaced(r: Handoff, begin: int) {
    forall op: HandoffOp :: Begins(r, op) ==> op.now >= begin + COOLDOWN
  }

  /** And what that means for the caller: after any run, every begin that would be let through is six hours
      past the last open one if and only if the same condition holds. */
  lemma NextBeginSpacedIff(r: Handoff, ops: seq<HandoffOp>)
    requires TrackOf(r, ops).begin.Some?
    ensures NextBeginIsSpaced(HandoffAfter(r, ops), TrackOf(r, ops).begin.value) <==> ClockKept(TrackOf(r, ops))
  {
    RecordReflectsTrack(r, ops);
    var t, record := TrackOf(r, ops), HandoffAfter(r, ops);
    hide HandoffAfter, TrackOf;
    if !ClockKept(t) {
      assert Begins(record, Begin("leaf", t.failed.value + COOLDOWN, OK));
    }
  }

  /** Wherever a handoff begins, the condition held. */
  predicate ClocksKept(r: Handoff, ops: seq<HandoffOp>) {
    forall k :: 0 <= k < |ops| && Begins(HandoffAfter(r, ops[..k]), ops[k]) ==> ClockKept(TrackOf(r, ops[..k]))
  }

  lemma {:induction false} LastOpenIsTracked(r: Handoff, ops: seq<HandoffOp>)
    ensures TrackOf(r, ops).begin == if Open(r, ops) == [] then None else Some(Open(r, ops)[|Open(r, ops)| - 1])
  {
    hide HandoffAfter, Begins;
    if ops != [] { LastOpenIsTracked(r, ops[..|ops| - 1]); }
  }

  /** Handoffs begun without a successful finish between them are at least six hours apart, over every such
      run. */
  lemma {:induction false} BeginsAreSpaced(r: Handoff, ops: seq<HandoffOp>)
    requires ClocksKept(r, ops)
    ensures Spaced(Open(r, ops), COOLDOWN)
  {
    if ops != [] {
      var init, op := ops[..|ops| - 1], ops[|ops| - 1];
      forall k | 0 <= k < |init| ensures ops[..k] == init[..k] && ops[k] == init[k] {}
      BeginsAreSpaced(r, init);
      if Begins(HandoffAfter(r, init), op) && Open(r, init) != [] {
        LastOpenIsTracked(r, init);
        NextBeginSpacedIff(r, init);
        assert ops[..|init|] == init;
        hide HandoffAfter, TrackOf, Begins;
        assert op.now >= TrackOf(r, init).begin.value + COOLDOWN;
      }
    }
  }

  /** With the clock stepped back during a failed handoff, two begins come one second apart. */
  lemma ClockStepDefeatsCooldown()
    ensures var ops := [Begin("leaf", 100_000, OK), Finish(false, 1, OK), Begin("leaf", 100_001, OK)];
      Open(NO_HANDOFF, ops) == [100_000, 100_001]
  {
    var a, b, c := Begin("leaf", 100_000, OK), Finish(false, 1, OK), Begin("leaf", 100_001, OK);
    assert [a, b, c][..2] == [a, b] && [a, b][..1] == [a] && [a][..0] == [];
    assert HandoffAfter(NO_HANDOFF, [a]) == Handoff(true, false, 1, 100_000, 121_600, "leaf");
    assert HandoffAfter(NO_HANDOFF, [a, b]) == Handoff(false, false, 1, 100_000, 21_601, "leaf");
    assert Open(NO_HANDOFF, [a]) == [100_000];
  }
}
