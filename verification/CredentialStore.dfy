/** The dual-slot production credential store and its legacy predecessor (main/acme_client.c), with
    power cuts between any two flash writes. Each single-key NVS write is atomic and durable. */
module CredentialStore {
  import opened Bytes
  import opened Esp

  const KEY_LENGTH: nat := 32
  const PEM_MIN: nat := 64
  const PEM_MAX: nat := 16384
  const HOST_SIZE: nat := 254

  /** A credential: host name, private key and certificate chain. */
  datatype Cred = Cred(host: string, key: seq<byte>, pem: seq<byte>)

  /** Certificate validation, a deterministic judgement of host, key and chain. */
  type Judge = Cred -> EspErr

  /** The three NVS keys of one place credentials are kept in. */
  datatype Place = Place(key: Option<seq<byte>>, pem: Option<seq<byte>>, host: Option<string>)

  datatype Nvs = Nvs(a: Place, b: Place, legacy: Place, selector: Option<byte>)

  datatype Where = A | B | Legacy

  datatype Write =
    | SetKey(at: Where, key: seq<byte>)
    | SetPem(at: Where, pem: seq<byte>)
    | SetHost(at: Where, host: string)
    | EraseKey(at: Where)
    | ErasePem(at: Where)
    | EraseHost(at: Where)
    | SetSelector(slot: byte)

  function At(n: Nvs, w: Where): Place {
    match w case A => n.a case B => n.b case Legacy => n.legacy
  }

  function Put(n: Nvs, w: Where, p: Place): Nvs {
    match w case A => n.(a := p) case B => n.(b := p) case Legacy => n.(legacy := p)
  }

  function Applied(n: Nvs, w: Write): Nvs {
    match w
    case SetKey(at, key) => Put(n, at, At(n, at).(key := Some(key)))
    case SetPem(at, pem) => Put(n, at, At(n, at).(pem := Some(pem)))
    case SetHost(at, host) => Put(n, at, At(n, at).(host := Some(host)))
    case EraseKey(at) => Put(n, at, At(n, at).(key := None))
    case ErasePem(at) => Put(n, at, At(n, at).(pem := None))
    case EraseHost(at) => Put(n, at, At(n, at).(host := None))
    case SetSelector(slot) => n.(selector := Some(slot))
  }

  function AppliedAll(n: Nvs, ws: seq<Write>): Nvs {
    if ws == [] then n else Applied(AppliedAll(n, ws[..|ws| - 1]), ws[|ws| - 1])
  }

  function SlotOf(i: byte): Where {
    if i == 0 then A else B
  }

  function OtherSlot(i: byte): byte
    requires i <= 1
  {
    1 - i
  }

  // ---------------------------------------------------------------- reading

  predicate SizesOk(key: seq<byte>, pem: seq<byte>, host: string) {
    |key| == KEY_LENGTH && PEM_MIN <= |pem| <= PEM_MAX && 2 <= |host| + 1 <= HOST_SIZE
  }

  /** Loads what a place stores, with the stored PEM bytes as they are. */
  function Loaded(p: Place): Result<Cred> {
    if p.key.None? || p.pem.None? || p.host.None? then Err(NOT_FOUND)
    else if !SizesOk(p.key.value, p.pem.value, p.host.value) then Err(INVALID_SIZE)
    else Ok(Cred(p.host.value, p.key.value, p.pem.value))
  }

  /** A stored PEM without its one trailing NUL, if it has one. */
  function Semantic(pem: seq<byte>): seq<byte> {
    if |pem| > 0 && pem[|pem| - 1] == 0 then pem[..|pem| - 1] else pem
  }

  function Meaning(c: Cred): Cred {
    c.(pem := Semantic(c.pem))
  }

  function Validation(judge: Judge, p: Place): EspErr {
    match Loaded(p) case Err(e) => e case Ok(c) => judge(Meaning(c))
  }

  predicate Validates(judge: Judge, p: Place) {
    Loaded(p).Ok? && judge(Meaning(Loaded(p).value)) == OK
  }

  /** Legacy material is copied to slot A and selected, when nothing is selected yet. */
  function MigrateWrites(judge: Judge, n: Nvs): seq<Write> {
    if n.selector.Some? || !Validates(judge, n.legacy) then []
    else
      var c := Loaded(n.legacy).value;
      [SetKey(A, c.key), SetPem(A, c.pem), SetHost(A, c.host), SetSelector(0)]
  }

  function MigrateError(judge: Judge, n: Nvs): EspErr {
    match n.selector
    case Some(s) => if s > 1 then INVALID_STATE else OK
    case None => Validation(judge, n.legacy)
  }

  /** The slot that would be used with nothing left to migrate. */
  function SelectedSlot(judge: Judge, n: Nvs): Result<byte> {
    match n.selector
    case None => Err(NOT_FOUND)
    case Some(s) =>
      if s > 1 then Err(INVALID_STATE)
      else if Validates(judge, At(n, SlotOf(s))) then Ok(s)
      else if Validates(judge, At(n, SlotOf(OtherSlot(s)))) then Ok(OtherSlot(s))
      else Err(INVALID_STATE)
  }

  /** Resolution: migrate, then select. */
  function Resolved(judge: Judge, n: Nvs): Result<byte> {
    var e := MigrateError(judge, n);
    if e != OK && e != NOT_FOUND then Err(e)
    else SelectedSlot(judge, AppliedAll(n, MigrateWrites(judge, n)))
  }

  /** The credential resolution ends at. */
  function Effective(judge: Judge, n: Nvs): Result<Cred> {
    match Resolved(judge, n)
    case Err(e) => Err(e)
    case Ok(s) =>
      var p := At(AppliedAll(n, MigrateWrites(judge, n)), SlotOf(s));
      if Loaded(p).Ok? then Ok(Meaning(Loaded(p).value)) else Err(INVALID_STATE)
  }

  // ---------------------------------------------------------------- operations as flash writes

  predicate Storable(c: Cred) {
    SizesOk(c.key, c.pem + [0], c.host)
  }

  function FillWrites(at: Where, c: Cred): seq<Write> {
    [SetKey(at, c.key), SetPem(at, c.pem + [0]), SetHost(at, c.host)]
  }

  /** The slot a store fills: the one not in use, or A when nothing is stored. */
  function TargetSlot(judge: Judge, n: Nvs): byte {
    match Resolved(judge, n) case Ok(s) => if s == 0 then 1 else 0 case Err(_) => 0
  }

  function StoreWrites(judge: Judge, n: Nvs, c: Cred): seq<Write> {
    if judge(c) != OK then []
    else
      match Resolved(judge, n)
      case Err(e) =>
        if e != NOT_FOUND then MigrateWrites(judge, n)
        else MigrateWrites(judge, n) + CommitWrites(0, c)
      case Ok(s) => MigrateWrites(judge, n) + CommitWrites(TargetSlot(judge, n), c)
  }

  /** Result of a store that is not cut short. */
  function StoreError(judge: Judge, n: Nvs, c: Cred): EspErr {
    if judge(c) != OK then judge(c)
    else if Resolved(judge, n).Err? && Resolved(judge, n).error != NOT_FOUND then Resolved(judge, n).error
    else if Storable(c) then OK
    else INVALID_SIZE
  }

  /** Fill a slot and select it once it validates; an oversized credential is never selected. */
  function CommitWrites(slot: byte, c: Cred): seq<Write> {
    FillWrites(SlotOf(slot), c) + if Storable(c) then [SetSelector(slot)] else []
  }

  /** Legacy keys are erased only when both slots validate and the one in use equals the legacy material. */
  function RetireWrites(judge: Judge, n: Nvs): seq<Write> {
    if !Validates(judge, n.a) || !Validates(judge, n.b) then []
    else if n.selector.None? || n.selector.value > 1 then []
    else if !Validates(judge, n.legacy) || Loaded(n.legacy) != Loaded(At(n, SlotOf(n.selector.value))) then []
    else [EraseKey(Legacy), ErasePem(Legacy), EraseHost(Legacy)]
  }

  function RetireError(judge: Judge, n: Nvs): EspErr {
    if !Validates(judge, n.a) || !Validates(judge, n.b) || n.selector.None? then OK
    else if n.selector.value > 1 then INVALID_STATE
    else if Loaded(n.legacy) == Err(NOT_FOUND) then OK
    else Validation(judge, n.legacy)
  }

  datatype Op = Store(cred: Cred) | Resolve | Retire

  function Writes(judge: Judge, n: Nvs, op: Op): seq<Write> {
    match op
    case Store(c) => StoreWrites(judge, n, c)
    case Resolve => MigrateWrites(judge, n)
    case Retire => RetireWrites(judge, n)
  }

  /** Flash after a sequence of writes of which at most `power` are made. */
  function CutAt(n: Nvs, ws: seq<Write>, power: nat): Nvs {
    AppliedAll(n, if power < |ws| then ws[..power] else ws)
  }

  /** Flash after an operation whose power fails once `power` writes have been made. */
  function Cut(judge: Judge, n: Nvs, op: Op, power: nat): Nvs {
    CutAt(n, Writes(judge, n, op), power)
  }

  // ---------------------------------------------------------------- theorems

  /** A present selector names a slot that validates. */
  predicate Sound(judge: Judge, n: Nvs) {
    n.selector.Some? ==> n.selector.value <= 1 && Validates(judge, At(n, SlotOf(n.selector.value)))
  }

  lemma AppliedAllStep(n: Nvs, ws: seq<Write>, i: nat)
    requires i < |ws|
    ensures AppliedAll(n, ws[..i + 1]) == Applied(AppliedAll(n, ws[..i]), ws[i])
  {
    assert ws[..i + 1][..i] == ws[..i];
  }

  lemma {:induction false} AppliedAllSplit(n: Nvs, xs: seq<Write>, ys: seq<Write>)
    ensures AppliedAll(n, xs + ys) == AppliedAll(AppliedAll(n, xs), ys)
    decreases |ys|
  {
    if ys == [] {
      assert xs + ys == xs;
    } else {
      assert (xs + ys)[..|xs + ys| - 1] == xs + ys[..|ys| - 1];
      AppliedAllSplit(n, xs, ys[..|ys| - 1]);
    }
  }

  /** Filling a slot leaves every other key alone; all three writes store the credential. */
  lemma FillSteps(n: Nvs, at: Where, c: Cred, i: nat)
    requires i <= 3
    ensures var m := AppliedAll(n, FillWrites(at, c)[..i]);
      && m.selector == n.selector
      && (forall w: Where :: w != at ==> At(m, w) == At(n, w))
      && (i == 3 ==> At(m, at) == Place(Some(c.key), Some(c.pem + [0]), Some(c.host)))
  {
    var ws := FillWrites(at, c);
    assert AppliedAll(n, ws[..0]) == n;
    AppliedAllStep(n, ws, 0);
    AppliedAllStep(n, ws, 1);
    AppliedAllStep(n, ws, 2);
  }

  /** What a slot holds once filled validates and means the credential. */
  lemma FilledMeans(judge: Judge, c: Cred)
    requires Storable(c) && judge(c) == OK
    ensures var p := Place(Some(c.key), Some(c.pem + [0]), Some(c.host));
      Validates(judge, p) && Meaning(Loaded(p).value) == c
  {
    assert (c.pem + [0])[..|c.pem|] == c.pem;
  }

  /** What resolution ends at, read off the flash without migrating anything. */
  function Direct(judge: Judge, n: Nvs): Result<Cred> {
    match n.selector
    case None =>
      if Validates(judge, n.legacy) then Ok(Meaning(Loaded(n.legacy).value)) else Err(Validation(judge, n.legacy))
    case Some(s) =>
      var p := At(n, SlotOf(s));
      if Loaded(p).Ok? then Ok(Meaning(Loaded(p).value)) else Err(INVALID_STATE)
  }

  /** Where every copied credential ends: the legacy bytes in slot A, selected. */
  lemma MigrationSteps(judge: Judge, n: Nvs, i: nat)
    requires n.selector.None? && Validates(judge, n.legacy) && i <= 4
    ensures var ws := MigrateWrites(judge, n);
      var m := AppliedAll(n, ws[..i]);
      && |ws| == 4 && m.legacy == n.legacy && m.b == n.b
      && (i < 4 ==> m.selector == None)
      && (i >= 3 ==> m.a == n.legacy)
      && (i == 4 ==> m.selector == Some(0))
  {
    var ws := MigrateWrites(judge, n);
    assert AppliedAll(n, ws[..0]) == n;
    AppliedAllStep(n, ws, 0);
    AppliedAllStep(n, ws, 1);
    AppliedAllStep(n, ws, 2);
    AppliedAllStep(n, ws, 3);
  }

  lemma EffectiveIsDirect(judge: Judge, n: Nvs)
    requires Sound(judge, n)
    ensures Effective(judge, n) == Direct(judge, n)
    ensures Resolved(judge, n).Ok? <==> Effective(judge, n).Ok?
    ensures Resolved(judge, n).Err? ==> Effective(judge, n) == Err(Resolved(judge, n).error)
  {
    var ws := MigrateWrites(judge, n);
    if n.selector.None? && Validates(judge, n.legacy) {
      MigrationSteps(judge, n, 4);
      assert ws[..4] == ws;
    }
  }

  /** Migration, cut anywhere, keeps the invariant and the effective credential. */
  lemma MigrateIsSafe(judge: Judge, n: Nvs, i: nat)
    requires Sound(judge, n) && i <= |MigrateWrites(judge, n)|
    ensures var m := AppliedAll(n, MigrateWrites(judge, n)[..i]);
      Sound(judge, m) && Direct(judge, m) == Direct(judge, n)
  {
    if n.selector.None? && Validates(judge, n.legacy) {
      MigrationSteps(judge, n, i);
    } else {
      assert MigrateWrites(judge, n)[..i] == [];
    }
  }

  /** Committing to a slot that is not selected: old credential until the selector write, new one after. */
  lemma CommitIsAtomic(judge: Judge, n: Nvs, slot: byte, c: Cred, i: nat)
    requires Sound(judge, n) && slot <= 1 && n.selector != Some(slot)
    requires judge(c) == OK && i <= |CommitWrites(slot, c)|
    ensures var m := AppliedAll(n, CommitWrites(slot, c)[..i]);
      Sound(judge, m) && Direct(judge, m) == if i == 4 then Ok(c) else Direct(judge, n)
  {
    var ws, fill := CommitWrites(slot, c), FillWrites(SlotOf(slot), c);
    var j := if i < 3 then i else 3;
    assert ws[..j] == fill[..j];
    FillSteps(n, SlotOf(slot), c, j);
    FilledKeepsDirect(judge, n, AppliedAll(n, fill[..j]), slot);
    if i == 4 {
      AppliedAllStep(n, ws, 3);
      assert ws[..4] == ws && ws[3] == SetSelector(slot);
      hide AppliedAll, FillWrites, CommitWrites;
      FilledMeans(judge, c);
    }
  }

  /** Writing to an unselected slot is invisible. */
  lemma FilledKeepsDirect(judge: Judge, n: Nvs, m: Nvs, slot: byte)
    requires Sound(judge, n) && slot <= 1 && n.selector != Some(slot)
    requires m.selector == n.selector && forall w: Where :: w != SlotOf(slot) ==> At(m, w) == At(n, w)
    ensures Sound(judge, m) && Direct(judge, m) == Direct(judge, n)
  {
    hide Validates, Loaded, Validation;
    assert At(m, Legacy) == At(n, Legacy);
  }

  lemma SelectedAfterMigration(judge: Judge, n: Nvs)
    requires Sound(judge, n)
    ensures var m := AppliedAll(n, MigrateWrites(judge, n));
      && (Resolved(judge, n).Ok? ==> m.selector == Some(Resolved(judge, n).value))
      && (Resolved(judge, n) == Err(NOT_FOUND) ==> m == n && n.selector == None)
  {
    var ws := MigrateWrites(judge, n);
    if n.selector.None? && Validates(judge, n.legacy) {
      MigrationSteps(judge, n, 4);
      assert ws[..4] == ws;
    }
  }

  /** Any operation, cut anywhere, keeps the invariant; the effective credential changes only when a store
      of a valid, storable credential gets to its last write - the selector. */
  lemma CutIsSafe(judge: Judge, n: Nvs, op: Op, power: nat)
    requires Sound(judge, n)
    ensures Sound(judge, Cut(judge, n, op, power))
    ensures Direct(judge, Cut(judge, n, op, power))
         == if Completes(judge, n, op, power) then Ok(op.cred) else Direct(judge, n)
  {
    var ws := Writes(judge, n, op);
    var i := if power < |ws| then power else |ws|;
    assert Cut(judge, n, op, power) == AppliedAll(n, ws[..i]) by { assert ws[..|ws|] == ws; }
    match op
    case Resolve => MigrateIsSafe(judge, n, i);
    case Retire => RetireIsSafe(judge, n, i);
    case Store(c) => StoreIsSafe(judge, n, c, i);
  }

  /** The operation is a store that makes all its writes and ends with the selector. */
  predicate Completes(judge: Judge, n: Nvs, op: Op, power: nat) {
    && op.Store? && judge(op.cred) == OK && Storable(op.cred)
    && (Resolved(judge, n).Ok? || Resolved(judge, n) == Err(NOT_FOUND))
    && power >= |StoreWrites(judge, n, op.cred)|
  }

  lemma RetireIsSafe(judge: Judge, n: Nvs, i: nat)
    requires Sound(judge, n) && i <= |RetireWrites(judge, n)|
    ensures var m := AppliedAll(n, RetireWrites(judge, n)[..i]);
      Sound(judge, m) && Direct(judge, m) == Direct(judge, n)
  {
    var ws := RetireWrites(judge, n);
    assert AppliedAll(n, ws[..0]) == n;
    if ws != [] {
      AppliedAllStep(n, ws, 0);
      AppliedAllStep(n, ws, 1);
      AppliedAllStep(n, ws, 2);
    }
  }

  lemma StoreIsSafe(judge: Judge, n: Nvs, c: Cred, i: nat)
    requires Sound(judge, n) && i <= |StoreWrites(judge, n, c)|
    ensures var m := AppliedAll(n, StoreWrites(judge, n, c)[..i]);
      && Sound(judge, m)
      && Direct(judge, m)
         == if Completes(judge, n, Store(c), i) then Ok(c) else Direct(judge, n)
  {
    hide Resolved, MigrateWrites, CommitWrites, Sound, Direct;
    var ws := StoreWrites(judge, n, c);
    var first := MigrateWrites(judge, n);
    if judge(c) != OK {
      assert ws[..i] == [];
    } else if i <= |first| && ws != first {
      assert ws[..i] == first[..i];
      MigrateIsSafe(judge, n, i);
      CommitIsNotEmpty(TargetSlot(judge, n), c);
    } else if ws == first {
      MigrateIsSafe(judge, n, i);
      CommitIsNotEmpty(TargetSlot(judge, n), c);
    } else {
      var slot := TargetSlot(judge, n);
      var second := CommitWrites(slot, c);
      var k := i - |first|;
      assert ws[..i] == first + second[..k];
      AppliedAllSplit(n, first, second[..k]);
      assert first[..|first|] == first;
      MigrateIsSafe(judge, n, |first|);
      SelectedAfterMigration(judge, n);
      ResolvedIsSlot(judge, n);
      CommitIsAtomic(judge, AppliedAll(n, first), slot, c, k);
      CommitIsNotEmpty(slot, c);
    }
  }

  lemma CommitIsNotEmpty(slot: byte, c: Cred)
    ensures |CommitWrites(slot, c)| == if Storable(c) then 4 else 3
  {}

  lemma ResolvedIsSlot(judge: Judge, n: Nvs)
    ensures Resolved(judge, n).Ok? ==> Resolved(judge, n).value <= 1
  {}

  /** Crash safety over whole histories: boots that each run one operation until it ends or power fails. */
  function History(judge: Judge, n: Nvs, boots: seq<(Op, nat)>): Nvs {
    if boots == [] then n
    else
      var before := History(judge, n, boots[..|boots| - 1]);
      Cut(judge, before, boots[|boots| - 1].0, boots[|boots| - 1].1)
  }

  /** The credential of the last store that completed, or what was effective at the start. */
  function LastStored(judge: Judge, n: Nvs, boots: seq<(Op, nat)>): Result<Cred> {
    if boots == [] then Effective(judge, n)
    else
      var init := boots[..|boots| - 1];
      var (op, power) := boots[|boots| - 1];
      if Completes(judge, History(judge, n, init), op, power) then Ok(op.cred) else LastStored(judge, n, init)
  }

  lemma {:induction false} HistoryIsSafe(judge: Judge, n: Nvs, boots: seq<(Op, nat)>)
    requires Sound(judge, n)
    ensures Sound(judge, History(judge, n, boots))
    ensures Effective(judge, History(judge, n, boots)) == LastStored(judge, n, boots)
  {
    hide Sound, Direct, Cut, Effective, Completes;
    if boots != [] {
      var init := boots[..|boots| - 1];
      var before := History(judge, n, init);
      var (op, power) := boots[|boots| - 1];
      HistoryIsSafe(judge, n, init);
      CutIsSafe(judge, before, op, power);
      EffectiveIsDirect(judge, before);
      EffectiveIsDirect(judge, Cut(judge, before, op, power));
    }
  }

  // ---------------------------------------------------------------- the fallback state

  /** When the selected slot no longer validates, resolution falls back to the other one - and a store
      then fills the selected slot. The old credential survives every cut before the selector write
      exactly when the selected slot validates to begin with. */
  lemma OldCredentialSurvivesIff(judge: Judge, n: Nvs, c: Cred)
    requires n.selector.Some? && n.selector.value <= 1 && Effective(judge, n).Ok?
    requires judge(c) == OK && Storable(c) && Effective(judge, n) != Ok(c)
    ensures |StoreWrites(judge, n, c)| == 4
    ensures (forall i: nat :: i < 4 ==> Effective(judge, Cut(judge, n, Store(c), i)) == Effective(judge, n))
       <==> Validates(judge, At(n, SlotOf(n.selector.value)))
  {
    var s := n.selector.value;
    var ws := StoreWrites(judge, n, c);
    assert MigrateWrites(judge, n) == [];
    assert ws == CommitWrites(TargetSlot(judge, n), c);
    if Validates(judge, At(n, SlotOf(s))) {
      forall i: nat | i < 4 ensures Effective(judge, Cut(judge, n, Store(c), i)) == Effective(judge, n) {
        CutIsSafe(judge, n, Store(c), i);
        EffectiveIsDirect(judge, n);
        EffectiveIsDirect(judge, Cut(judge, n, Store(c), i));
      }
    } else {
      FallbackExposesNew(judge, n, c);
      assert Effective(judge, Cut(judge, n, Store(c), 3)) != Effective(judge, n);
    }
  }

  lemma FallbackExposesNew(judge: Judge, n: Nvs, c: Cred)
    requires n.selector.Some? && n.selector.value <= 1 && Resolved(judge, n).Ok?
    requires !Validates(judge, At(n, SlotOf(n.selector.value))) && judge(c) == OK && Storable(c)
    ensures Effective(judge, Cut(judge, n, Store(c), 3)) == Ok(c)
  {
    var s := n.selector.value;
    assert MigrateWrites(judge, n) == [];
    assert AppliedAll(n, []) == n;
    assert TargetSlot(judge, n) == s;
    var ws, fill := StoreWrites(judge, n, c), FillWrites(SlotOf(s), c);
    assert ws == CommitWrites(s, c);
    assert ws[..3] == fill[..3];
    FillSteps(n, SlotOf(s), c, 3);
    FilledMeans(judge, c);
    var m := Cut(judge, n, Store(c), 3);
    assert m == AppliedAll(n, ws[..3]);
    assert MigrateWrites(judge, m) == [];
    assert AppliedAll(m, []) == m;
  }

  // ---------------------------------------------------------------- when a store is refused

  /** Nothing can be resolved, and not for want of material: unreadable or invalid legacy material with no
      selector, a selector that names no slot, or two slots of which neither validates. */
  predicate Stuck(judge: Judge, n: Nvs) {
    match n.selector
    case None => Validation(judge, n.legacy) != OK && Validation(judge, n.legacy) != NOT_FOUND
    case Some(s) => s > 1 || (!Validates(judge, n.a) && !Validates(judge, n.b))
  }

  /** A valid credential of storable size is refused exactly then. */
  lemma StoreRefusedIff(judge: Judge, n: Nvs, c: Cred)
    requires judge(c) == OK && Storable(c)
    ensures StoreError(judge, n, c) != OK <==> Stuck(judge, n)
  {
    if n.selector.None? && Validates(judge, n.legacy) {
      MigrationSteps(judge, n, 4);
      assert MigrateWrites(judge, n)[..4] == MigrateWrites(judge, n);
    }
  }

  lemma StuckIsUnresolved(judge: Judge, n: Nvs)
    ensures Stuck(judge, n) <==> Resolved(judge, n).Err? && Resolved(judge, n).error != NOT_FOUND
    ensures Stuck(judge, n) ==>
      Resolved(judge, n).error == if n.selector.Some? then INVALID_STATE else Validation(judge, n.legacy)
  {
    if n.selector.None? && Validates(judge, n.legacy) {
      MigrationSteps(judge, n, 4);
      assert MigrateWrites(judge, n)[..4] == MigrateWrites(judge, n);
    }
  }

  /** A store succeeds if and only if the credential is judged valid, its sizes fit - with the NUL the PEM gets -
      and the store is not stuck. An invalid one is refused with its own verdict and leaves the flash as it was. */
  lemma StoreSucceedsIff(judge: Judge, n: Nvs, c: Cred, power: nat)
    ensures StoreError(judge, n, c) == OK
      <==> judge(c) == OK && |c.key| == 32 && 63 <= |c.pem| <= 16383 && 1 <= |c.host| <= 253 && !Stuck(judge, n)
    ensures judge(c) != OK ==> StoreError(judge, n, c) == judge(c) && Cut(judge, n, Store(c), power) == n
    ensures judge(c) == OK && Stuck(judge, n) ==>
      StoreError(judge, n, c) == if n.selector.Some? then INVALID_STATE else Validation(judge, n.legacy)
    ensures judge(c) == OK && !Stuck(judge, n) && !Storable(c) ==> StoreError(judge, n, c) == INVALID_SIZE
  {
    StuckIsUnresolved(judge, n);
    assert Storable(c) <==> |c.key| == 32 && 63 <= |c.pem| <= 16383 && 1 <= |c.host| <= 253;
    hide Resolved, Stuck, Storable;
    if judge(c) != OK { assert Cut(judge, n, Store(c), power) == AppliedAll(n, []); }
  }

  /** The three keys of a place are those of another, all there and valid. */
  predicate SameMaterial(judge: Judge, p: Place, q: Place) {
    Validates(judge, p) && Validates(judge, q) && p.key == q.key && p.pem == q.pem && p.host == q.host
  }

  /** Legacy material is erased if and only if both slots are valid and the selected one is a copy of it; what is
      erased, power permitting, is all of it and nothing else. */
  lemma RetiresIff(judge: Judge, n: Nvs, power: nat)
    ensures var m := Cut(judge, n, Retire, power);
      && (m != n <==> power > 0 && Validates(judge, n.a) && Validates(judge, n.b)
                      && n.selector.Some? && n.selector.value <= 1
                      && SameMaterial(judge, n.legacy, if n.selector.value == 0 then n.a else n.b))
      && m == n.(legacy := m.legacy)
      && (m != n && power >= 3 ==> m.legacy == Place(None, None, None))
  {
    var ws := RetireWrites(judge, n);
    assert AppliedAll(n, []) == n;
    if ws != [] {
      assert AppliedAll(n, ws[..0]) == n;
      AppliedAllStep(n, ws, 0);
      AppliedAllStep(n, ws, 1);
      AppliedAllStep(n, ws, 2);
      assert ws[..3] == ws;
      var i := if power < 3 then power else 3;
      assert Cut(judge, n, Retire, power) == AppliedAll(n, ws[..i]);
    }
  }

  /** What the maintenance calls answer. Migration has nothing to say against a selector that names a slot, nor
      against valid legacy material without one; retiring has something to say only once both slots are valid
      and something is selected: a selector that names no slot, or legacy material that is there but bad. */
  lemma MaintenanceAnswers(judge: Judge, n: Nvs)
    ensures MigrateError(judge, n) == OK
      <==> if n.selector.Some? then n.selector.value <= 1 else Validates(judge, n.legacy)
    ensures n.selector.None? && (n.legacy.key.None? || n.legacy.pem.None? || n.legacy.host.None?)
      ==> MigrateError(judge, n) == NOT_FOUND
    ensures n.selector.Some? && n.selector.value > 1 ==> MigrateError(judge, n) == INVALID_STATE
    ensures Validates(judge, n.a) && Validates(judge, n.b) && n.selector.Some? && n.selector.value > 1
      ==> RetireError(judge, n) == INVALID_STATE
    ensures RetireError(judge, n) == OK
      <==> !Validates(judge, n.a) || !Validates(judge, n.b) || n.selector.None?
           || (n.selector.value <= 1
               && (n.legacy.key.None? || n.legacy.pem.None? || n.legacy.host.None? || Validates(judge, n.legacy)))
  {}

  /** A place can be loaded if and only if its three keys are there with legal sizes, and yields just them. */
  lemma LoadsIff(p: Place, c: Cred)
    ensures Loaded(p) == Ok(c)
      <==> && p == Place(Some(c.key), Some(c.pem), Some(c.host))
           && |c.key| == 32 && 64 <= |c.pem| <= 16384 && 1 <= |c.host| <= 253
    ensures Loaded(p).Err? ==>
      Loaded(p).error == if p.key.None? || p.pem.None? || p.host.None? then NOT_FOUND else INVALID_SIZE
  {}

  /** No operation, cut anywhere, gets the store out of that state or into it. */
  lemma CutKeepsStuck(judge: Judge, n: Nvs, op: Op, power: nat)
    ensures var m := Cut(judge, n, op, power);
      (Stuck(judge, n) ==> m == n) && (Stuck(judge, m) <==> Stuck(judge, n))
  {
    var m := Cut(judge, n, op, power);
    if Stuck(judge, n) {
      StuckWritesNothing(judge, n, op);
    } else if Sound(judge, n) {
      CutIsSafe(judge, n, op, power);
      SoundStuckIff(judge, n);
      SoundStuckIff(judge, m);
    } else {
      FallbackStaysUsable(judge, n, op, power);
    }
  }

  lemma StuckWritesNothing(judge: Judge, n: Nvs, op: Op)
    requires Stuck(judge, n)
    ensures Writes(judge, n, op) == []
  {}

  /** With a selected slot that validates, the store is stuck only on its legacy material. */
  lemma SoundStuckIff(judge: Judge, n: Nvs)
    requires Sound(judge, n)
    ensures Stuck(judge, n) <==> Direct(judge, n).Err? && Direct(judge, n).error != NOT_FOUND
  {}

  /** While only the other slot validates, stores write to the selected one. */
  lemma FallbackStaysUsable(judge: Judge, n: Nvs, op: Op, power: nat)
    requires !Stuck(judge, n) && !Sound(judge, n)
    ensures !Stuck(judge, Cut(judge, n, op, power))
  {
    var s := n.selector.value;
    assert MigrateWrites(judge, n) == [] && AppliedAll(n, []) == n;
    if op.Store? && judge(op.cred) == OK {
      var ws, fill := StoreWrites(judge, n, op.cred), FillWrites(SlotOf(s), op.cred);
      assert ws == CommitWrites(s, op.cred);
      var i := if power < |ws| then power else |ws|;
      var j := if i < 3 then i else 3;
      assert ws[..|ws|] == ws;
      assert ws[..j] == fill[..j];
      FillSteps(n, SlotOf(s), op.cred, j);
      if i == 4 { AppliedAllStep(n, ws, 3); }
      assert At(AppliedAll(n, fill[..j]), SlotOf(OtherSlot(s))) == At(n, SlotOf(OtherSlot(s)));
    }
  }

  /** So whether a valid, storable credential is ever refused is settled by the flash at the start: after every
      history of operations and cuts it is refused if and only if that flash was stuck, and then nothing has
      been written at all. */
  lemma RefusedForGoodIff(judge: Judge, n: Nvs, boots: seq<(Op, nat)>, c: Cred)
    requires judge(c) == OK && Storable(c)
    ensures StoreError(judge, History(judge, n, boots), c) != OK <==> Stuck(judge, n)
    ensures Stuck(judge, n) ==> History(judge, n, boots) == n
  {
    hide Stuck, Cut, StoreError, Storable;
    StoreRefusedIff(judge, History(judge, n, boots), c);
    StuckHistory(judge, n, boots);
  }

  lemma {:induction false} StuckHistory(judge: Judge, n: Nvs, boots: seq<(Op, nat)>)
    ensures Stuck(judge, History(judge, n, boots)) <==> Stuck(judge, n)
    ensures Stuck(judge, n) ==> History(judge, n, boots) == n
  {
    hide Stuck, Cut;
    if boots != [] {
      var init := boots[..|boots| - 1];
      StuckHistory(judge, n, init);
      CutKeepsStuck(judge, History(judge, n, init), boots[|boots| - 1].0, boots[|boots| - 1].1);
    }
  }

  // ---------------------------------------------------------------- the routines

  lemma CutAtSplit(n: Nvs, xs: seq<Write>, ys: seq<Write>, power: nat)
    ensures CutAt(n, xs + ys, power)
         == if power < |xs| then CutAt(n, xs, power) else CutAt(AppliedAll(n, xs), ys, power - |xs|)
  {
    if power < |xs| {
      assert (xs + ys)[..power] == xs[..power];
    } else if power < |xs| + |ys| {
      assert (xs + ys)[..power] == xs + ys[..power - |xs|];
      AppliedAllSplit(n, xs, ys[..power - |xs|]);
    } else {
      AppliedAllSplit(n, xs, ys);
    }
  }

  /** NVS and the number of writes left before the power fails; a write without power does nothing. */
  class Flash {
    var nvs: Nvs
    var power: nat

    /** The flash has been taken through `ws`, or as far as the power lasted. */
    twostate predicate Made(ws: seq<Write>)
      reads this
    {
      nvs == CutAt(old(nvs), ws, old(power)) && power == if old(power) < |ws| then 0 else old(power) - |ws|
    }

    method Make(w: Write) returns (ok: bool)
      modifies this
      ensures ok == (old(power) > 0) && Made([w])
    {
      assert [w][..0] == [];
      assert AppliedAll(nvs, []) == nvs && AppliedAll(nvs, [w]) == Applied(nvs, w);
      if power == 0 { return false; }
      nvs := Applied(nvs, w);
      power := power - 1;
      return true;
    }

    method Fill(at: Where, key: seq<byte>, pem: seq<byte>, host: string) returns (ok: bool)
      modifies this
      ensures ok == (old(power) >= 3) && Made([SetKey(at, key), SetPem(at, pem), SetHost(at, host)])
    {
      ghost var n, p := nvs, power;
      ghost var a, b, c := SetKey(at, key), SetPem(at, pem), SetHost(at, host);
      CutAtSplit(n, [a], [b, c], p);
      CutAtSplit(Applied(n, a), [b], [c], if p == 0 then 0 else p - 1);
      assert [a] + [b, c] == [a, b, c] && [b] + [c] == [b, c];
      assert AppliedAll(n, [a]) == Applied(n, a);
      assert AppliedAll(Applied(n, a), [b]) == Applied(Applied(n, a), b);
      ok := Make(SetKey(at, key));
      if ok { ok := Make(SetPem(at, pem)); }
      if ok { ok := Make(SetHost(at, host)); }
    }

    method MigrateLegacy(judge: Judge) returns (err: EspErr)
      modifies this
      ensures Made(MigrateWrites(judge, old(nvs)))
      ensures old(power) >= |MigrateWrites(judge, old(nvs))| ==> err == MigrateError(judge, old(nvs))
      ensures old(power) < |MigrateWrites(judge, old(nvs))| ==> err == FAIL
    {
      ghost var n, p := nvs, power;
      assert AppliedAll(n, []) == n;
      if nvs.selector.Some? {
        return if nvs.selector.value > 1 then INVALID_STATE else OK;
      }
      var loaded := Loaded(nvs.legacy);
      if loaded.Err? { return loaded.error; }
      var c := loaded.value;
      err := judge(Meaning(c));
      if err != OK { return; }
      ghost var fill := [SetKey(A, c.key), SetPem(A, c.pem), SetHost(A, c.host)];
      assert fill + [SetSelector(0)] == MigrateWrites(judge, n);
      CutAtSplit(n, fill, [SetSelector(0)], p);
      MigrationSteps(judge, n, 3);
      assert MigrateWrites(judge, n)[..3] == fill;
      var ok := Fill(A, c.key, c.pem, c.host);
      if !ok { return FAIL; }
      err := Validation(judge, nvs.a);
      if err != OK { return; }
      ok := Make(SetSelector(0));
      return if ok then OK else FAIL;
    }

    method ResolveSlot(judge: Judge) returns (err: EspErr, slot: byte)
      modifies this
      ensures Made(MigrateWrites(judge, old(nvs)))
      ensures old(power) >= |MigrateWrites(judge, old(nvs))| ==>
        match Resolved(judge, old(nvs)) case Ok(s) => err == OK && slot == s case Err(e) => err == e != OK
      ensures old(power) < |MigrateWrites(judge, old(nvs))| ==> err == FAIL
    {
      slot := 0;
      err := MigrateLegacy(judge);
      if err != OK && err != NOT_FOUND { return; }
      if nvs.selector.None? { return NOT_FOUND, 0; }
      var selected := nvs.selector.value;
      if selected > 1 { return INVALID_STATE, 0; }
      err := Validation(judge, At(nvs, SlotOf(selected)));
      if err == OK { return OK, selected; }
      var fallback := OtherSlot(selected);
      err := Validation(judge, At(nvs, SlotOf(fallback)));
      if err == OK { return OK, fallback; }
      return INVALID_STATE, 0;
    }

    method StoreMaterial(judge: Judge, c: Cred) returns (err: EspErr)
      modifies this
      ensures Made(StoreWrites(judge, old(nvs), c))
      ensures old(power) >= |StoreWrites(judge, old(nvs), c)| ==> err == StoreError(judge, old(nvs), c)
      ensures old(power) < |StoreWrites(judge, old(nvs), c)| ==> err == FAIL
    {
      ghost var n, p := nvs, power;
      ghost var first := MigrateWrites(judge, n);
      assert AppliedAll(n, []) == n;
      err := judge(c);
      if err != OK { return; }
      var active: byte;
      err, active := ResolveSlot(judge);
      if err == NOT_FOUND { active := 1; } else if err != OK { ResolveStops(judge, n, c, p); return; }
      var target := OtherSlot(active);
      assert StoreWrites(judge, n, c) == first + CommitWrites(target, c);
      CutAtSplit(n, first, CommitWrites(target, c), p);
      hide CommitWrites, MigrateWrites, Resolved, AppliedAll, StoreWrites;
      err := Commit(judge, c, target);
    }

    /** Fill the slot, validate it and select it. */
    method Commit(judge: Judge, c: Cred, target: byte) returns (err: EspErr)
      requires judge(c) == OK && target <= 1
      modifies this
      ensures Made(CommitWrites(target, c))
      ensures err == if old(power) < |CommitWrites(target, c)| then FAIL else if Storable(c) then OK else INVALID_SIZE
    {
      ghost var n, p := nvs, power;
      ghost var fill := FillWrites(SlotOf(target), c);
      ghost var rest := if Storable(c) then [SetSelector(target)] else [];
      CutAtSplit(n, fill, rest, p);
      FillSteps(n, SlotOf(target), c, 3);
      assert fill[..3] == fill;
      var ok := Fill(SlotOf(target), c.key, c.pem + [0], c.host);
      if !ok { return FAIL; }
      assert AppliedAll(nvs, []) == nvs;
      assert (c.pem + [0])[..|c.pem|] == c.pem;
      err := Validation(judge, At(nvs, SlotOf(target)));
      if err != OK { return; }
      ok := Make(SetSelector(target));
      return if ok then OK else FAIL;
    }

    method RetireLegacy(judge: Judge) returns (err: EspErr)
      modifies this
      ensures Made(RetireWrites(judge, old(nvs)))
      ensures old(power) >= |RetireWrites(judge, old(nvs))| ==> err == RetireError(judge, old(nvs))
      ensures old(power) < |RetireWrites(judge, old(nvs))| ==> err == FAIL
    {
      ghost var n, p := nvs, power;
      assert AppliedAll(n, []) == n;
      if Validation(judge, nvs.a) != OK || Validation(judge, nvs.b) != OK { return OK; }
      if nvs.selector.None? { return OK; }
      var selected := nvs.selector.value;
      if selected > 1 { return INVALID_STATE; }
      var legacy := Loaded(nvs.legacy);
      if legacy == Err(NOT_FOUND) { return OK; }
      if legacy.Err? { return legacy.error; }
      err := judge(Meaning(legacy.value));
      if err != OK { return; }
      var active := Loaded(At(nvs, SlotOf(selected)));
      if legacy != active { return OK; }
      ghost var x, y, z := EraseKey(Legacy), ErasePem(Legacy), EraseHost(Legacy);
      CutAtSplit(n, [x], [y, z], p);
      CutAtSplit(Applied(n, x), [y], [z], if p == 0 then 0 else p - 1);
      assert [x] + [y, z] == [x, y, z] && [y] + [z] == [y, z];
      assert AppliedAll(n, [x]) == Applied(n, x);
      assert AppliedAll(Applied(n, x), [y]) == Applied(Applied(n, x), y);
      var ok := Make(EraseKey(Legacy));
      if ok { ok := Make(ErasePem(Legacy)); }
      if ok { ok := Make(EraseHost(Legacy)); }
      return if ok then OK else FAIL;
    }
  }

  /** A store stops where resolution stops, cut short or failing. */
  lemma ResolveStops(judge: Judge, n: Nvs, c: Cred, p: nat)
    requires judge(c) == OK
    requires p < |MigrateWrites(judge, n)| || (Resolved(judge, n).Err? && Resolved(judge, n) != Err(NOT_FOUND))
    ensures CutAt(n, StoreWrites(judge, n, c), p) == CutAt(n, MigrateWrites(judge, n), p)
    ensures p < |MigrateWrites(judge, n)| ==> p < |StoreWrites(judge, n, c)|
    ensures p >= |MigrateWrites(judge, n)| ==> StoreWrites(judge, n, c) == MigrateWrites(judge, n)
  {
    hide MigrateWrites, Resolved, CommitWrites;
    if p < |MigrateWrites(judge, n)| {
      CutAtSplit(n, MigrateWrites(judge, n), CommitWrites(TargetSlot(judge, n), c), p);
      CutAtSplit(n, MigrateWrites(judge, n), CommitWrites(0, c), p);
    }
  }
}
