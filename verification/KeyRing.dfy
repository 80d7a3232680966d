/** The rotating cookie key ring (main/nts_storage.c). The persisted blob is one NVS key. */
module KeyRing {
  import opened Bytes
  import opened Esp
  import opened AesSiv

  const PREVIOUS: nat := 0
  const ACTIVE: nat := 1
  const NEXT: nat := 2

  /** 30 days. */
  const PERIOD: int := 2_592_000

  datatype CookieKey = CookieKey(keyId: u32, notBefore: u64, notAfter: u64, key: Key, valid: byte)

  const NO_KEY := CookieKey(0, 0, 0, Zeros(32), 0)

  type Ring = r: seq<CookieKey> | |r| == 3 witness [NO_KEY, NO_KEY, NO_KEY]

  /** The sequence of keys the random generator will hand out. */
  type Draws = nat -> Key

  predicate Populated(k: CookieKey) {
    k.valid == 1 && k.keyId != 0 && k.notBefore < k.notAfter
  }

  predicate DistinctIds(r: Ring) {
    forall i, j :: 0 <= i < j < 3 && r[i].valid != 0 && r[j].valid != 0 ==> r[i].keyId != r[j].keyId
  }

  /** What `validate_cookie_keyring` accepts. */
  predicate Accepted(r: Ring) {
    && (r[PREVIOUS].valid == 0 || Populated(r[PREVIOUS]))
    && Populated(r[ACTIVE])
    && Populated(r[NEXT])
    && DistinctIds(r)
    && r[NEXT].notBefore == r[ACTIVE].notAfter
    && (r[PREVIOUS].valid != 0 ==> r[PREVIOUS].notAfter == r[ACTIVE].notBefore)
  }

  function NextKeyId(id: u32): u32 {
    var result := (id + 1) % TWO_32;
    if result == 0 then 1 else result
  }

  function Generated(id: u32, notBefore: u64, key: Key): CookieKey {
    CookieKey(id, notBefore, (notBefore + PERIOD) % TWO_64, key, 1)
  }

  function Rotate(r: Ring, key: Key): Ring {
    [r[ACTIVE], r[NEXT], Generated(NextKeyId(r[NEXT].keyId), r[NEXT].notAfter, key)]
  }

  /** Rotation is due and the window of NEXT follows that of ACTIVE. */
  predicate Chained(r: Ring, now: u32) {
    now >= r[ACTIVE].notAfter ==> r[ACTIVE].notAfter == r[NEXT].notBefore < r[NEXT].notAfter
  }

  /** The ring after the catch-up loop, drawing keys from index `n` on. */
  function CatchUp(r: Ring, now: u32, draw: Draws, n: nat): Ring
    requires Chained(r, now)
    decreases if now >= r[ACTIVE].notAfter then now - r[ACTIVE].notAfter + 1 else 0
  {
    if now >= r[ACTIVE].notAfter then CatchUp(Rotate(r, draw(n)), now, draw, n + 1) else r
  }

  function Fresh(now: u32, draw: Draws): Ring {
    var active := Generated(1, now, draw(0));
    [NO_KEY, active, Generated(2, active.notAfter, draw(1))]
  }

  // ---------------------------------------------------------------- the routines

  method KeyIdsDistinct(r: Ring) returns (distinct: bool)
    ensures distinct <==> DistinctIds(r)
  {
    for i := 0 to 3
      invariant forall a, b :: 0 <= a < i && a < b < 3 && r[a].valid != 0 && r[b].valid != 0 ==> r[a].keyId != r[b].keyId
    {
      if r[i].valid == 0 { continue; }
      for j := i + 1 to 3
        invariant forall b :: i < b < j && r[b].valid != 0 ==> r[i].keyId != r[b].keyId
      {
        if r[j].valid != 0 && r[i].keyId == r[j].keyId {
          return false;
        }
      }
    }
    return true;
  }

  method ValidateCookieKeyring(r: Ring) returns (err: EspErr)
    ensures err == if Accepted(r) then OK else INVALID_STATE
  {
    for i := 0 to 3
      invariant forall k :: 0 <= k < i ==> r[k].valid == 0 || Populated(r[k])
    {
      if r[i].valid != 0 && r[i].valid != 1 { return INVALID_STATE; }
      if r[i].valid != 0 && !Populated(r[i]) { return INVALID_STATE; }
    }
    if !Populated(r[ACTIVE]) || !Populated(r[NEXT]) { return INVALID_STATE; }
    var distinct := KeyIdsDistinct(r);
    if !distinct { return INVALID_STATE; }
    if r[NEXT].notBefore != r[ACTIVE].notAfter { return INVALID_STATE; }
    if r[NEXT].notAfter <= r[NEXT].notBefore { return INVALID_STATE; }
    if r[PREVIOUS].valid != 0 && r[PREVIOUS].notAfter != r[ACTIVE].notBefore { return INVALID_STATE; }
    return OK;
  }

  /** What one call finds around it: the disciplined clock, if it serves time, the coming random
      keys, and the outcome of the NVS read and write. */
  datatype Env = Env(now: Option<u32>, draw: Draws, load: EspErr, save: EspErr)

  /** Error and stored ring after `nts_storage_maintain_cookie_keyring`. */
  function Maintained(stored: Option<Ring>, env: Env): (EspErr, Option<Ring>) {
    if env.load != OK then (env.load, stored)
    else if stored.None? then (NOT_FOUND, stored)
    else if !Accepted(stored.value) then (INVALID_STATE, stored)
    else if env.now.None? then (INVALID_STATE, stored)
    else if env.now.value < stored.value[ACTIVE].notAfter then (OK, stored)
    else if env.save != OK then (env.save, stored)
    else (OK, Some(CatchUp(stored.value, env.now.value, env.draw, 0)))
  }

  class NtsStorage {
    var ring: Option<Ring>

    constructor ()
      ensures ring == None
    {
      ring := None;
    }

    method Load(env: Env) returns (err: EspErr, r: Ring)
      ensures err == if env.load != OK then env.load else if ring.None? then NOT_FOUND else OK
      ensures err == OK ==> ring == Some(r)
    {
      r := [NO_KEY, NO_KEY, NO_KEY];
      if env.load != OK { return env.load, r; }
      match ring
      case None => return NOT_FOUND, r;
      case Some(stored) => return OK, stored;
    }

    method Save(env: Env, r: Ring) returns (err: EspErr)
      modifies this
      ensures err == env.save
      ensures ring == if env.save == OK then Some(r) else old(ring)
    {
      if env.save == OK { ring := Some(r); }
      return env.save;
    }

    method Ensure(env: Env) returns (err: EspErr)
      modifies this
      ensures env.load != OK ==> err == env.load
      ensures env.load == OK && old(ring).Some? ==> err == if Accepted(old(ring).value) then OK else INVALID_STATE
      ensures env.load == OK && old(ring).None? ==> err == if env.now.None? then INVALID_STATE else env.save
      ensures ring == if env.load == OK && old(ring).None? && err == OK then Some(Fresh(env.now.value, env.draw)) else old(ring)
    {
      var r: Ring;
      err, r := Load(env);
      if err == OK {
        err := ValidateCookieKeyring(r);
        return;
      }
      if env.load != OK { return; }
      r := [NO_KEY, NO_KEY, NO_KEY];
      if env.now.None? { return INVALID_STATE; }
      r := r[ACTIVE := Generated(1, env.now.value, env.draw(0))];
      r := r[NEXT := Generated(2, r[ACTIVE].notAfter, env.draw(1))];
      assert r == Fresh(env.now.value, env.draw);
      err := Save(env, r);
    }

    method Maintain(env: Env) returns (err: EspErr)
      modifies this
      ensures (err, ring) == Maintained(old(ring), env)
    {
      var r: Ring;
      err, r := Load(env);
      if err != OK { return; }
      err := ValidateCookieKeyring(r);
      if err != OK { return; }
      if env.now.None? { return INVALID_STATE; }
      var now := env.now.value;
      var changed := false;
      var n := 0;
      while now >= r[ACTIVE].notAfter
        invariant Chained(r, now)
        invariant CatchUp(r, now, env.draw, n) == CatchUp(ring.value, now, env.draw, 0)
        invariant !changed ==> r == ring.value
        invariant changed ==> now >= ring.value[ACTIVE].notAfter
        decreases if now >= r[ACTIVE].notAfter then now - r[ACTIVE].notAfter + 1 else 0
      {
        var oldActive := r[ACTIVE];
        var oldNext := r[NEXT];
        r := r[PREVIOUS := oldActive];
        r := r[ACTIVE := oldNext];
        r := r[NEXT := Generated(NextKeyId(oldNext.keyId), oldNext.notAfter, env.draw(n))];
        n := n + 1;
        changed := true;
      }
      if changed {
        err := Save(env, r);
      }
    }
  }

  // ---------------------------------------------------------------- invariant of every run

  /** Without a ring, or with one that is not accepted, a call says so and changes nothing. */
  lemma UnusableIsRefused(stored: Option<Ring>, env: Env)
    requires env.load == OK
    ensures stored.None? ==> Maintained(stored, env) == (NOT_FOUND, stored)
    ensures stored.Some? && !Accepted(stored.value) ==> Maintained(stored, env) == (INVALID_STATE, stored)
  {}

  /** A slot that spans exactly one period without wrapping. */
  predicate OnePeriod(k: CookieKey) {
    k.valid == 1 && k.keyId != 0 && k.notAfter == k.notBefore + PERIOD
  }

  /** Contiguous one-period windows with successor identifiers; ACTIVE began at a 32-bit time. */
  predicate Healthy(r: Ring) {
    && OnePeriod(r[ACTIVE])
    && OnePeriod(r[NEXT])
    && r[ACTIVE].notBefore < TWO_32
    && r[NEXT].notBefore == r[ACTIVE].notAfter
    && r[NEXT].keyId == NextKeyId(r[ACTIVE].keyId)
    && (r[PREVIOUS] == NO_KEY
        || (OnePeriod(r[PREVIOUS]) && r[PREVIOUS].notAfter == r[ACTIVE].notBefore
            && r[ACTIVE].keyId == NextKeyId(r[PREVIOUS].keyId)))
  }

  lemma HealthyIsAccepted(r: Ring)
    requires Healthy(r)
    ensures Accepted(r)
  {
    var p, a, n := r[PREVIOUS].keyId, r[ACTIVE].keyId, r[NEXT].keyId;
    assert a != n;
    if r[PREVIOUS] != NO_KEY { assert p != a && p != n; }
  }

  /** What acceptance means: every slot but the first is in use, slots in use are marked so and have an
      identifier of their own, and their windows are not empty and follow one another without a gap. */
  lemma AcceptedIff(r: Ring)
    ensures Accepted(r)
      <==> && (forall i :: 0 <= i < 3 && r[i].valid == 0 ==> i == 0)
           && (forall i :: 0 <= i < 3 && r[i].valid != 0 ==> r[i].valid == 1 && r[i].keyId > 0 && r[i].notBefore < r[i].notAfter)
           && (forall i :: 0 <= i < 2 && r[i].valid != 0 ==> r[i].notAfter == r[i + 1].notBefore)
           && (forall i, j :: 0 <= i < 3 && 0 <= j < 3 && i != j && r[i].valid != 0 && r[j].valid != 0 ==> r[i].keyId != r[j].keyId)
  {
    assert r[0] == r[PREVIOUS] && r[1] == r[ACTIVE] && r[2] == r[NEXT];
  }

  lemma FreshIsHealthy(now: u32, draw: Draws)
    ensures Healthy(Fresh(now, draw)) && Fresh(now, draw)[ACTIVE].notBefore == now
  {}

  lemma RotateKeepsHealthy(r: Ring, now: u32, key: Key)
    requires Healthy(r) && now >= r[ACTIVE].notAfter
    ensures Healthy(Rotate(r, key))
  {}

  lemma {:induction false} CatchUpKeepsHealthy(r: Ring, now: u32, draw: Draws, n: nat)
    requires Healthy(r)
    ensures Chained(r, now)
    ensures Healthy(CatchUp(r, now, draw, n))
    ensures now < CatchUp(r, now, draw, n)[ACTIVE].notAfter
    ensures r[ACTIVE].notBefore <= now ==> CatchUp(r, now, draw, n)[ACTIVE].notBefore <= now
    decreases if now >= r[ACTIVE].notAfter then now - r[ACTIVE].notAfter + 1 else 0
  {
    if now >= r[ACTIVE].notAfter {
      RotateKeepsHealthy(r, now, draw(n));
      CatchUpKeepsHealthy(Rotate(r, draw(n)), now, draw, n + 1);
    }
  }

  /** Within one period of the ACTIVE window's end, catching up rotates at most once. */
  lemma CatchUpWithinOnePeriod(r: Ring, now: u32, draw: Draws)
    requires Healthy(r) && now < r[ACTIVE].notAfter + PERIOD
    ensures Chained(r, now)
    ensures CatchUp(r, now, draw, 0) == if now < r[ACTIVE].notAfter then r else Rotate(r, draw(0))
  {
    if now >= r[ACTIVE].notAfter {
      var once := Rotate(r, draw(0));
      assert CatchUp(once, now, draw, 1) == once;
    }
  }

  /** The identifier `n` rotations on: identifiers count modulo 2^32 - 1 and skip zero. */
  function IdAfter(id: u32, n: nat): u32
    requires id != 0
  {
    (id - 1 + n) % (TWO_32 - 1) + 1
  }

  /** How often catching up rotates: windows and identifiers move on together, and an identifier comes back
      only after 2^32 - 1 rotations. */
  lemma {:induction false} CatchUpCounts(r: Ring, now: u32, draw: Draws, n: nat) returns (m: nat)
    requires Healthy(r)
    ensures Chained(r, now)
    ensures CatchUp(r, now, draw, n)[ACTIVE].notBefore == r[ACTIVE].notBefore + m * PERIOD
    ensures CatchUp(r, now, draw, n)[ACTIVE].keyId == IdAfter(r[ACTIVE].keyId, m)
    ensures m > 0 <==> now >= r[ACTIVE].notAfter
    ensures m * PERIOD <= TWO_32
    decreases if now >= r[ACTIVE].notAfter then now - r[ACTIVE].notAfter + 1 else 0
  {
    m := 0;
    if now >= r[ACTIVE].notAfter {
      RotateKeepsHealthy(r, now, draw(n));
      m := CatchUpCounts(Rotate(r, draw(n)), now, draw, n + 1);
      IdAfterNext(r[ACTIVE].keyId, m);
      m := m + 1;
    }
    CatchUpKeepsHealthy(r, now, draw, n);
  }

  lemma IdAfterNext(id: u32, m: nat)
    requires id != 0
    ensures NextKeyId(id) != 0 && IdAfter(NextKeyId(id), m) == IdAfter(id, m + 1)
  {
    if id == TWO_32 - 1 { assert (id - 1 + (m + 1)) == m + (TWO_32 - 1); }
  }

  lemma IdsDiffer(id: u32, m: nat)
    requires id != 0 && 0 < m < TWO_32 - 1
    ensures IdAfter(id, m) != id
  {}

  function MaintainedRing(stored: Ring, env: Env): Ring {
    Maintained(Some(stored), env).1.value
  }

  /** A run of maintenance calls; any of them may fail to read the clock, load or save. */
  function Run(stored: Ring, calls: seq<Env>): Ring
    decreases |calls|
  {
    if calls == [] then stored else Run(MaintainedRing(stored, calls[0]), calls[1..])
  }

  /** Times at which the calls run, where known, do not decrease and start no earlier than `from`. */
  predicate Ordered(calls: seq<Env>, from: int)
    decreases |calls|
  {
    calls == []
    || (match calls[0].now
        case None => Ordered(calls[1..], from)
        case Some(t) => from <= t && Ordered(calls[1..], t))
  }

  lemma {:induction false} RunKeepsHealthy(stored: Ring, calls: seq<Env>)
    requires Healthy(stored)
    ensures Healthy(Run(stored, calls)) && Accepted(Run(stored, calls))
    decreases |calls|
  {
    HealthyIsAccepted(stored);
    if calls != [] {
      var env := calls[0];
      if env.now.Some? { CatchUpKeepsHealthy(stored, env.now.value, env.draw, 0); }
      RunKeepsHealthy(MaintainedRing(stored, env), calls[1..]);
    }
  }

  /** Every ring reachable from the one `ensure` creates passes the validator, and after a
      successful call at a time no earlier than the start, that time lies in the ACTIVE window. */
  lemma ReachableRingsAreValid(start: u32, draw: Draws, calls: seq<Env>, last: Env)
    requires Ordered(calls + [last], start)
    ensures Accepted(Run(Fresh(start, draw), calls + [last]))
    ensures var (err, ring) := Maintained(Some(Run(Fresh(start, draw), calls)), last);
      err == OK ==> last.now.Some? && ring.value[ACTIVE].notBefore <= last.now.value < ring.value[ACTIVE].notAfter
  {
    FreshIsHealthy(start, draw);
    RunKeepsHealthy(Fresh(start, draw), calls + [last]);
    RunKeepsHealthy(Fresh(start, draw), calls);
    RunBeginsBefore(Fresh(start, draw), calls, last, start);
    var ring := Run(Fresh(start, draw), calls);
    if last.now.Some? { CatchUpKeepsHealthy(ring, last.now.value, last.draw, 0); }
  }

  lemma {:induction false} RunBeginsBefore(stored: Ring, calls: seq<Env>, last: Env, from: u32)
    requires Healthy(stored) && stored[ACTIVE].notBefore <= from && Ordered(calls + [last], from)
    ensures last.now.Some? ==> Run(stored, calls)[ACTIVE].notBefore <= last.now.value
    decreases |calls|
  {
    if calls == [] {
      assert (calls + [last])[0] == last;
    } else {
      var env := calls[0];
      assert (calls + [last])[0] == env && (calls + [last])[1..] == calls[1..] + [last];
      if env.now.Some? { CatchUpKeepsHealthy(stored, env.now.value, env.draw, 0); }
      var next := MaintainedRing(stored, env);
      RunKeepsHealthy(stored, [env]);
      assert Run(stored, [env]) == next;
      RunBeginsBefore(next, calls[1..], last, if env.now.Some? then env.now.value else from);
    }
  }

  // ---------------------------------------------------------------- the validator is not inductive

  /** One due rotation of an accepted ring gives an accepted ring exactly when the successor of NEXT's
      identifier is not ACTIVE's and NEXT's expiry leaves room for one more period in 64 bits. */
  lemma RotateAcceptedIff(r: Ring, key: Key)
    requires Accepted(r)
    ensures Accepted(Rotate(r, key))
       <==> NextKeyId(r[NEXT].keyId) != r[ACTIVE].keyId && r[NEXT].notAfter + PERIOD < TWO_64
  {
    var s := Rotate(r, key);
    assert s[NEXT].keyId != s[ACTIVE].keyId;
  }

  /** A ring whose keys ACTIVE and NEXT were both generated by rotations with time to spare. */
  predicate Generational(r: Ring) {
    && Populated(r[PREVIOUS]) && OnePeriod(r[ACTIVE]) && OnePeriod(r[NEXT])
    && r[ACTIVE].notBefore < TWO_32
    && r[PREVIOUS].notAfter == r[ACTIVE].notBefore && r[NEXT].notBefore == r[ACTIVE].notAfter
    && r[ACTIVE].keyId == NextKeyId(r[PREVIOUS].keyId) && r[NEXT].keyId == NextKeyId(r[ACTIVE].keyId)
  }

  lemma {:induction false} GenerationalCatchesUp(r: Ring, now: u32, draw: Draws, n: nat)
    requires Generational(r)
    ensures Chained(r, now) && Accepted(CatchUp(r, now, draw, n))
    decreases if now >= r[ACTIVE].notAfter then now - r[ACTIVE].notAfter + 1 else 0
  {
    SuccessorsDiffer(r[PREVIOUS].keyId);
    if now >= r[ACTIVE].notAfter { GenerationalCatchesUp(Rotate(r, draw(n)), now, draw, n + 1); }
  }

  lemma SuccessorsDiffer(id: u32)
    ensures NextKeyId(id) != id && NextKeyId(NextKeyId(id)) != id && NextKeyId(NextKeyId(id)) != NextKeyId(id)
  {}

  /** Two rotations leave only generated keys in ACTIVE and NEXT. */
  lemma TwiceRotatedIsGenerational(r: Ring, now: u32, first: Key, second: Key)
    requires Accepted(r) && now >= r[NEXT].notAfter
    ensures Generational(Rotate(Rotate(r, first), second))
  {}

  /** The call rotates exactly once and saves. */
  predicate RotatesOnce(r: Ring, env: Env) {
    env.load == OK && env.save == OK && env.now.Some? && r[ACTIVE].notAfter <= env.now.value < r[NEXT].notAfter
  }

  /** One maintenance call leaves an accepted ring accepted, except exactly when it rotates once and either
      the successor of NEXT's identifier is ACTIVE's or the new window would wrap. Two rotations or more
      always repair the ring. */
  lemma MaintainedAcceptedIff(r: Ring, env: Env)
    requires Accepted(r)
    ensures Accepted(MaintainedRing(r, env))
       <==> (RotatesOnce(r, env) ==> NextKeyId(r[NEXT].keyId) != r[ACTIVE].keyId && r[NEXT].notAfter + PERIOD < TWO_64)
  {
    if env.load == OK && env.save == OK && env.now.Some? && env.now.value >= r[ACTIVE].notAfter {
      var now := env.now.value;
      var once := Rotate(r, env.draw(0));
      if now < r[NEXT].notAfter {
        RotateAcceptedIff(r, env.draw(0));
        assert CatchUp(once, now, env.draw, 1) == once;
      } else {
        var twice := Rotate(once, env.draw(1));
        TwiceRotatedIsGenerational(r, now, env.draw(0), env.draw(1));
        GenerationalCatchesUp(twice, now, env.draw, 2);
        assert CatchUp(once, now, env.draw, 1) == CatchUp(twice, now, env.draw, 2);
      }
    }
  }

  /** A rejected ring is never touched again: every later call fails. */
  lemma {:induction false} RejectedStaysRejected(r: Ring, calls: seq<Env>, last: Env)
    requires !Accepted(r)
    ensures Run(r, calls) == r && Maintained(Some(Run(r, calls)), last).0 != OK
    decreases |calls|
  {
    if calls != [] { RejectedStaysRejected(MaintainedRing(r, calls[0]), calls[1..], last); }
  }

  /** An accepted ring that one rotation turns into a rejected one. */
  lemma ValidatorIsNotInductive(key: Key)
    ensures var r: Ring := [NO_KEY, CookieKey(5, 0, 10, key, 1), CookieKey(4, 10, 20, key, 1)];
      Accepted(r) && !Accepted(Rotate(r, key))
  {
    var r: Ring := [NO_KEY, CookieKey(5, 0, 10, key, 1), CookieKey(4, 10, 20, key, 1)];
    RotateAcceptedIff(r, key);
  }

  /** From any accepted ring and forward jump the loop ends with `now` before ACTIVE's expiry. */
  lemma {:induction false} CatchUpEnds(r: Ring, now: u32, draw: Draws, n: nat)
    requires Chained(r, now)
    ensures now < CatchUp(r, now, draw, n)[ACTIVE].notAfter
    decreases if now >= r[ACTIVE].notAfter then now - r[ACTIVE].notAfter + 1 else 0
  {
    if now >= r[ACTIVE].notAfter { CatchUpEnds(Rotate(r, draw(n)), now, draw, n + 1); }
  }
}
