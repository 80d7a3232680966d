/** The per-client token bucket with least-recently-seen eviction (main/ntp_rate_limit.c). */
module RateLimit {
  import opened Bytes
  import opened Esp

  const MAX_CLIENTS: nat := 32
  const BURST: int := 8
  const PER_MINUTE: int := 30
  const US_PER_MINUTE: int := 60_000_000
  /** Microseconds per token. */
  const TOKEN_US: int := 2_000_000
  /** Times below this bound (18000 years) keep the refill product inside 64 bits. */
  const TIME_LIMIT: int := 0x0800_0000_0000_0000

  datatype Client = Client(inUse: bool, ipv4: u32, tokens: u32, lastRefill: int, lastSeen: int)

  type Table = t: seq<Client> | |t| == MAX_CLIENTS witness seq(MAX_CLIENTS, _ => Client(false, 0, 0, 0, 0))

  function Refilled(c: Client, now: int): Client {
    if c.lastRefill == 0 then c.(lastRefill := now, tokens := BURST)
    else if now - c.lastRefill <= 0 then c
    else
      var add := (now - c.lastRefill) * PER_MINUTE % TWO_64 / US_PER_MINUTE;
      if add == 0 then c
      else c.(tokens := if c.tokens + add > BURST then BURST else c.tokens + add, lastRefill := now)
  }

  function Allocated(ipv4: u32, now: int): Client {
    Client(true, ipv4, BURST, now, now)
  }

  /** The scan ends at the client's entry or at a free one. */
  predicate Stops(c: Client, ipv4: u32) {
    !c.inUse || c.ipv4 == ipv4
  }

  function FirstStop(t: Table, ipv4: u32, n: nat): (r: Option<nat>)
    requires n <= MAX_CLIENTS
    ensures r.Some? ==> r.value < n && Stops(t[r.value], ipv4) && forall i :: 0 <= i < r.value ==> !Stops(t[i], ipv4)
    ensures r.None? ==> forall i :: 0 <= i < n ==> !Stops(t[i], ipv4)
  {
    if n == 0 then None
    else
      var earlier := FirstStop(t, ipv4, n - 1);
      if earlier.Some? then earlier else if Stops(t[n - 1], ipv4) then Some(n - 1) else None
  }

  /** The first of the least recently seen among entries `0..n`. */
  function OldestSeen(t: Table, n: nat): (r: nat)
    requires 1 <= n <= MAX_CLIENTS
    ensures r < n && forall i :: 0 <= i < n ==> t[r].lastSeen <= t[i].lastSeen
  {
    if n == 1 then 0
    else
      var r := OldestSeen(t, n - 1);
      if t[n - 1].lastSeen < t[r].lastSeen then n - 1 else r
  }

  function SlotFor(t: Table, ipv4: u32): (i: nat)
    ensures i < MAX_CLIENTS
  {
    match FirstStop(t, ipv4, MAX_CLIENTS)
    case Some(i) => i
    case None => OldestSeen(t, MAX_CLIENTS)
  }

  predicate Holds(c: Client, ipv4: u32) {
    c.inUse && c.ipv4 == ipv4
  }

  /** The entry the request is charged to, after refilling. */
  function Charged(t: Table, ipv4: u32, now: int): Client {
    var c := t[SlotFor(t, ipv4)];
    Refilled(if Holds(c, ipv4) then c else Allocated(ipv4, now), now)
  }

  /** Table and decision after one request. */
  function Allowed(t: Table, ipv4: u32, now: int): (Table, bool) {
    var c := Charged(t, ipv4, now).(lastSeen := now);
    if c.tokens > 0 then (t[SlotFor(t, ipv4) := c.(tokens := c.tokens - 1)], true) else (t[SlotFor(t, ipv4) := c], false)
  }

  class RateLimiter {
    const clients: array<Client>

    constructor ()
      ensures Valid() && fresh(clients)
      ensures forall i :: 0 <= i < MAX_CLIENTS ==> !clients[i].inUse
    {
      clients := new Client[MAX_CLIENTS](_ => Client(false, 0, 0, 0, 0));
    }

    ghost predicate Valid()
      reads this
    {
      clients.Length == MAX_CLIENTS
    }

    method RefillClient(i: nat, now: int)
      requires Valid() && i < MAX_CLIENTS
      modifies clients
      ensures clients[..] == old(clients[..])[i := Refilled(old(clients[i]), now)]
    {
      var c := clients[i];
      if c.lastRefill == 0 {
        clients[i] := c.(lastRefill := now, tokens := BURST);
        return;
      }
      var elapsed := now - c.lastRefill;
      if elapsed <= 0 { return; }
      var tokensToAdd := elapsed * PER_MINUTE % TWO_64 / US_PER_MINUTE;
      if tokensToAdd == 0 { return; }
      var updated := c.tokens + tokensToAdd;
      if updated > BURST { updated := BURST; }
      clients[i] := c.(tokens := updated, lastRefill := now);
    }

    method FindOrAllocate(ipv4: u32, now: int) returns (at: nat)
      requires Valid()
      modifies clients
      ensures at == SlotFor(old(clients[..]), ipv4)
      ensures clients[..]
           == if Holds(old(clients[..])[at], ipv4) then old(clients[..]) else old(clients[..])[at := Allocated(ipv4, now)]
    {
      var oldest := 0;
      for index := 0 to MAX_CLIENTS
        invariant clients[..] == old(clients[..])
        invariant FirstStop(clients[..], ipv4, index) == None
        invariant oldest == if index == 0 then 0 else OldestSeen(clients[..], index)
      {
        FirstStopExtends(clients[..], ipv4, index + 1);
        var candidate := clients[index];
        if candidate.inUse && candidate.ipv4 == ipv4 { return index; }
        if !candidate.inUse {
          clients[index] := Allocated(ipv4, now);
          return index;
        }
        if candidate.lastSeen < clients[oldest].lastSeen { oldest := index; }
      }
      clients[oldest] := Allocated(ipv4, now);
      return oldest;
    }

    /** The decision, and whether a kiss-of-death reply is due. */
    method Allow(ipv4: u32, now: int) returns (granted: bool, sendKod: bool)
      requires Valid()
      modifies clients
      ensures (clients[..], granted) == Allowed(old(clients[..]), ipv4, now)
      ensures sendKod == !granted
    {
      ghost var t := clients[..];
      var at := FindOrAllocate(ipv4, now);
      RefillClient(at, now);
      hide Refilled;
      assert clients[at] == Charged(t, ipv4, now);
      assert clients[..] == t[at := Charged(t, ipv4, now)];
      clients[at] := clients[at].(lastSeen := now);
      ghost var c := Charged(t, ipv4, now).(lastSeen := now);
      assert clients[..] == t[at := c];
      if clients[at].tokens > 0 {
        clients[at] := clients[at].(tokens := clients[at].tokens - 1);
        assert clients[..] == t[at := c.(tokens := c.tokens - 1)];
        return true, false;
      }
      return false, true;
    }
  }

  lemma {:induction false} FirstStopExtends(t: Table, ipv4: u32, n: nat)
    requires 0 < n <= MAX_CLIENTS
    ensures FirstStop(t, ipv4, n - 1).None? && Stops(t[n - 1], ipv4) ==> FirstStop(t, ipv4, MAX_CLIENTS) == Some(n - 1)
  {}

  // ---------------------------------------------------------------- table invariant

  /** Used entries form a prefix with distinct addresses; balances and times are sane at `now`. */
  predicate Sane(t: Table, now: int) {
    && (forall i, j :: 0 <= i < j < MAX_CLIENTS && t[j].inUse ==> t[i].inUse)
    && (forall i, j :: 0 <= i < j < MAX_CLIENTS && t[j].inUse ==> t[i].ipv4 != t[j].ipv4)
    && (forall i :: 0 <= i < MAX_CLIENTS && t[i].inUse ==>
          t[i].tokens <= BURST && 0 <= t[i].lastRefill <= t[i].lastSeen <= now)
  }

  predicate Resident(t: Table, ipv4: u32) {
    Holds(t[SlotFor(t, ipv4)], ipv4)
  }

  /** A resident client's entry. */
  function Entry(t: Table, ipv4: u32): Client {
    t[SlotFor(t, ipv4)]
  }

  lemma SlotForHolder(t: Table, now: int, ipv4: u32, i: nat)
    requires Sane(t, now) && i < MAX_CLIENTS && Holds(t[i], ipv4)
    ensures SlotFor(t, ipv4) == i
  {
    var s := FirstStop(t, ipv4, MAX_CLIENTS);
    assert Stops(t[i], ipv4);
    assert s.Some?;
    assert forall j :: 0 <= j < i ==> t[j].inUse && t[j].ipv4 != ipv4;
  }

  lemma AllowedKeepsSane(t: Table, ipv4: u32, before: int, now: int)
    requires Sane(t, before) && before <= now && 0 <= now < TIME_LIMIT
    ensures Sane(Allowed(t, ipv4, now).0, now)
  {
    var s := FirstStop(t, ipv4, MAX_CLIENTS);
    var i := SlotFor(t, ipv4);
    assert s.None? ==> t[i].inUse;
    RefilledIsSane(if Holds(t[i], ipv4) then t[i] else Allocated(ipv4, now), now);
    forall j | 0 <= j < MAX_CLIENTS && j != i && t[j].inUse ensures t[j].ipv4 != ipv4 {
      if t[j].ipv4 == ipv4 { SlotForHolder(t, before, ipv4, j); }
    }
  }

  lemma RefilledIsSane(c: Client, now: int)
    requires c.inUse && c.tokens <= BURST && 0 <= c.lastRefill <= now < TIME_LIMIT
    ensures Refilled(c, now).tokens <= BURST && c.lastRefill <= Refilled(c, now).lastRefill <= now
    ensures Refilled(c, now) == c.(tokens := Refilled(c, now).tokens, lastRefill := Refilled(c, now).lastRefill)
  {}

  lemma {:induction false} OldestIsFirst(t: Table, n: nat)
    requires 1 <= n <= MAX_CLIENTS
    ensures forall j :: 0 <= j < OldestSeen(t, n) ==> t[OldestSeen(t, n)].lastSeen < t[j].lastSeen
  {
    if n > 1 { OldestIsFirst(t, n - 1); }
  }

  /** The entry a newcomer replaces in a full table was seen earlier than any before it and no later than any
      after it. */
  lemma EvictsLeastRecentlySeen(t: Table, before: int, ipv4: u32, now: int)
    requires Sane(t, before) && !Resident(t, ipv4) && t[MAX_CLIENTS - 1].inUse
    ensures var i := SlotFor(t, ipv4);
      && (forall j :: 0 <= j < MAX_CLIENTS ==> t[i].lastSeen <= t[j].lastSeen)
      && (forall j :: 0 <= j < i ==> t[i].lastSeen < t[j].lastSeen)
      && (forall j :: 0 <= j < MAX_CLIENTS && j != i ==> Allowed(t, ipv4, now).0[j] == t[j])
      && Allowed(t, ipv4, now).0[i].ipv4 == ipv4
  {
    var s := FirstStop(t, ipv4, MAX_CLIENTS);
    OldestIsFirst(t, MAX_CLIENTS);
    assert forall j :: 0 <= j < MAX_CLIENTS ==> t[j].inUse;
  }

  /** A request of another client leaves a resident's entry alone or takes its place. */
  lemma OthersDoNotTouch(t: Table, before: int, ipv4: u32, other: u32, now: int)
    requires Sane(t, before) && before <= now && 0 <= now < TIME_LIMIT && other != ipv4
    ensures var t' := Allowed(t, other, now).0;
      Resident(t', ipv4) ==> Resident(t, ipv4) && Entry(t', ipv4) == Entry(t, ipv4)
  {
    var t' := Allowed(t, other, now).0;
    AllowedKeepsSane(t, other, before, now);
    if Resident(t', ipv4) {
      var i := SlotFor(t', ipv4);
      ChargedOwner(t, other, now);
      assert i != SlotFor(t, other);
      SlotForHolder(t, before, ipv4, i);
    }
  }

  lemma ChargedOwner(t: Table, ipv4: u32, now: int)
    ensures Holds(Charged(t, ipv4, now), ipv4)
  {}

  // ---------------------------------------------------------------- the bucket bound

  /** Tokens earned by whole token periods between two refill times. */
  function Earned(from: int, to: int): int {
    (to - from) / TOKEN_US
  }

  lemma RefillArithmetic(c: Client, now: int)
    requires 0 < c.lastRefill <= now < TIME_LIMIT
    ensures Refilled(c, now)
         == if Earned(c.lastRefill, now) == 0 then c
            else
              var tokens := c.tokens + Earned(c.lastRefill, now);
              c.(tokens := if tokens > BURST then BURST else tokens, lastRefill := now)
  {
    var elapsed := now - c.lastRefill;
    assert 0 <= elapsed * PER_MINUTE < TWO_64;
    assert elapsed * PER_MINUTE / US_PER_MINUTE == elapsed / TOKEN_US;
  }

  lemma EarnedAdds(a: int, b: int, c: int)
    requires a <= b <= c
    ensures Earned(a, b) + Earned(b, c) <= Earned(a, c)
  {}

  /** What was granted plus what is left never exceeds a burst plus what was earned since `base`. */
  predicate Bounded(c: Client, granted: int, base: int) {
    0 < c.lastRefill && base <= c.lastRefill && granted + c.tokens <= BURST + Earned(base, c.lastRefill)
  }

  /** Charging a bounded entry, or any sane entry when nothing has been granted since a base no more
      than a token period in the past, leaves it bounded. */
  lemma ChargeKeepsBounded(t: Table, before: int, ipv4: u32, now: int, granted: nat, base: int)
    requires Sane(t, before) && before <= now && 0 < now < TIME_LIMIT && Resident(t, ipv4)
    requires Bounded(Entry(t, ipv4), granted, base) || (granted == 0 && base <= now - (TOKEN_US - 1))
    ensures var (t', ok) := Allowed(t, ipv4, now);
      && Resident(t', ipv4)
      && Bounded(Entry(t', ipv4), granted + (if ok then 1 else 0), base)
      && Entry(t', ipv4).lastSeen == now
  {
    var c := Entry(t, ipv4);
    if 0 < c.lastRefill { RefillArithmetic(c, now); }
    if base <= c.lastRefill { EarnedAdds(base, c.lastRefill, now); }
    AllowedKeepsSane(t, ipv4, before, now);
    SlotForHolder(Allowed(t, ipv4, now).0, now, ipv4, SlotFor(t, ipv4));
  }

  // ---------------------------------------------------------------- whole runs

  datatype Call = Call(ipv4: u32, now: int)

  /** Nondecreasing times from zero on. */
  predicate Clocked(calls: seq<Call>) {
    && (forall i :: 0 <= i < |calls| ==> 0 <= calls[i].now < TIME_LIMIT)
    && (forall i, j :: 0 <= i < j < |calls| ==> calls[i].now <= calls[j].now)
  }

  function After(t: Table, calls: seq<Call>, k: nat): Table
    requires k <= |calls|
  {
    if k == 0 then t else Allowed(After(t, calls, k - 1), calls[k - 1].ipv4, calls[k - 1].now).0
  }

  predicate Granted(t: Table, calls: seq<Call>, k: nat)
    requires k < |calls|
  {
    Allowed(After(t, calls, k), calls[k].ipv4, calls[k].now).1
  }

  /** Requests of one client granted among calls `lo..hi`. */
  function Grants(t: Table, calls: seq<Call>, ipv4: u32, lo: nat, hi: nat): nat
    requires lo <= hi <= |calls|
  {
    if lo == hi then 0
    else Grants(t, calls, ipv4, lo, hi - 1) + if calls[hi - 1].ipv4 == ipv4 && Granted(t, calls, hi - 1) then 1 else 0
  }

  /** The client is resident at each of its calls in `lo..hi`. */
  predicate StaysResident(t: Table, calls: seq<Call>, ipv4: u32, lo: nat, hi: nat)
    requires lo <= hi <= |calls|
  {
    forall k :: lo <= k < hi && calls[k].ipv4 == ipv4 ==> Resident(After(t, calls, k), ipv4)
  }

  function TimeAt(calls: seq<Call>, k: nat): int
    requires k <= |calls|
  {
    if k == 0 then 0 else calls[k - 1].now
  }

  lemma {:induction false} RunStaysSane(t: Table, calls: seq<Call>, k: nat)
    requires Sane(t, 0) && Clocked(calls) && k <= |calls|
    ensures Sane(After(t, calls, k), TimeAt(calls, k))
    decreases k
  {
    if k > 0 {
      RunStaysSane(t, calls, k - 1);
      AllowedKeepsSane(After(t, calls, k - 1), calls[k - 1].ipv4, TimeAt(calls, k - 1), calls[k - 1].now);
    }
  }

  /** Grants so far respect the bound at `now`, and a resident entry is bounded. */
  predicate Tracked(t: Table, ipv4: u32, granted: int, base: int, now: int) {
    && base <= now
    && granted <= BURST + Earned(base, now)
    && (Resident(t, ipv4) ==> Bounded(Entry(t, ipv4), granted, base))
  }

  lemma StepKeepsTracked(t: Table, before: int, ipv4: u32, call: Call, granted: nat, base: int)
    requires Sane(t, before) && before <= call.now && 0 <= call.now < TIME_LIMIT
    requires Tracked(t, ipv4, granted, base, before)
    requires call.ipv4 == ipv4 ==> Resident(t, ipv4)
    ensures var (t', ok) := Allowed(t, call.ipv4, call.now);
      Tracked(t', ipv4, granted + (if call.ipv4 == ipv4 && ok then 1 else 0), base, call.now)
  {
    if call.ipv4 == ipv4 {
      ChargeKeepsBounded(t, before, ipv4, call.now, granted, base);
      AllowedKeepsSane(t, ipv4, before, call.now);
      var (after, ok) := Allowed(t, ipv4, call.now);
      BoundedGrants(after, ipv4, granted + (if ok then 1 else 0), base, call.now);
    } else {
      hide Allowed, Sane, Resident;
      EarnedMonotone(base, before, call.now);
      OthersDoNotTouch(t, before, ipv4, call.ipv4, call.now);
    }
  }

  lemma EarnedMonotone(base: int, a: int, b: int)
    requires a <= b
    ensures Earned(base, a) <= Earned(base, b)
  {}

  lemma BoundedGrants(t: Table, ipv4: u32, granted: int, base: int, now: int)
    requires Sane(t, now) && Resident(t, ipv4) && Bounded(Entry(t, ipv4), granted, base)
    ensures base <= now && granted <= BURST + Earned(base, now)
  {
    EarnedMonotone(base, Entry(t, ipv4).lastRefill, now);
  }

  lemma {:induction false} RunKeepsTracked(t: Table, calls: seq<Call>, ipv4: u32, lo: nat, hi: nat, base: int, head: nat)
    requires Sane(t, 0) && Clocked(calls) && lo <= hi <= |calls|
    requires StaysResident(t, calls, ipv4, lo, hi)
    requires Tracked(After(t, calls, lo), ipv4, head, base, TimeAt(calls, lo))
    ensures Tracked(After(t, calls, hi), ipv4, head + Grants(t, calls, ipv4, lo, hi), base, TimeAt(calls, hi))
    decreases hi
  {
    hide Tracked, Resident, Sane, Allowed;
    if lo < hi {
      var k := hi - 1;
      RunKeepsTracked(t, calls, ipv4, lo, k, base, head);
      RunStaysSane(t, calls, k);
      StepKeepsTracked(After(t, calls, k), TimeAt(calls, k), ipv4, calls[k], head + Grants(t, calls, ipv4, lo, k), base);
    }
  }

  lemma {:induction false} GrantsFromFront(t: Table, calls: seq<Call>, ipv4: u32, lo: nat, hi: nat)
    requires lo < hi <= |calls|
    ensures Grants(t, calls, ipv4, lo, hi)
         == Grants(t, calls, ipv4, lo, lo + 1) + Grants(t, calls, ipv4, lo + 1, hi)
    decreases hi
  {
    if lo + 1 < hi { GrantsFromFront(t, calls, ipv4, lo, hi - 1); }
  }

  /** Since allocation: a client allocated at call `a` and resident at its later calls gets at most
      8 + floor(elapsed / 2 s) grants up to the last of them. */
  lemma GrantsSinceAllocation(t: Table, calls: seq<Call>, ipv4: u32, a: nat, hi: nat)
    requires Sane(t, 0) && Clocked(calls) && a < hi <= |calls|
    requires calls[a].ipv4 == ipv4 && 0 < calls[a].now && !Resident(After(t, calls, a), ipv4)
    requires StaysResident(t, calls, ipv4, a + 1, hi)
    ensures Granted(t, calls, a)
    ensures Grants(t, calls, ipv4, a, hi) <= BURST + (calls[hi - 1].now - calls[a].now) / TOKEN_US
  {
    hide Tracked, Resident, Sane, Allowed;
    var now := calls[a].now;
    RunStaysSane(t, calls, a);
    AllocationIsTracked(After(t, calls, a), TimeAt(calls, a), ipv4, now);
    GrantsFromFront(t, calls, ipv4, a, hi);
    assert Grants(t, calls, ipv4, a, a) == 0;
    assert Grants(t, calls, ipv4, a, a + 1) == 1;
    assert After(t, calls, a + 1) == Allowed(After(t, calls, a), ipv4, now).0;
    RunKeepsTracked(t, calls, ipv4, a + 1, hi, now, 1);
    TrackedBound(After(t, calls, hi), ipv4, 1 + Grants(t, calls, ipv4, a + 1, hi), now, calls[hi - 1].now);
  }

  lemma TrackedBound(t: Table, ipv4: u32, granted: int, base: int, now: int)
    requires Tracked(t, ipv4, granted, base, now)
    ensures granted <= BURST + (now - base) / TOKEN_US
  {}

  lemma AllocationIsTracked(t: Table, before: int, ipv4: u32, now: int)
    requires Sane(t, before) && before <= now && 0 < now < TIME_LIMIT && !Resident(t, ipv4)
    ensures var (t', ok) := Allowed(t, ipv4, now); ok && Tracked(t', ipv4, 1, now, now)
  {
    var i := SlotFor(t, ipv4);
    AllowedKeepsSane(t, ipv4, before, now);
    SlotForHolder(Allowed(t, ipv4, now).0, now, ipv4, i);
  }

  /** Any window: a client resident at its calls gets at most 8 + ceil(window / 2 s) grants in a run of
      calls whose times lie in a window. */
  lemma {:induction false} GrantsInWindow(t: Table, calls: seq<Call>, ipv4: u32, lo: nat, hi: nat, start: int, end: int)
    requires Sane(t, 0) && Clocked(calls) && lo <= hi <= |calls| && 0 < start <= end
    requires forall k :: lo <= k < hi ==> start <= calls[k].now <= end
    requires StaysResident(t, calls, ipv4, lo, hi)
    ensures Grants(t, calls, ipv4, lo, hi) <= BURST + (end - start + TOKEN_US - 1) / TOKEN_US
    decreases hi - lo
  {
    hide Tracked, Resident, Sane, Allowed;
    if lo < hi {
      GrantsFromFront(t, calls, ipv4, lo, hi);
      assert Grants(t, calls, ipv4, lo, lo) == 0;
      if calls[lo].ipv4 != ipv4 {
        GrantsInWindow(t, calls, ipv4, lo + 1, hi, start, end);
      } else {
        var base := start - (TOKEN_US - 1);
        var first := if Granted(t, calls, lo) then 1 else 0;
        RunStaysSane(t, calls, lo);
        FirstChargeIsTracked(After(t, calls, lo), TimeAt(calls, lo), ipv4, calls[lo].now, base);
        RunKeepsTracked(t, calls, ipv4, lo + 1, hi, base, first);
        TrackedBound(After(t, calls, hi), ipv4, first + Grants(t, calls, ipv4, lo + 1, hi), base, calls[hi - 1].now);
        EarnedMonotone(base, calls[hi - 1].now, end);
      }
    }
  }

  lemma FirstChargeIsTracked(t: Table, before: int, ipv4: u32, now: int, base: int)
    requires Sane(t, before) && before <= now && 0 < now < TIME_LIMIT && Resident(t, ipv4)
    requires base <= now - (TOKEN_US - 1)
    ensures var (t', ok) := Allowed(t, ipv4, now); Tracked(t', ipv4, if ok then 1 else 0, base, now)
  {
    ChargeKeepsBounded(t, before, ipv4, now, 0, base);
    AllowedKeepsSane(t, ipv4, before, now);
    BoundedGrants(Allowed(t, ipv4, now).0, ipv4, if Allowed(t, ipv4, now).1 then 1 else 0, base, now);
  }

  // ---------------------------------------------------------------- no starvation

  /** A resident client whose previous call - which set `lastSeen` - was at least two seconds ago is
      granted, and so is any newcomer. */
  lemma SlowCallersAreGranted(t: Table, before: int, ipv4: u32, now: int)
    requires Sane(t, before) && before <= now && 0 <= now < TIME_LIMIT
    requires Resident(t, ipv4) ==> now - Entry(t, ipv4).lastSeen >= TOKEN_US
    ensures Allowed(t, ipv4, now).1
  {
    if Resident(t, ipv4) && 0 < Entry(t, ipv4).lastRefill { RefillArithmetic(Entry(t, ipv4), now); }
  }

  /** A client calling twice in a run, at calls `a < b` with none of its own between, two seconds apart
      or more, is granted the second time whether or not it was evicted meanwhile. */
  lemma PoliteClientsAreNeverRefused(t: Table, calls: seq<Call>, ipv4: u32, a: nat, b: nat)
    requires Sane(t, 0) && Clocked(calls) && a < b < |calls|
    requires calls[a].ipv4 == calls[b].ipv4 == ipv4 && calls[b].now - calls[a].now >= TOKEN_US
    requires forall k :: a < k < b ==> calls[k].ipv4 != ipv4
    ensures Granted(t, calls, b)
  {
    RunStaysSane(t, calls, b);
    LastSeenIsLastCall(t, calls, ipv4, a, b);
    SlowCallersAreGranted(After(t, calls, b), TimeAt(calls, b), ipv4, calls[b].now);
  }

  /** A resident client was last seen then. */
  predicate SeenAt(t: Table, ipv4: u32, when: int) {
    Resident(t, ipv4) ==> Entry(t, ipv4).lastSeen == when
  }

  lemma {:induction false} LastSeenIsLastCall(t: Table, calls: seq<Call>, ipv4: u32, a: nat, b: nat)
    requires Sane(t, 0) && Clocked(calls) && a < b <= |calls| && calls[a].ipv4 == ipv4
    requires forall k :: a < k < b ==> calls[k].ipv4 != ipv4
    ensures SeenAt(After(t, calls, b), ipv4, calls[a].now)
    decreases b
  {
    hide Allowed, Sane, SeenAt;
    RunStaysSane(t, calls, b - 1);
    var before, call := After(t, calls, b - 1), calls[b - 1];
    if b == a + 1 {
      OwnCallSetsLastSeen(before, TimeAt(calls, a), ipv4, call.now);
    } else {
      LastSeenIsLastCall(t, calls, ipv4, a, b - 1);
      OthersKeepLastSeen(before, TimeAt(calls, b - 1), ipv4, call.ipv4, call.now, calls[a].now);
    }
  }

  lemma OthersKeepLastSeen(t: Table, before: int, ipv4: u32, other: u32, now: int, when: int)
    requires Sane(t, before) && before <= now && 0 <= now < TIME_LIMIT && other != ipv4 && SeenAt(t, ipv4, when)
    ensures SeenAt(Allowed(t, other, now).0, ipv4, when)
  {
    hide Allowed, Sane, Resident, Entry;
    OthersDoNotTouch(t, before, ipv4, other, now);
  }

  lemma OwnCallSetsLastSeen(t: Table, before: int, ipv4: u32, now: int)
    requires Sane(t, before) && before <= now && 0 <= now < TIME_LIMIT
    ensures Resident(Allowed(t, ipv4, now).0, ipv4) && SeenAt(Allowed(t, ipv4, now).0, ipv4, now)
  {
    AllowedKeepsSane(t, ipv4, before, now);
    SlotForHolder(Allowed(t, ipv4, now).0, now, ipv4, SlotFor(t, ipv4));
  }

  // ---------------------------------------------------------------- no refusal without cause

  /** A bucket that was full at `base`: what has been granted since then and what is left are the burst and at
      least a token for every four seconds up to the last refill. */
  predicate Supplied(c: Client, granted: nat, base: int) {
    && 0 < base <= c.lastRefill && 0 <= c.tokens <= 8
    && c.lastRefill - base <= 4_000_000 * (granted + c.tokens - 8)
  }

  /** One more call of the client: the bucket is supplied as before, or was full at this very call. */
  lemma ChargeKeepsSupplied(t: Table, before: int, ipv4: u32, now: int, granted: nat, base: int)
    requires Sane(t, before) && before <= now && 0 < now < TIME_LIMIT && Resident(t, ipv4)
    requires Supplied(Entry(t, ipv4), granted, base)
    ensures var (t', ok) := Allowed(t, ipv4, now);
      && Resident(t', ipv4)
      && (Supplied(Entry(t', ipv4), granted + (if ok then 1 else 0), base) || (ok && Supplied(Entry(t', ipv4), 1, now)))
      && (!ok ==> Entry(t', ipv4).tokens == 0 && now - Entry(t', ipv4).lastRefill < 2_000_000)
  {
    var c := Entry(t, ipv4);
    RefillArithmetic(c, now);
    AllowedKeepsSane(t, ipv4, before, now);
    SlotForHolder(Allowed(t, ipv4, now).0, now, ipv4, SlotFor(t, ipv4));
  }

  lemma NewcomerIsSupplied(t: Table, before: int, ipv4: u32, now: int)
    requires Sane(t, before) && before <= now && 0 < now < TIME_LIMIT && !Resident(t, ipv4)
    ensures var (t', ok) := Allowed(t, ipv4, now); ok && Resident(t', ipv4) && Supplied(Entry(t', ipv4), 1, now)
  {
    AllowedKeepsSane(t, ipv4, before, now);
    SlotForHolder(Allowed(t, ipv4, now).0, now, ipv4, SlotFor(t, ipv4));
  }

  /** From a client's allocation on there is always an own call at which its bucket was full. */
  lemma {:induction false} SuppliedSince(t: Table, calls: seq<Call>, ipv4: u32, a: nat, hi: nat) returns (j: nat)
    requires Sane(t, 0) && Clocked(calls) && a < hi <= |calls|
    requires calls[a].ipv4 == ipv4 && 0 < calls[a].now && !Resident(After(t, calls, a), ipv4)
    requires StaysResident(t, calls, ipv4, a + 1, hi)
    ensures a <= j < hi && calls[j].ipv4 == ipv4
    ensures Resident(After(t, calls, hi), ipv4) ==>
      Supplied(Entry(After(t, calls, hi), ipv4), Grants(t, calls, ipv4, j, hi), calls[j].now)
    decreases hi
  {
    hide Supplied, Resident, Sane, Allowed, Entry;
    var k := hi - 1;
    var before, call := After(t, calls, k), calls[k];
    RunStaysSane(t, calls, k);
    if k == a {
      j := a;
      assert Grants(t, calls, ipv4, a, a) == 0;
      NewcomerIsSupplied(before, TimeAt(calls, k), ipv4, call.now);
    } else {
      j := SuppliedSince(t, calls, ipv4, a, k);
      assert calls[a].now <= call.now;
      if call.ipv4 == ipv4 {
        var granted := Grants(t, calls, ipv4, j, k);
        ChargeKeepsSupplied(before, TimeAt(calls, k), ipv4, call.now, granted, calls[j].now);
        if !Supplied(Entry(After(t, calls, hi), ipv4), Grants(t, calls, ipv4, j, hi), calls[j].now) {
          j := k;
          assert Grants(t, calls, ipv4, k, k) == 0;
        }
      } else {
        OthersDoNotTouch(before, TimeAt(calls, k), ipv4, call.ipv4, call.now);
      }
    }
  }

  /** The bucket's promise, over every run: whenever a resident client is refused there was an own call at
      which its bucket was full, and since then it has been granted the whole burst of eight and one request
      for every four seconds but the last two. A newcomer's first eight requests in particular are granted. */
  lemma RefusalIsEarned(t: Table, calls: seq<Call>, ipv4: u32, a: nat, k: nat) returns (j: nat)
    requires Sane(t, 0) && Clocked(calls) && a < k < |calls|
    requires calls[a].ipv4 == calls[k].ipv4 == ipv4 && 0 < calls[a].now && !Resident(After(t, calls, a), ipv4)
    requires StaysResident(t, calls, ipv4, a + 1, k + 1) && !Granted(t, calls, k)
    ensures a <= j < k && calls[j].ipv4 == ipv4
    ensures Grants(t, calls, ipv4, j, k) >= 8
    ensures calls[k].now - calls[j].now - 2_000_000 < 4_000_000 * (Grants(t, calls, ipv4, j, k) - 8)
  {
    j := SuppliedSince(t, calls, ipv4, a, k);
    RunStaysSane(t, calls, k);
    hide Resident, Sane, Allowed;
    RefusedSupply(After(t, calls, k), TimeAt(calls, k), ipv4, calls[k].now, Grants(t, calls, ipv4, j, k), calls[j].now);
  }

  lemma RefusedSupply(t: Table, before: int, ipv4: u32, now: int, granted: nat, base: int)
    requires Sane(t, before) && before <= now && 0 < now < TIME_LIMIT && Resident(t, ipv4)
    requires Supplied(Entry(t, ipv4), granted, base) && !Allowed(t, ipv4, now).1
    ensures granted >= 8 && now - base - 2_000_000 < 4_000_000 * (granted - 8)
  {
    ChargeKeepsSupplied(t, before, ipv4, now, granted, base);
  }

  // ---------------------------------------------------------------- residency

  /** Addresses among the first `n` entries seen at `when` or later. */
  function SeenSince(t: Table, when: int, n: nat): (r: set<u32>)
    requires n <= MAX_CLIENTS
    ensures forall i :: 0 <= i < n && t[i].inUse && t[i].lastSeen >= when ==> t[i].ipv4 in r
    ensures forall x :: x in r ==> exists i :: 0 <= i < n && Holds(t[i], x) && t[i].lastSeen >= when
    ensures |r| <= n
  {
    if n == 0 then {}
    else SeenSince(t, when, n - 1) + if t[n - 1].inUse && t[n - 1].lastSeen >= when then {t[n - 1].ipv4} else {}
  }

  /** Addresses of calls `lo..hi`. */
  function Callers(calls: seq<Call>, lo: nat, hi: nat): set<u32>
    requires lo <= hi <= |calls|
  {
    if lo == hi then {} else Callers(calls, lo, hi - 1) + {calls[hi - 1].ipv4}
  }

  /** What one call does to the table: its client's slot, a free one, or in a full table without the
      client the least recently seen. */
  lemma CallTakesSlot(t: Table, before: int, ipv4: u32, now: int)
    requires Sane(t, before) && before <= now && 0 <= now < TIME_LIMIT
    ensures var (i, after) := (SlotFor(t, ipv4), Allowed(t, ipv4, now).0);
      && after == t[i := after[i]] && Holds(after[i], ipv4) && after[i].lastSeen == now
      && (t[i].inUse && t[i].ipv4 != ipv4 ==>
            forall j :: 0 <= j < MAX_CLIENTS ==> !Stops(t[j], ipv4) && t[i].lastSeen <= t[j].lastSeen)
  {
    ChargedOwner(t, ipv4, now);
  }

  lemma {:induction false} NotSeen(t: Table, when: int, n: nat, ipv4: u32)
    requires n <= MAX_CLIENTS && forall i :: 0 <= i < n ==> t[i].ipv4 != ipv4
    ensures ipv4 !in SeenSince(t, when, n)
  {
    if n > 0 { NotSeen(t, when, n - 1, ipv4); }
  }

  lemma SeenStep(t: Table, when: int, n: nat)
    requires 0 < n <= MAX_CLIENTS && t[n - 1].inUse && t[n - 1].lastSeen >= when
    ensures SeenSince(t, when, n) == SeenSince(t, when, n - 1) + {t[n - 1].ipv4}
  {}

  /** Every entry is in use, of its own address, and was seen at `when` or later. */
  predicate AllSeen(t: Table, when: int) {
    && (forall i, j :: 0 <= i < j < MAX_CLIENTS ==> t[i].ipv4 != t[j].ipv4)
    && (forall i :: 0 <= i < MAX_CLIENTS ==> t[i].inUse && t[i].lastSeen >= when)
  }

  lemma LastIsNew(t: Table, when: int, n: nat)
    requires AllSeen(t, when) && 0 < n <= MAX_CLIENTS
    ensures var earlier, last := SeenSince(t, when, n - 1), t[n - 1].ipv4;
      last !in earlier && SeenSince(t, when, n) == earlier + {last}
  {
    assert forall i :: 0 <= i < n - 1 ==> t[i].ipv4 != t[n - 1].ipv4;
    NotSeen(t, when, n - 1, t[n - 1].ipv4);
    SeenStep(t, when, n);
    hide SeenSince;
  }

  lemma {:induction false} FullTableSize(t: Table, when: int, n: nat)
    requires AllSeen(t, when) && n <= MAX_CLIENTS
    ensures |SeenSince(t, when, n)| == n
  {
    if n == 0 {
      assert SeenSince(t, when, 0) == {};
    } else {
      hide SeenSince, AllSeen;
      FullTableSize(t, when, n - 1);
      LastIsNew(t, when, n);
    }
  }

  lemma OneSlotSeen(t: Table, i: nat, c: Client, when: int)
    requires i < MAX_CLIENTS
    ensures SeenSince(t[i := c], when, MAX_CLIENTS) <= SeenSince(t, when, MAX_CLIENTS) + {c.ipv4}
  {
    var after := t[i := c];
    forall x | x in SeenSince(after, when, MAX_CLIENTS) ensures x in SeenSince(t, when, MAX_CLIENTS) + {c.ipv4} {
      var j :| 0 <= j < MAX_CLIENTS && Holds(after[j], x) && after[j].lastSeen >= when;
      assert j != i ==> after[j] == t[j];
    }
  }

  /** Whoever was seen since a time that all earlier calls precede has called since. */
  lemma {:induction false} SeenAreCallers(t: Table, calls: seq<Call>, when: int, lo: nat, hi: nat)
    requires Sane(t, 0) && Clocked(calls) && lo <= hi <= |calls| && TimeAt(calls, lo) < when
    ensures SeenSince(After(t, calls, hi), when, MAX_CLIENTS) <= Callers(calls, lo, hi)
    decreases hi
  {
    hide Allowed, Sane, SeenSince, SlotFor;
    if lo < hi {
      SeenAreCallers(t, calls, when, lo, hi - 1);
      RunStaysSane(t, calls, hi - 1);
      var before, call := After(t, calls, hi - 1), calls[hi - 1];
      CallTakesSlot(before, TimeAt(calls, hi - 1), call.ipv4, call.now);
      var i := SlotFor(before, call.ipv4);
      OneSlotSeen(before, i, After(t, calls, hi)[i], when);
    } else {
      RunStaysSane(t, calls, hi);
      NoneSeenLater(After(t, calls, hi), TimeAt(calls, hi), when);
    }
  }

  lemma NoneSeenLater(t: Table, now: int, when: int)
    requires Sane(t, now) && now < when
    ensures SeenSince(t, when, MAX_CLIENTS) == {}
  {}

  /** The client has an entry seen at `when` or later. */
  predicate Fresh(t: Table, ipv4: u32, when: int) {
    Resident(t, ipv4) && Entry(t, ipv4).lastSeen >= when
  }

  /** A call that pushes out a client seen since `when` finds a full table of clients seen since. */
  lemma EvictionNeedsFullTable(t: Table, before: int, ipv4: u32, call: Call, when: int)
    requires Sane(t, before) && before <= call.now && when <= call.now && 0 <= call.now < TIME_LIMIT
    requires Fresh(t, ipv4, when)
    ensures Fresh(Allowed(t, call.ipv4, call.now).0, ipv4, when)
      || (|SeenSince(t, when, MAX_CLIENTS)| == MAX_CLIENTS && call.ipv4 !in SeenSince(t, when, MAX_CLIENTS))
  {
    var i, own := SlotFor(t, call.ipv4), SlotFor(t, ipv4);
    var after := Allowed(t, call.ipv4, call.now).0;
    hide Allowed, Refilled, Charged, SlotFor, Sane, SeenSince;
    CallTakesSlot(t, before, call.ipv4, call.now);
    AllowedKeepsSane(t, call.ipv4, before, call.now);
    if i != own || call.ipv4 == ipv4 {
      SlotForHolder(after, call.now, ipv4, own);
    } else {
      OldestMeansFull(t, before, call.ipv4, own, when);
    }
  }

  lemma OldestMeansFull(t: Table, before: int, other: u32, own: nat, when: int)
    requires Sane(t, before) && own < MAX_CLIENTS && t[own].lastSeen >= when
    requires forall j :: 0 <= j < MAX_CLIENTS ==> !Stops(t[j], other) && t[own].lastSeen <= t[j].lastSeen
    ensures |SeenSince(t, when, MAX_CLIENTS)| == MAX_CLIENTS && other !in SeenSince(t, when, MAX_CLIENTS)
  {
    assert forall j :: 0 <= j < MAX_CLIENTS ==> t[j].inUse && t[j].ipv4 != other;
    FullTableSize(t, when, MAX_CLIENTS);
  }

  /** The eviction guarantee, over every run: a client stays resident after a call until more than 32 clients,
      itself included, have called since - counting from call `lo` those that called at the same instant. */
  lemma {:induction false} StaysWhileFewCall(t: Table, calls: seq<Call>, ipv4: u32, lo: nat, a: nat, hi: nat)
    requires Sane(t, 0) && Clocked(calls) && lo <= a < hi <= |calls| && calls[a].ipv4 == ipv4
    requires TimeAt(calls, lo) < calls[a].now
    requires |Callers(calls, lo, hi)| <= MAX_CLIENTS
    ensures Fresh(After(t, calls, hi), ipv4, calls[a].now)
    decreases hi
  {
    hide Allowed, Sane, Fresh, Resident;
    var k := hi - 1;
    var before, call, when := After(t, calls, k), calls[k], calls[a].now;
    RunStaysSane(t, calls, k);
    if k == a {
      OwnCallIsFresh(before, TimeAt(calls, k), ipv4, when);
    } else {
      hide SeenSince;
      Smaller(Callers(calls, lo, k), Callers(calls, lo, hi));
      StaysWhileFewCall(t, calls, ipv4, lo, a, k);
      SeenAreCallers(t, calls, when, lo, k);
      EvictionNeedsFullTable(before, TimeAt(calls, k), ipv4, call, when);
      TooManyCallers(SeenSince(before, when, MAX_CLIENTS), Callers(calls, lo, k), call.ipv4);
    }
  }

  lemma TooManyCallers(seen: set<u32>, callers: set<u32>, other: u32)
    requires seen <= callers && |callers + {other}| <= MAX_CLIENTS
    ensures |seen| < MAX_CLIENTS || other in seen
  {
    Smaller(seen + {other}, callers + {other});
  }

  lemma OwnCallIsFresh(t: Table, before: int, ipv4: u32, now: int)
    requires Sane(t, before) && before <= now && 0 <= now < TIME_LIMIT
    ensures Fresh(Allowed(t, ipv4, now).0, ipv4, now)
  {
    hide Allowed, Sane;
    OwnCallSetsLastSeen(t, before, ipv4, now);
  }

  lemma {:induction false} Smaller<T>(a: set<T>, b: set<T>)
    requires a <= b
    ensures |a| <= |b|
  {
    assert b == a + (b - a);
  }

  /** Nobody else was seen at that very instant. */
  predicate Alone(t: Table, ipv4: u32, when: int) {
    forall i :: 0 <= i < MAX_CLIENTS && t[i].inUse && t[i].ipv4 != ipv4 ==> t[i].lastSeen != when
  }

  /** While a client seen last and alone at `when` stays, nobody seen since is pushed out. */
  lemma LaterSeenStay(t: Table, before: int, ipv4: u32, call: Call, when: int)
    requires Sane(t, before) && before <= call.now && when < call.now && 0 <= call.now < TIME_LIMIT
    requires Alone(t, ipv4, when) && call.ipv4 != ipv4 && SeenAt(t, ipv4, when)
    ensures var after := Allowed(t, call.ipv4, call.now).0;
      && Alone(after, ipv4, when)
      && (Resident(after, ipv4) ==>
            && Resident(t, ipv4)
            && SeenSince(t, when, MAX_CLIENTS) + {call.ipv4} <= SeenSince(after, when, MAX_CLIENTS))
  {
    var i := SlotFor(t, call.ipv4);
    var after := Allowed(t, call.ipv4, call.now).0;
    hide Allowed, Refilled, Charged, Sane, SlotFor;
    CallTakesSlot(t, before, call.ipv4, call.now);
    OthersDoNotTouch(t, before, ipv4, call.ipv4, call.now);
    if Resident(after, ipv4) {
      var kept := SlotFor(after, ipv4);
      assert kept != i;
      SlotForHolder(t, before, ipv4, kept);
      forall x | x in SeenSince(t, when, MAX_CLIENTS) ensures x in SeenSince(after, when, MAX_CLIENTS) {
        var j :| 0 <= j < MAX_CLIENTS && Holds(t[j], x) && t[j].lastSeen >= when;
        assert j != i ==> after[j] == t[j];
      }
    }
  }

  lemma OwnCallIsAlone(t: Table, before: int, ipv4: u32, now: int)
    requires Sane(t, before) && before < now && 0 <= now < TIME_LIMIT
    ensures Alone(Allowed(t, ipv4, now).0, ipv4, now)
  {
    CallTakesSlot(t, before, ipv4, now);
  }

  lemma {:induction false} CallersAreSeen(t: Table, calls: seq<Call>, ipv4: u32, a: nat, hi: nat)
    requires Sane(t, 0) && Clocked(calls) && a < hi <= |calls| && calls[a].ipv4 == ipv4
    requires TimeAt(calls, a) < calls[a].now && (a + 1 < hi ==> calls[a].now < calls[a + 1].now)
    requires forall k :: a < k < hi ==> calls[k].ipv4 != ipv4
    ensures var after := After(t, calls, hi);
      && Alone(after, ipv4, calls[a].now)
      && (Resident(after, ipv4) ==> Callers(calls, a, hi) <= SeenSince(after, calls[a].now, MAX_CLIENTS))
    decreases hi
  {
    hide Allowed, Sane, Alone, Resident, SeenAt, Fresh;
    var k := hi - 1;
    var before, call, when := After(t, calls, k), calls[k], calls[a].now;
    RunStaysSane(t, calls, k);
    if k == a {
      OwnCallIsAlone(before, TimeAt(calls, k), ipv4, when);
      OwnCallIsFresh(before, TimeAt(calls, k), ipv4, when);
      FreshIsSeen(After(t, calls, hi), ipv4, when);
      assert Callers(calls, a, a) == {};
    } else {
      CallersAreSeen(t, calls, ipv4, a, k);
      LastSeenIsLastCall(t, calls, ipv4, a, k);
      LaterSeenStay(before, TimeAt(calls, k), ipv4, call, when);
    }
  }

  lemma FreshIsSeen(t: Table, ipv4: u32, when: int)
    requires Fresh(t, ipv4, when)
    ensures ipv4 in SeenSince(t, when, MAX_CLIENTS)
  {}

  /** Where nobody else called at the instant of the client's last call, the bound is exact: the client is
      resident if and only if at most 32 clients, itself included, have called from that call on. */
  lemma ResidentIffFewCall(t: Table, calls: seq<Call>, ipv4: u32, a: nat, hi: nat)
    requires Sane(t, 0) && Clocked(calls) && a < hi <= |calls| && calls[a].ipv4 == ipv4
    requires TimeAt(calls, a) < calls[a].now && (a + 1 < hi ==> calls[a].now < calls[a + 1].now)
    requires forall k :: a < k < hi ==> calls[k].ipv4 != ipv4
    ensures Resident(After(t, calls, hi), ipv4) <==> |Callers(calls, a, hi)| <= MAX_CLIENTS
  {
    hide Allowed, Sane, Alone, Resident;
    CallersAreSeen(t, calls, ipv4, a, hi);
    if |Callers(calls, a, hi)| <= MAX_CLIENTS {
      StaysWhileFewCall(t, calls, ipv4, a, a, hi);
    } else if Resident(After(t, calls, hi), ipv4) {
      Smaller(Callers(calls, a, hi), SeenSince(After(t, calls, hi), calls[a].now, MAX_CLIENTS));
    }
  }

  /** Between any two of the client's calls at most 32 clients call, itself included. */
  predicate FewBetween(calls: seq<Call>, ipv4: u32, lo: nat, hi: nat)
    requires lo <= hi <= |calls|
  {
    forall a, b :: lo <= a < b < hi && IsGap(calls, ipv4, a, b) ==> |Callers(calls, a, b)| <= MAX_CLIENTS
  }

  predicate IsGap(calls: seq<Call>, ipv4: u32, a: nat, b: nat)
    requires a < b < |calls|
  {
    calls[a].ipv4 == calls[b].ipv4 == ipv4 && forall k :: a < k < b ==> calls[k].ipv4 != ipv4
  }

  /** The client's calls each come later than every call before. */
  predicate ApartFromOthers(calls: seq<Call>, ipv4: u32) {
    forall k :: 0 <= k < |calls| && calls[k].ipv4 == ipv4 ==> TimeAt(calls, k) < calls[k].now
  }

  /** Index of the last call of a client before `b`. */
  function LastOwnBefore(calls: seq<Call>, ipv4: u32, a: nat, b: nat): (r: nat)
    requires a < b <= |calls| && calls[a].ipv4 == ipv4
    ensures a <= r < b && calls[r].ipv4 == ipv4 && forall k :: r < k < b ==> calls[k].ipv4 != ipv4
  {
    if calls[b - 1].ipv4 == ipv4 then b - 1 else LastOwnBefore(calls, ipv4, a, b - 1)
  }

  /** So the bucket bound holds of the calls alone, whatever the table does: a client between whose calls
      at most 32 clients call gets at most 8 + ceil(elapsed / 2 s) grants from any call of its own on. */
  lemma GrantsWhileFewCall(t: Table, calls: seq<Call>, ipv4: u32, a: nat, hi: nat)
    requires Sane(t, 0) && Clocked(calls) && a < hi <= |calls| && calls[a].ipv4 == ipv4
    requires ApartFromOthers(calls, ipv4) && FewBetween(calls, ipv4, a, hi)
    ensures StaysResident(t, calls, ipv4, a + 1, hi)
    ensures Grants(t, calls, ipv4, a, hi) <= BURST + (calls[hi - 1].now - calls[a].now + TOKEN_US - 1) / TOKEN_US
  {
    hide Allowed, Sane, Resident, Fresh;
    forall k | a + 1 <= k < hi && calls[k].ipv4 == ipv4 ensures Resident(After(t, calls, k), ipv4) {
      var p := LastOwnBefore(calls, ipv4, a, k);
      assert IsGap(calls, ipv4, p, k);
      StaysWhileFewCall(t, calls, ipv4, p, p, k);
      FreshIsResident(After(t, calls, k), ipv4, calls[p].now);
    }
    if Resident(After(t, calls, a), ipv4) {
      GrantsInWindow(t, calls, ipv4, a, hi, calls[a].now, calls[hi - 1].now);
    } else {
      GrantsSinceAllocation(t, calls, ipv4, a, hi);
    }
  }

  lemma FreshIsResident(t: Table, ipv4: u32, when: int)
    requires Fresh(t, ipv4, when)
    ensures Resident(t, ipv4)
  {}

  // ---------------------------------------------------------------- where the bound needs its conditions

  /** Time zero is taken for "never refilled": in a table no later than that, every request is granted. */
  lemma ZeroClockGrants(t: Table, ipv4: u32)
    requires Sane(t, 0)
    ensures Allowed(t, ipv4, 0).1 && Sane(Allowed(t, ipv4, 0).0, 0)
  {
    AllowedKeepsSane(t, ipv4, 0, 0);
    if Resident(t, ipv4) { assert Entry(t, ipv4).inUse; }
  }

  /** Calls of one client among calls `lo..hi`. */
  function OwnCalls(calls: seq<Call>, ipv4: u32, lo: nat, hi: nat): nat
    requires lo <= hi <= |calls|
  {
    if lo == hi then 0 else OwnCalls(calls, ipv4, lo, hi - 1) + if calls[hi - 1].ipv4 == ipv4 then 1 else 0
  }

  lemma {:induction false} ZeroClockGrantsAll(t: Table, calls: seq<Call>, ipv4: u32, lo: nat, hi: nat)
    requires Sane(t, 0) && Clocked(calls) && lo <= hi <= |calls|
    requires hi > 0 ==> calls[hi - 1].now == 0
    ensures Grants(t, calls, ipv4, lo, hi) == OwnCalls(calls, ipv4, lo, hi)
    decreases hi
  {
    hide Allowed, Sane, Resident;
    if lo < hi {
      ZeroClockGrantsAll(t, calls, ipv4, lo, hi - 1);
      RunStaysSane(t, calls, hi - 1);
      assert TimeAt(calls, hi - 1) == 0;
      ZeroClockGrants(After(t, calls, hi - 1), calls[hi - 1].ipv4);
    }
  }

  /** So at the instant zero the burst bounds a client exactly when it makes no more calls than that. */
  lemma ZeroInstantBoundIff(t: Table, calls: seq<Call>, ipv4: u32, lo: nat, hi: nat)
    requires Sane(t, 0) && Clocked(calls) && lo <= hi <= |calls|
    requires hi > 0 ==> calls[hi - 1].now == 0
    ensures Grants(t, calls, ipv4, lo, hi) <= BURST <==> OwnCalls(calls, ipv4, lo, hi) <= BURST
  {
    ZeroClockGrantsAll(t, calls, ipv4, lo, hi);
  }

  lemma {:induction false} GrantsSplit(t: Table, calls: seq<Call>, ipv4: u32, lo: nat, mid: nat, hi: nat)
    requires lo <= mid <= hi <= |calls|
    ensures Grants(t, calls, ipv4, lo, hi) == Grants(t, calls, ipv4, lo, mid) + Grants(t, calls, ipv4, mid, hi)
    decreases hi
  {
    hide Granted;
    if mid < hi { GrantsSplit(t, calls, ipv4, lo, mid, hi - 1); }
  }

  /** And a run that starts at zero and goes on exceeds the window bound by those first calls at most. */
  lemma GrantsAcrossZero(t: Table, calls: seq<Call>, ipv4: u32, mid: nat, hi: nat, start: int, end: int)
    requires Sane(t, 0) && Clocked(calls) && mid <= hi <= |calls| && 0 < start <= end
    requires mid > 0 ==> calls[mid - 1].now == 0
    requires forall k :: mid <= k < hi ==> start <= calls[k].now <= end
    requires StaysResident(t, calls, ipv4, mid, hi)
    ensures var grants := Grants(t, calls, ipv4, 0, hi) - OwnCalls(calls, ipv4, 0, mid);
      0 <= grants <= BURST + (end - start + TOKEN_US - 1) / TOKEN_US
  {
    hide Allowed, Sane, Resident;
    ZeroClockGrantsAll(t, calls, ipv4, 0, mid);
    GrantsSplit(t, calls, ipv4, 0, mid, hi);
    GrantsInWindow(t, calls, ipv4, mid, hi, start, end);
  }
}
