/** The key ring in closed form: which key, identifier and window every slot holds after any run
    (main/nts_storage.c). */
module KeyIssue {
  import opened Bytes
  import opened Esp
  import opened AesSiv
  import opened KeyRing

  /** The i-th key issued since the first start: identifiers count from 1 and skip zero, windows are
      consecutive periods, and the secret is the i-th one drawn. */
  function Issued(start: nat, keys: seq<Key>, i: nat): CookieKey
    requires i < |keys| && start + (i + 1) * PERIOD < TWO_64
  {
    CookieKey(i % (TWO_32 - 1) + 1, start + i * PERIOD, start + (i + 1) * PERIOD, keys[i], 1)
  }

  /** The last key is NEXT and the one before ACTIVE, which has begun by a 32-bit time. */
  predicate Issuable(start: nat, keys: seq<Key>) {
    |keys| >= 2 && start + (|keys| - 2) * PERIOD < TWO_32
  }

  /** The ring once these keys have been issued: the last three of them, or the first two alone. */
  function RingOf(start: nat, keys: seq<Key>): Ring
    requires Issuable(start, keys)
  {
    var n := |keys|;
    [if n == 2 then NO_KEY else Issued(start, keys, n - 3), Issued(start, keys, n - 2), Issued(start, keys, n - 1)]
  }

  /** `m` keys drawn from the generator, from index `n` on. */
  function Drawn(draw: Draws, n: nat, m: nat): (r: seq<Key>)
    ensures |r| == m
  {
    seq(m, i requires 0 <= i < m => draw(n + i))
  }

  /** How many windows have ended by `now`, the first of them at `end`. */
  function Due(end: int, now: int): nat {
    if now < end then 0 else (now - end) / PERIOD + 1
  }

  lemma FreshIs(start: u32, draw: Draws)
    ensures Issuable(start, [draw(0), draw(1)]) && Fresh(start, draw) == RingOf(start, [draw(0), draw(1)])
  {}

  lemma RingIsHealthy(start: nat, keys: seq<Key>)
    requires Issuable(start, keys)
    ensures var r := RingOf(start, keys);
      Healthy(r) && r[ACTIVE].notAfter == r[NEXT].notBefore == start + (|keys| - 1) * PERIOD < r[NEXT].notAfter
  {
    var n := |keys|;
    if n > 2 { SuccessorIs(n - 3); }
    SuccessorIs(n - 2);
  }

  lemma SuccessorIs(i: nat)
    ensures NextKeyId(i % (TWO_32 - 1) + 1) == (i + 1) % (TWO_32 - 1) + 1
  {
    var q, r := i / (TWO_32 - 1), i % (TWO_32 - 1);
    assert i + 1 == q * (TWO_32 - 1) + (r + 1);
    if r == TWO_32 - 2 { assert i + 1 == (q + 1) * (TWO_32 - 1); }
  }

  lemma RotateIs(start: nat, keys: seq<Key>, key: Key)
    requires Issuable(start, keys) && start + (|keys| - 1) * PERIOD < TWO_32
    ensures Issuable(start, keys + [key]) && Rotate(RingOf(start, keys), key) == RingOf(start, keys + [key])
  {
    SuccessorIs(|keys| - 1);
    var n := |keys|;
    assert (keys + [key])[n - 2] == keys[n - 2] && (keys + [key])[n - 1] == keys[n - 1];
    RotatedSlot(start, keys, key);
    hide NextKeyId;
  }

  lemma RotatedSlot(start: nat, keys: seq<Key>, key: Key)
    requires Issuable(start, keys) && start + (|keys| - 1) * PERIOD < TWO_32
    ensures Generated(|keys| % (TWO_32 - 1) + 1, start + |keys| * PERIOD, key) == Issued(start, keys + [key], |keys|)
  {}

  lemma DueStep(end: int, now: int)
    requires now >= end
    ensures Due(end, now) == 1 + Due(end + PERIOD, now)
  {}

  lemma {:induction false} CatchUpIs(start: nat, keys: seq<Key>, now: u32, draw: Draws, n: nat)
    requires Issuable(start, keys)
    ensures var r, m := RingOf(start, keys), Due(start + (|keys| - 1) * PERIOD, now);
      && Chained(r, now) && Issuable(start, keys + Drawn(draw, n, m))
      && CatchUp(r, now, draw, n) == RingOf(start, keys + Drawn(draw, n, m))
    decreases Due(start + (|keys| - 1) * PERIOD, now)
  {
    var end := start + (|keys| - 1) * PERIOD;
    hide Healthy, Rotate, RingOf, Drawn, Due;
    RingIsHealthy(start, keys);
    if now >= end {
      DueStep(end, now);
      RotateIs(start, keys, draw(n));
      CatchUpIs(start, keys + [draw(n)], now, draw, n + 1);
      DrawnFirst(keys, draw, n, Due(end, now));
    } else {
      NothingDue(keys, draw, n, end, now);
    }
  }

  lemma DrawnFirst(keys: seq<Key>, draw: Draws, n: nat, m: nat)
    requires m > 0
    ensures keys + Drawn(draw, n, m) == keys + [draw(n)] + Drawn(draw, n + 1, m - 1)
  {
    assert Drawn(draw, n, m) == [draw(n)] + Drawn(draw, n + 1, m - 1);
  }

  lemma NothingDue(keys: seq<Key>, draw: Draws, n: nat, end: int, now: int)
    requires now < end
    ensures keys + Drawn(draw, n, Due(end, now)) == keys
  {}

  /** The keys issued by the end of a run: a call with a clock and storage at hand issues one for every window
      that has ended, drawn in order; any other issues none. */
  function IssuedBy(start: nat, keys: seq<Key>, calls: seq<Env>): seq<Key>
    requires |keys| >= 2
    decreases |calls|
  {
    if calls == [] then keys
    else
      var env := calls[0];
      var able := env.load == OK && env.save == OK && env.now.Some?;
      var m := if able then Due(start + (|keys| - 1) * PERIOD, env.now.value) else 0;
      IssuedBy(start, keys + Drawn(env.draw, 0, m), calls[1..])
  }

  /** One call: what it answers, and what it leaves. */
  lemma MaintainedIs(start: nat, keys: seq<Key>, env: Env)
    requires Issuable(start, keys)
    ensures var due := if env.now.Some? then Due(start + (|keys| - 1) * PERIOD, env.now.value) else 0;
      var able := env.load == OK && env.save == OK && env.now.Some?;
      var (err, ring) := Maintained(Some(RingOf(start, keys)), env);
      && err == (if env.load != OK then env.load else if env.now.None? then INVALID_STATE
                 else if due == 0 then OK else env.save)
      && (!able || due == 0 ==> ring == Some(RingOf(start, keys)))
      && (able ==> Issuable(start, keys + Drawn(env.draw, 0, due)) && ring == Some(RingOf(start, keys + Drawn(env.draw, 0, due))))
  {
    RingIsHealthy(start, keys);
    HealthyIsAccepted(RingOf(start, keys));
    hide Healthy, Accepted, RingOf;
    assert keys + Drawn(env.draw, 0, 0) == keys;
    if env.now.Some? { CatchUpIs(start, keys, env.now.value, env.draw, 0); }
  }

  lemma {:induction false} RunIs(start: nat, keys: seq<Key>, calls: seq<Env>)
    requires Issuable(start, keys)
    ensures Issuable(start, IssuedBy(start, keys, calls))
    ensures Run(RingOf(start, keys), calls) == RingOf(start, IssuedBy(start, keys, calls))
    decreases |calls|
  {
    hide RingOf, Maintained;
    if calls != [] {
      var env := calls[0];
      MaintainedIs(start, keys, env);
      assert keys + Drawn(env.draw, 0, 0) == keys;
      var able := env.load == OK && env.save == OK && env.now.Some?;
      var m := if able then Due(start + (|keys| - 1) * PERIOD, env.now.value) else 0;
      RunIs(start, keys + Drawn(env.draw, 0, m), calls[1..]);
    }
  }

  /** Every reachable ring, slot by slot. From the first start and over every run of maintenance calls, the
      ring holds the last three of the keys issued so far - each with its own drawn secret, identifier and
      window - or the two of the first start with no predecessor. */
  lemma ReachableRingIs(start: u32, draw: Draws, calls: seq<Env>)
    ensures var keys := IssuedBy(start, [draw(0), draw(1)], calls);
      Issuable(start, keys) && Run(Fresh(start, draw), calls) == RingOf(start, keys)
  {
    FreshIs(start, draw);
    RunIs(start, [draw(0), draw(1)], calls);
  }

  /** So while no two drawn secrets are the same, no two slots share one. */
  lemma SlotsHoldDistinctSecrets(start: u32, draw: Draws, calls: seq<Env>, i: nat, j: nat)
    requires i < j < 3
    requires var keys := IssuedBy(start, [draw(0), draw(1)], calls);
      forall a, b :: 0 <= a < b < |keys| ==> keys[a] != keys[b]
    ensures var r := Run(Fresh(start, draw), calls); r[i].valid == 1 ==> r[j].valid == 1 && r[i].key != r[j].key
  {
    ReachableRingIs(start, draw, calls);
    hide Run, IssuedBy;
  }
}
