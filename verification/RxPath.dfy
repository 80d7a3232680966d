/** The receive path as the NTP server calls it: take the client's hardware timestamp out of the ring, then
    map it to UTC (main/eth_service.c). */
module RxPath {
  import opened Bytes
  import opened Esp
  import opened PtpMap
  import opened RxQueue
  import opened Timestamps

  /** Clock, hardware time and clock again, as read after the timestamp has been taken. */
  datatype Readings = Readings(before: Timestamp, now: PtpTime, after: Timestamp)

  /** Queue and result of one call. A timestamp that cannot be mapped has been taken all the same. */
  function Fetched(q: Queue, client: Client, readings: Option<Readings>, c: Correlation, nowUs: int): (Queue, Option<Mapped>) {
    var (after, entry) := Taken(q, client);
    if entry.None? || readings.None? then (after, None)
    else
      var r := readings.value;
      (after, MapReceive(r.before, r.now, r.after, entry.value.time, c, nowUs))
  }

  /** The call, with the mapping steps inlined as the source has them. */
  method GetRxTimestamp(ring: RxTimestampRing, client: Client, readings: Option<Readings>, c: Correlation, nowUs: int)
    returns (mapped: Option<Mapped>)
    requires ring.Valid()
    modifies ring, ring.slots
    ensures ring.Valid() && ring.View() == Fetched(old(ring.View()), client, readings, c, nowUs).0
    ensures mapped == Fetched(old(ring.View()), client, readings, c, nowUs).1
  {
    var event := ring.Take(client);
    hide NtpToNs, PtpToNs, NsToFraction, SplitOf, Taken;
    if event.None? || readings.None? { return None; }
    var before, now, after := readings.value.before, readings.value.now, readings.value.after;
    var beforeNs, afterNs, nowNs, eventNs := NtpToNs(before), NtpToNs(after), PtpToNs(now), PtpToNs(event.value);
    if afterNs < beforeNs || nowNs < eventNs { return None; }
    var bracketNs := afterNs - beforeNs;
    var midNs := beforeNs + bracketNs / 2;
    var ageNs := nowNs - eventNs;
    if !c.valid || c.samples < 2 || c.lastUs <= 0 || nowUs < c.lastUs || nowUs - c.lastUs > MAX_CORRELATION_AGE_US
      || bracketNs > MAX_BRACKET_NS { return None; }
    var denominator := NS_PER_S + c.ratePpb;
    if denominator <= 0 { return None; }
    var utcAgeNs := SplitOf(ageNs / denominator, ageNs % denominator, denominator);
    if utcAgeNs > midNs { return None; }
    var mappedNs := midNs - utcAgeNs;
    var seconds, nanoseconds := mappedNs / NS_PER_S, mappedNs % NS_PER_S;
    if seconds > TWO_32 - 1 { return None; }
    FractionFits(nanoseconds);
    return Some(Mapped(seconds, NsToFraction(nanoseconds), Saturate32(bracketNs), Saturate32(ageNs / 1000)));
  }

  /** Slot `i` holds the oldest live entry of the client. */
  predicate OldestLive(q: Queue, client: Client, i: nat) {
    && i < 16 && q.slots[i].valid && q.slots[i].client == client
    && forall j :: 0 <= j < 16 && q.slots[j].valid && q.slots[j].client == client ==> q.slots[i].sequence <= q.slots[j].sequence
  }

  /** When a client gets a time, after any run of insertions and takes: never without a live entry or without
      readings; and for its oldest live entry, which is used up either way, wherever the split computation fits, if and only if that event
      can be mapped with these readings. */
  lemma FetchedIff(ops: seq<Op>, client: Client, i: nat, readings: Option<Readings>, c: Correlation, nowUs: int)
    requires Inserts(ops) < TWO_32 - 1 && c.ratePpb <= MAX_DIVISOR - NS_PER_S
    ensures var q := Run(ops).q;
      var result := Fetched(q, client, readings, c, nowUs).1;
      && ((forall j :: 0 <= j < 16 && q.slots[j].valid ==> q.slots[j].client != client) || readings.None? ==> result.None?)
      && (OldestLive(q, client, i) ==> !Fetched(q, client, readings, c, nowUs).0.slots[i].valid)
      && (OldestLive(q, client, i) && readings.Some? ==>
            var r, event := readings.value, q.slots[i].time;
            && result == MapReceive(r.before, r.now, r.after, event, c, nowUs)
            && (Plausible(r.before, r.now, r.after, event, c, nowUs)
                && SplitFits(PtpToNs(r.now) - PtpToNs(event), NS_PER_S + c.ratePpb) ==>
                  (result.Some? <==> Mappable(r.before, r.now, r.after, event, c, nowUs))))
  {
    var q := Run(ops).q;
    TakeServesItsClient(ops, client);
    hide MapReceive, Plausible, Mappable, SplitFits, PtpToNs, NtpToNs, Run, Taken;
    if OldestLive(q, client, i) {
      OldestIsTaken(ops, client, i);
      if readings.Some? {
        var r := readings.value;
        MapReceiveIff(r.before, r.now, r.after, q.slots[i].time, c, nowUs);
      }
    }
  }

  /** Live entries have different sequence numbers, so the oldest is the one taken. */
  lemma OldestIsTaken(ops: seq<Op>, client: Client, i: nat)
    requires Inserts(ops) < TWO_32 - 1 && OldestLive(Run(ops).q, client, i)
    ensures Taken(Run(ops).q, client).1 == Some(Run(ops).q.slots[i]) && !Taken(Run(ops).q, client).0.slots[i].valid
  {
    var q := Run(ops).q;
    forall j | 0 <= j < 16 && q.slots[j].valid && q.slots[j].sequence == q.slots[i].sequence ensures i == j {
      SequencesDiffer(ops, i, j);
    }
    SequencesDiffer(ops, i, i);
    hide Run, Taken;
    TakeIs(q, client, i);
  }

  lemma SequencesDiffer(ops: seq<Op>, i: nat, j: nat)
    requires Inserts(ops) < TWO_32 - 1 && i < 16 && j < 16
    requires var slots := Run(ops).q.slots; slots[i].valid && slots[j].valid && slots[i].sequence == slots[j].sequence
    ensures i == j && Run(ops).q.slots[i].sequence < 0xFFFF_FFFF
  {
    var h := Run(ops);
    RunKeepsInvariant(ops);
    hide Run, LiveCount;
    assert SlotOk(h, i) && SlotOk(h, j);
  }

  /** After any run of insertions and takes, a fetched time is the UTC of a receive timestamp that this very
      client inserted and that had been delivered to nobody, later than all that had been delivered to it -
      exactly so when, and only when, the split computation fits. */
  lemma FetchedIsOwnReceiveTime(ops: seq<Op>, client: Client, r: Readings, c: Correlation, nowUs: int) returns (k: nat)
    requires Inserts(ops) < TWO_32 - 1 && c.ratePpb <= MAX_DIVISOR - NS_PER_S
    requires Fetched(Run(ops).q, client, Some(r), c, nowUs).1.Some?
    ensures k < |Run(ops).inserted| && Run(ops).inserted[k].0 == client
    ensures forall a :: 0 <= a < |Run(ops).delivered| ==>
      var e := Run(ops).delivered[a];
      e.sequence != k + 1 && (e.client == client ==> e.sequence < k + 1)
    ensures var event, m := Run(ops).inserted[k].1, Fetched(Run(ops).q, client, Some(r), c, nowUs).1.value;
      && PtpToNs(event) <= PtpToNs(r.now) && NS_PER_S + c.ratePpb > 0
      && (NtpToNs(Timestamp(m.seconds, m.fraction)) == ExactNs(r.before, r.now, r.after, event, c)
          <==> SplitFits(PtpToNs(r.now) - PtpToNs(event), NS_PER_S + c.ratePpb))
  {
    var h, next := Run(ops), ops + [Take(client)];
    assert next[..|ops|] == ops;
    var g := Run(next);
    assert g == Step(h, Take(client)) && g.inserted == h.inserted;
    DeliveriesAreFaithful(next);
    TakeServesItsClient(ops, client);
    hide MapReceive, ExactNs, SplitFits, PtpToNs, NtpToNs, Run, LiveCount, Counted, SlotsOk;
    var e := Taken(h.q, client).1.value;
    assert g.delivered[|h.delivered|] == e;
    assert Authentic(g, e);
    k := e.sequence - 1;
    forall a | 0 <= a < |h.delivered| ensures Precedes(h.delivered[a], e) {
      assert g.delivered[a] == h.delivered[a];
    }
    MapReceiveIsExactIff(r.before, r.now, r.after, e.time, c, nowUs);
  }
}
