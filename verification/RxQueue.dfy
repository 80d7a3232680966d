/** The ring of hardware receive timestamps waiting for the NTP server (main/eth_service.c). */
module RxQueue {
  import opened Bytes
  import opened Esp
  import opened Timestamps

  const SIZE: nat := 16

  type Index = n: nat | n < SIZE

  datatype Client = Client(ipv4: u32, port: u16)

  datatype Entry = Entry(valid: bool, client: Client, sequence: u32, time: PtpTime)

  type Slots = s: seq<Entry> | |s| == SIZE witness seq(SIZE, _ => Entry(false, Client(0, 0), 0, PtpTime(0, 0)))

  datatype Queue = Queue(slots: Slots, next: Index, sequence: u32, enqueued: u32, overruns: u32, matches: u32, misses: u32)

  function EmptySlots(): (s: Slots)
    ensures forall i :: 0 <= i < SIZE ==> s[i] == Entry(false, Client(0, 0), 0, PtpTime(0, 0))
  {
    seq(SIZE, _ => Entry(false, Client(0, 0), 0, PtpTime(0, 0)))
  }

  function Empty(): Queue {
    Queue(EmptySlots(), 0, 0, 0, 0, 0, 0)
  }

  function Bump(counter: u32): u32 {
    (counter + 1) % TWO_32
  }

  function Inserted(q: Queue, client: Client, time: PtpTime): Queue {
    var s := Bump(q.sequence);
    q.(slots := q.slots[q.next := Entry(true, client, s, time)],
       next := (q.next + 1) % SIZE,
       sequence := s,
       enqueued := Bump(q.enqueued),
       overruns := if q.slots[q.next].valid then Bump(q.overruns) else q.overruns)
  }

  predicate Matches(e: Entry, client: Client) {
    e.valid && e.client == client && e.sequence < TWO_32 - 1
  }

  /** Slot of the oldest matching entry among the first `n`, or none; ties go to the lower slot. */
  function Oldest(slots: Slots, client: Client, n: nat): (r: Option<nat>)
    requires n <= SIZE
    ensures r.Some? ==> r.value < n && Matches(slots[r.value], client)
    ensures r.Some? ==> forall i :: 0 <= i < n && Matches(slots[i], client) ==> slots[r.value].sequence <= slots[i].sequence
    ensures r.None? ==> forall i :: 0 <= i < n ==> !Matches(slots[i], client)
  {
    if n == 0 then None
    else
      var best := Oldest(slots, client, n - 1);
      if Matches(slots[n - 1], client) && (best.None? || slots[n - 1].sequence < slots[best.value].sequence)
      then Some(n - 1) else best
  }

  function Taken(q: Queue, client: Client): (Queue, Option<Entry>) {
    match Oldest(q.slots, client, SIZE)
    case None => (q.(misses := Bump(q.misses)), None)
    case Some(i) =>
      (q.(slots := q.slots[i := q.slots[i].(valid := false)], matches := Bump(q.matches)), Some(q.slots[i]))
  }

  /** The static ring and its counters, updated in place under the lock. */
  class RxTimestampRing {
    const slots: array<Entry>
    var next: Index
    var sequence: u32
    var enqueued: u32
    var overruns: u32
    var matches: u32
    var misses: u32

    constructor ()
      ensures Valid() && fresh(slots) && View() == Empty()
    {
      slots := new Entry[SIZE](_ => Entry(false, Client(0, 0), 0, PtpTime(0, 0)));
      next, sequence, enqueued, overruns, matches, misses := 0, 0, 0, 0, 0, 0;
    }

    ghost predicate Valid()
      reads this
    {
      slots.Length == SIZE
    }

    ghost function View(): Queue
      reads this, slots
      requires Valid()
    {
      Queue(slots[..], next, sequence, enqueued, overruns, matches, misses)
    }

    method Insert(client: Client, time: PtpTime)
      requires Valid()
      modifies this, slots
      ensures Valid() && View() == Inserted(old(View()), client, time)
    {
      if slots[next].valid {
        overruns := Bump(overruns);
      }
      sequence := Bump(sequence);
      slots[next] := Entry(true, client, sequence, time);
      next := (next + 1) % SIZE;
      enqueued := Bump(enqueued);
    }

    method Take(client: Client) returns (time: Option<PtpTime>)
      requires Valid()
      modifies this, slots
      ensures Valid() && View() == Taken(old(View()), client).0
      ensures var taken := Taken(old(View()), client).1;
        time == if taken.Some? then Some(taken.value.time) else None
    {
      var bestIndex := 0;
      var bestSequence: u32 := TWO_32 - 1;
      var found := false;
      for index := 0 to SIZE
        invariant slots[..] == old(slots[..])
        invariant Oldest(slots[..], client, index) == if found then Some(bestIndex) else None
        invariant found ==> bestSequence == slots[bestIndex].sequence
        invariant !found ==> bestSequence == TWO_32 - 1
      {
        var entry := slots[index];
        if entry.valid && entry.client == client && entry.sequence < bestSequence {
          bestIndex, bestSequence, found := index, entry.sequence, true;
        }
      }
      if found {
        time := Some(slots[bestIndex].time);
        slots[bestIndex] := slots[bestIndex].(valid := false);
        matches := Bump(matches);
      } else {
        misses := Bump(misses);
        time := None;
      }
    }
  }

  /** Slot `i` is the lowest of those with the smallest sequence number among a client's live entries; an entry
      under the last sequence number is never found. */
  predicate FirstInLine(q: Queue, client: Client, i: nat) {
    && i < 16 && q.slots[i].valid && q.slots[i].client == client && q.slots[i].sequence < 0xFFFF_FFFF
    && forall j :: 0 <= j < 16 && q.slots[j].valid && q.slots[j].client == client ==>
         q.slots[i].sequence < q.slots[j].sequence || (q.slots[i].sequence == q.slots[j].sequence && i <= j)
  }

  /** A take from any queue at all: the first in line is freed and handed over, and without one the take is a miss. */
  lemma TakeIs(q: Queue, client: Client, i: nat)
    ensures FirstInLine(q, client, i) ==>
      Taken(q, client)
        == (q.(slots := q.slots[i := q.slots[i].(valid := false)], matches := (q.matches + 1) % TWO_32), Some(q.slots[i]))
    ensures (forall j :: 0 <= j < 16 && q.slots[j].valid && q.slots[j].client == client ==> q.slots[j].sequence == 0xFFFF_FFFF) ==>
      Taken(q, client) == (q.(misses := (q.misses + 1) % TWO_32), None)
  {
    if FirstInLine(q, client, i) { LowestOfOldest(q.slots, client, SIZE, i); }
  }

  lemma {:induction false} LowestOfOldest(slots: Slots, client: Client, n: nat, i: nat)
    requires i < n <= SIZE && Matches(slots[i], client)
    requires forall j :: 0 <= j < n && slots[j].valid && slots[j].client == client ==>
      slots[i].sequence < slots[j].sequence || (slots[i].sequence == slots[j].sequence && i <= j)
    ensures Oldest(slots, client, n) == Some(i)
  {
    if i < n - 1 { LowestOfOldest(slots, client, n - 1, i); }
  }

  // ---------------------------------------------------------------- whole runs

  datatype Op = Insert(client: Client, time: PtpTime) | Take(client: Client)

  /** A run keeps the queue with everything inserted, delivered, and overwritten while live so far. */
  datatype History = History(q: Queue, inserted: seq<(Client, PtpTime)>, delivered: seq<Entry>, lost: seq<Entry>)

  function Step(h: History, op: Op): History {
    match op
    case Insert(client, time) =>
      var gone := h.q.slots[h.q.next];
      History(Inserted(h.q, client, time), h.inserted + [(client, time)], h.delivered,
              h.lost + if gone.valid then [gone] else [])
    case Take(client) =>
      var taken := Taken(h.q, client);
      History(taken.0, h.inserted, h.delivered + (if taken.1.Some? then [taken.1.value] else []), h.lost)
  }

  function Run(ops: seq<Op>): History {
    if ops == [] then History(Empty(), [], [], []) else Step(Run(ops[..|ops| - 1]), ops[|ops| - 1])
  }

  function Inserts(ops: seq<Op>): nat {
    if ops == [] then 0 else Inserts(ops[..|ops| - 1]) + if ops[|ops| - 1].Insert? then 1 else 0
  }

  function LiveCount(slots: seq<Entry>): nat {
    if slots == [] then 0 else LiveCount(slots[..|slots| - 1]) + if slots[|slots| - 1].valid then 1 else 0
  }

  lemma {:induction false} LiveCountUpdate(slots: seq<Entry>, i: nat, e: Entry)
    requires i < |slots|
    ensures LiveCount(slots[i := e]) + (if slots[i].valid then 1 else 0) == LiveCount(slots) + (if e.valid then 1 else 0)
  {
    var n := |slots| - 1;
    var updated := slots[i := e];
    if i == n {
      assert updated[..n] == slots[..n];
    } else {
      assert updated[..n] == slots[..n][i := e];
      LiveCountUpdate(slots[..n], i, e);
    }
  }

  /** An entry carries what was inserted under its sequence number. */
  predicate Authentic(h: History, e: Entry) {
    e.valid && 1 <= e.sequence <= |h.inserted| && h.inserted[e.sequence - 1] == (e.client, e.time)
  }

  predicate Recent(e: Entry, n: nat, i: nat) {
    e.sequence > n - SIZE && (e.sequence - 1) % SIZE == i
  }

  /** A live slot holds one of the last sixteen insertions, in the slot of its sequence number. */
  predicate SlotOk(h: History, i: nat)
    requires i < SIZE
  {
    h.q.slots[i].valid ==> Authentic(h, h.q.slots[i]) && Recent(h.q.slots[i], |h.inserted|, i)
  }

  /** `d` may be delivered before `e`: a different insertion, and an earlier one if the client is the same. */
  predicate Precedes(d: Entry, e: Entry) {
    d.sequence != e.sequence && (d.client == e.client ==> d.sequence < e.sequence)
  }

  /** Every insertion is delivered, overwritten or live. */
  predicate Counted(h: History) {
    && |h.inserted| < TWO_32 - 1
    && h.q.sequence == h.q.enqueued == |h.inserted|
    && h.q.next == |h.inserted| % SIZE
    && h.q.matches == |h.delivered|
    && h.q.enqueued == h.q.matches + h.q.overruns + LiveCount(h.q.slots)
  }

  predicate SlotsOk(h: History) {
    forall i :: 0 <= i < SIZE ==> SlotOk(h, i)
  }

  predicate DeliveriesAuthentic(h: History) {
    forall a :: 0 <= a < |h.delivered| ==> Authentic(h, h.delivered[a])
  }

  predicate LiveFollow(h: History) {
    forall a, i :: 0 <= a < |h.delivered| && 0 <= i < SIZE && h.q.slots[i].valid ==> Precedes(h.delivered[a], h.q.slots[i])
  }

  predicate InOrder(h: History) {
    forall a, b :: 0 <= a < b < |h.delivered| ==> Precedes(h.delivered[a], h.delivered[b])
  }

  predicate Invariant(h: History) {
    Counted(h) && SlotsOk(h) && DeliveriesAuthentic(h) && LiveFollow(h) && InOrder(h)
  }

  lemma InsertKeepsCount(h: History, client: Client, time: PtpTime)
    requires Counted(h) && |h.inserted| + 1 < TWO_32 - 1
    ensures Counted(Step(h, Insert(client, time)))
  {
    hide LiveCount, Bump;
    LiveCountUpdate(h.q.slots, h.q.next, Entry(true, client, Bump(h.q.sequence), time));
    BumpAdds(h.q.sequence);
    BumpAdds(h.q.overruns);
  }

  lemma BumpAdds(counter: u32)
    ensures counter < TWO_32 - 1 ==> Bump(counter) == counter + 1
  {}

  lemma InsertKeepsInvariant(h: History, client: Client, time: PtpTime)
    requires Invariant(h) && |h.inserted| + 1 < TWO_32 - 1
    ensures Invariant(Step(h, Insert(client, time)))
  {
    InsertKeepsCount(h, client, time);
    hide Counted, LiveCount;
    var g := Step(h, Insert(client, time));
    var n := |h.inserted|;
    assert n < TWO_32 - 1 && h.q.sequence == n && h.q.next == n % SIZE by { InsertShape(h); }
    forall i | 0 <= i < SIZE ensures SlotOk(g, i) {
      assert SlotOk(h, i);
      if i != n % SIZE && h.q.slots[i].valid { SameSlotIsSixteenApart(h.q.slots[i].sequence, n, i); }
    }
    forall a | 0 <= a < |g.delivered| ensures Authentic(g, g.delivered[a]) {
      assert Authentic(h, h.delivered[a]);
    }
  }

  lemma InsertShape(h: History)
    requires Counted(h)
    ensures |h.inserted| < TWO_32 - 1 && h.q.sequence == |h.inserted| && h.q.next == |h.inserted| % SIZE
  {}

  /** A live entry elsewhere than the slot being overwritten stays among the last sixteen. */
  lemma SameSlotIsSixteenApart(sequence: nat, n: nat, i: nat)
    requires n - SIZE < sequence <= n && 1 <= sequence && (sequence - 1) % SIZE == i && i != n % SIZE
    ensures sequence > n + 1 - SIZE
  {}

  lemma TakeKeepsCount(h: History, client: Client)
    requires Counted(h)
    ensures Counted(Step(h, Take(client)))
  {
    var oldest := Oldest(h.q.slots, client, SIZE);
    if oldest.Some? {
      LiveCountUpdate(h.q.slots, oldest.value, h.q.slots[oldest.value].(valid := false));
    }
  }

  lemma TakeKeepsInvariant(h: History, client: Client)
    requires Invariant(h)
    ensures Invariant(Step(h, Take(client)))
  {
    TakeKeepsCount(h, client);
    hide Counted, LiveCount;
    var g := Step(h, Take(client));
    var oldest := Oldest(h.q.slots, client, SIZE);
    forall i | 0 <= i < SIZE ensures SlotOk(g, i) { assert SlotOk(h, i); }
    if oldest.Some? {
      var at := oldest.value;
      var e := h.q.slots[at];
      assert SlotOk(h, at);
      forall i | 0 <= i < SIZE && i != at && h.q.slots[i].valid ensures Precedes(e, h.q.slots[i]) {
        assert SlotOk(h, i);
      }
      forall a | 0 <= a < |g.delivered| ensures Authentic(g, g.delivered[a]) {
        if a < |h.delivered| { assert Authentic(h, h.delivered[a]); }
      }
    }
  }

  lemma {:induction false} RunKeepsInvariant(ops: seq<Op>)
    requires Inserts(ops) < TWO_32 - 1
    ensures Invariant(Run(ops)) && |Run(ops).inserted| == Inserts(ops)
  {
    if ops == [] {
      NoneLive(EmptySlots());
    } else {
      hide Invariant;
      var init := ops[..|ops| - 1];
      RunKeepsInvariant(init);
      match ops[|ops| - 1]
      case Insert(client, time) => InsertKeepsInvariant(Run(init), client, time);
      case Take(client) => TakeKeepsInvariant(Run(init), client);
    }
  }

  lemma {:induction false} NoneLive(slots: seq<Entry>)
    requires forall i :: 0 <= i < |slots| ==> !slots[i].valid
    ensures LiveCount(slots) == 0
  {
    if slots != [] { NoneLive(slots[..|slots| - 1]); }
  }

  /** Main theorem, over every run with fewer than 2^32 - 1 insertions: every insertion is delivered,
      overwritten or live; each live entry sits in the slot of its sequence number and is among the
      last sixteen; every delivery is what that very client had inserted; no insertion is delivered
      twice; and one client's deliveries come in insertion order. */
  lemma DeliveriesAreFaithful(ops: seq<Op>)
    requires Inserts(ops) < TWO_32 - 1
    ensures var h := Run(ops);
      Counted(h) && SlotsOk(h) && DeliveriesAuthentic(h) && InOrder(h) && |h.inserted| == Inserts(ops)
  {
    RunKeepsInvariant(ops);
  }

  /** A take delivers the oldest entry of its own client, and misses only when nothing of it is live. */
  lemma TakeServesItsClient(ops: seq<Op>, client: Client)
    requires Inserts(ops) < TWO_32 - 1
    ensures var h := Run(ops);
      match Taken(h.q, client).1
      case Some(e) =>
        && e.client == client
        && forall i :: 0 <= i < SIZE && h.q.slots[i].valid && h.q.slots[i].client == client ==>
             e.sequence <= h.q.slots[i].sequence
      case None => forall i :: 0 <= i < SIZE && h.q.slots[i].valid ==> h.q.slots[i].client != client
  {
    RunKeepsInvariant(ops);
    var h := Run(ops);
    hide Run, LiveCount;
    forall i | 0 <= i < SIZE && h.q.slots[i].valid ensures h.q.slots[i].sequence < TWO_32 - 1 {
      assert SlotOk(h, i);
    }
  }

  // ---------------------------------------------------------------- which request a delivery belongs to

  /** Insertions of a client with sequence numbers below a bound. */
  function InsertedBelow(inserted: seq<(Client, PtpTime)>, client: Client, bound: nat): nat {
    if inserted == [] then 0
    else
      var n := |inserted|;
      InsertedBelow(inserted[..n - 1], client, bound) + if inserted[n - 1].0 == client && n < bound then 1 else 0
  }

  predicate IsBelow(e: Entry, client: Client, bound: nat) {
    e.valid && e.client == client && e.sequence < bound
  }

  function CountBelow(entries: seq<Entry>, client: Client, bound: nat): nat {
    if entries == [] then 0
    else CountBelow(entries[..|entries| - 1], client, bound) + if IsBelow(entries[|entries| - 1], client, bound) then 1 else 0
  }

  lemma CountAppend(entries: seq<Entry>, e: Entry, client: Client, bound: nat)
    ensures CountBelow(entries + [e], client, bound)
         == CountBelow(entries, client, bound) + if IsBelow(e, client, bound) then 1 else 0
  {
    assert (entries + [e])[..|entries|] == entries;
  }

  lemma {:induction false} CountUpdate(slots: seq<Entry>, i: nat, e: Entry, client: Client, bound: nat)
    requires i < |slots|
    ensures CountBelow(slots[i := e], client, bound) + (if IsBelow(slots[i], client, bound) then 1 else 0)
         == CountBelow(slots, client, bound) + (if IsBelow(e, client, bound) then 1 else 0)
  {
    var n := |slots| - 1;
    var updated := slots[i := e];
    if i == n {
      assert updated[..n] == slots[..n];
    } else {
      assert updated[..n] == slots[..n][i := e];
      CountUpdate(slots[..n], i, e, client, bound);
    }
  }

  lemma {:induction false} CountNone(entries: seq<Entry>, client: Client, bound: nat)
    requires forall i :: 0 <= i < |entries| ==> !IsBelow(entries[i], client, bound)
    ensures CountBelow(entries, client, bound) == 0
  {
    if entries != [] { CountNone(entries[..|entries| - 1], client, bound); }
  }

  /** Per client and bound: every insertion is delivered, live or lost. */
  predicate Balanced(h: History, client: Client, bound: nat) {
    InsertedBelow(h.inserted, client, bound)
      == CountBelow(h.delivered, client, bound) + CountBelow(h.q.slots, client, bound) + CountBelow(h.lost, client, bound)
  }

  lemma StepKeepsBalance(h: History, op: Op, client: Client, bound: nat)
    requires Counted(h) && Balanced(h, client, bound) && (op.Insert? ==> |h.inserted| + 1 < TWO_32 - 1)
    ensures Balanced(Step(h, op), client, bound)
  {
    hide CountBelow, LiveCount;
    match op
    case Insert(c, time) =>
      var gone, e := h.q.slots[h.q.next], Entry(true, c, Bump(h.q.sequence), time);
      CountUpdate(h.q.slots, h.q.next, e, client, bound);
      if gone.valid { CountAppend(h.lost, gone, client, bound); } else { assert h.lost + [] == h.lost; }
      assert (h.inserted + [(c, time)])[..|h.inserted|] == h.inserted;
    case Take(c) =>
      var oldest := Oldest(h.q.slots, c, SIZE);
      if oldest.Some? {
        var e := h.q.slots[oldest.value];
        CountUpdate(h.q.slots, oldest.value, e.(valid := false), client, bound);
        CountAppend(h.delivered, e, client, bound);
      } else {
        assert h.delivered + [] == h.delivered;
      }
  }

  lemma {:induction false} RunIsBalanced(ops: seq<Op>, client: Client, bound: nat)
    requires Inserts(ops) < TWO_32 - 1
    ensures Balanced(Run(ops), client, bound)
  {
    if ops == [] {
      CountNone(EmptySlots(), client, bound);
    } else {
      var init := ops[..|ops| - 1];
      RunIsBalanced(init, client, bound);
      RunKeepsInvariant(init);
      hide Balanced, Counted;
      StepKeepsBalance(Run(init), ops[|ops| - 1], client, bound);
    }
  }

  /** The rank theorem, over every run: when a take is about to deliver an insertion, the client has made as
      many insertions before it as it has had deliveries, and as many more as were lost before it. */
  lemma DeliveryRank(ops: seq<Op>, client: Client, e: Entry)
    requires Inserts(ops) < TWO_32 - 1 && Taken(Run(ops).q, client).1 == Some(e)
    ensures var h := Run(ops);
      InsertedBelow(h.inserted, client, e.sequence) == DeliveredTo(h.delivered, client) + CountBelow(h.lost, client, e.sequence)
  {
    var h := Run(ops);
    RunIsBalanced(ops, client, e.sequence);
    RunKeepsInvariant(ops);
    TakeServesItsClient(ops, client);
    hide Run, LiveCount, CountBelow, InsertedBelow, Counted;
    CountNone(h.q.slots, client, e.sequence);
    AllBelow(h.delivered, client, e.sequence);
  }

  function DeliveredTo(entries: seq<Entry>, client: Client): nat {
    if entries == [] then 0
    else DeliveredTo(entries[..|entries| - 1], client) + if entries[|entries| - 1].client == client then 1 else 0
  }

  lemma {:induction false} AllBelow(entries: seq<Entry>, client: Client, bound: nat)
    requires forall i :: 0 <= i < |entries| && entries[i].client == client ==> IsBelow(entries[i], client, bound)
    ensures CountBelow(entries, client, bound) == DeliveredTo(entries, client)
  {
    if entries != [] { AllBelow(entries[..|entries| - 1], client, bound); }
  }

  /** So a client that takes once per request gets the timestamp of the request it asks for - its j-th delivery
      is its j-th insertion - if and only if none of its earlier insertions was overwritten while live. */
  lemma DeliveryIsOwnRequestIff(ops: seq<Op>, client: Client, e: Entry)
    requires Inserts(ops) < TWO_32 - 1 && Taken(Run(ops).q, client).1 == Some(e)
    ensures InsertedBelow(Run(ops).inserted, client, e.sequence) == DeliveredTo(Run(ops).delivered, client)
      <==> forall i :: 0 <= i < |Run(ops).lost| ==> !IsBelow(Run(ops).lost[i], client, e.sequence)
  {
    DeliveryRank(ops, client, e);
    var lost := Run(ops).lost;
    hide Run, InsertedBelow;
    if forall i :: 0 <= i < |lost| ==> !IsBelow(lost[i], client, e.sequence) {
      CountNone(lost, client, e.sequence);
    } else {
      CountSome(lost, client, e.sequence);
    }
  }

  lemma {:induction false} CountSome(entries: seq<Entry>, client: Client, bound: nat)
    requires exists i :: 0 <= i < |entries| && IsBelow(entries[i], client, bound)
    ensures CountBelow(entries, client, bound) > 0
  {
    var n := |entries| - 1;
    if !IsBelow(entries[n], client, bound) { CountSome(entries[..n], client, bound); }
  }
}
