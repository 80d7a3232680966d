/** How the GNSS byte stream falls into step again after arbitrary input (main/gnss_service.c). */
module UbxResync {
  import opened Bytes
  import opened UbxStream

  /** The second sync byte, header, longest payload and checksum. */
  const RESYNC_GAP: nat := MAX_PAYLOAD + 7

  // ---------------------------------------------------------------- getting out of a frame

  /** The most bytes other than the first sync byte that the parser can still take before it is idle. */
  function Remaining(p: Parser): nat
    requires InBounds(p)
  {
    match p.phase
    case WaitSync1 => 0
    case WaitSync2 => RESYNC_GAP
    case WaitClass => RESYNC_GAP - 1
    case WaitId => RESYNC_GAP - 2
    case WaitLength1 => RESYNC_GAP - 3
    case WaitLength2 => RESYNC_GAP - 4
    case WaitPayload => p.length - |p.payload| + 2
    case WaitCkA => 2
    case WaitCkB => 1
  }

  /** Until a class byte is read nothing of a frame is held. */
  predicate Clean(p: Parser) {
    p.phase in {WaitSync1, WaitSync2, WaitClass} ==> p == RESET.(phase := p.phase)
  }

  lemma ConsumedIsClean(p: Parser, x: byte)
    requires Clean(p)
    ensures Clean(Consumed(p, x).0)
  {}

  lemma RemainingDrops(p: Parser, x: byte)
    requires InBounds(p) && p.phase != WaitSync1 && x != SYNC_1
    ensures InBounds(Consumed(p, x).0) && Remaining(Consumed(p, x).0) < Remaining(p)
  {
    hide CkAdd;
  }

  lemma {:induction false} RunIsClean(s: seq<byte>)
    ensures Clean(Run(IDLE, s).0.parser) && InBounds(Run(IDLE, s).0.parser)
  {
    RunStaysFaithful(IDLE, s);
    if s != [] {
      var init, x := s[..|s| - 1], s[|s| - 1];
      RunIsClean(init);
      hide Faithful, Clean, InBounds, Consumed, Received;
      TextLeavesParser(Run(IDLE, init).0, x);
      ConsumedIsClean(Run(IDLE, init).0.parser, x);
    }
  }

  lemma {:induction false} Drains(d: Demux, filler: seq<byte>)
    requires InBounds(d.parser) && SYNC_1 !in filler
    ensures var p := Run(d, filler).0.parser;
      InBounds(p) && (Remaining(p) == 0 || Remaining(p) + |filler| <= Remaining(d.parser))
  {
    if filler != [] {
      var init, x := filler[..|filler| - 1], filler[|filler| - 1];
      Drains(d, init);
      var before := Run(d, init).0;
      hide InBounds, Remaining, Consumed, Received;
      TextLeavesParser(before, x);
      if before.parser.phase != WaitSync1 { RemainingDrops(before.parser, x); }
    }
  }

  lemma RunSplit(d: Demux, s: seq<byte>, t: seq<byte>)
    ensures Run(d, s + t) == (Run(Run(d, s).0, t).0, Run(d, s).1 + Run(Run(d, s).0, t).1)
  {
    GoesFurther(d, s, Run(d, s).0, Run(d, s).1, t);
  }

  /** After that many bytes without a first sync byte the parser is idle, whatever came before. */
  lemma FillerResets(input: seq<byte>, filler: seq<byte>)
    requires |filler| >= RESYNC_GAP && SYNC_1 !in filler
    ensures Run(IDLE, input + filler).0.parser == RESET
  {
    hide Run, Clean;
    RunSplit(IDLE, input, filler);
    RunIsClean(input);
    RunIsClean(input + filler);
    Drains(Run(IDLE, input).0, filler);
    IdleIsReset(Run(IDLE, input + filler).0.parser);
  }

  lemma IdleIsReset(p: Parser)
    requires InBounds(p) && Clean(p) && Remaining(p) == 0
    ensures p == RESET
  {}

  // ---------------------------------------------------------------- what follows is read exactly

  /** States that the first byte takes to the same place read the rest alike. */
  lemma {:induction false} SameFromFirst(d: Demux, e: Demux, s: seq<byte>)
    requires s != [] && Received(d, s[0]) == Received(e, s[0])
    ensures Run(d, s) == Run(e, s)
  {
    hide Received;
    var init := s[..|s| - 1];
    if init == [] {
      assert Run(d, init) == (d, []) && Run(e, init) == (e, []);
    } else {
      SameFromFirst(d, e, init);
    }
  }

  lemma {:induction false} StreamStart(items: seq<Item>)
    requires forall i :: 0 <= i < |items| ==> WellFormed(items[i])
    requires items != [] && !items[0].Noise?
    ensures Stream(items) != [] && Stream(items)[0] in {SYNC_1, DOLLAR}
  {
    hide CkOf;
    if |items| > 1 { StreamStart(items[..|items| - 1]); }
  }

  /** Whatever has been received, once enough bytes without a first sync byte have followed, every frame and
      line written from then on is read back exactly and in order; only what ends before can be lost. */
  lemma Resynchronises(input: seq<byte>, filler: seq<byte>, items: seq<Item>)
    requires |filler| >= RESYNC_GAP && SYNC_1 !in filler
    requires forall i :: 0 <= i < |items| ==> WellFormed(items[i])
    requires items != [] && !items[0].Noise?
    ensures Run(IDLE, input + filler + Stream(items)) == (IDLE, Run(IDLE, input + filler).1 + StreamEvents(items))
  {
    var s := input + filler;
    FillerResets(input, filler);
    StreamStart(items);
    StreamRoundTrip(items);
    RunSplit(IDLE, s, Stream(items));
    hide Run, Stream;
    SameFromFirst(Run(IDLE, s).0, IDLE, Stream(items));
  }

  // ---------------------------------------------------------------- when a frame is read

  /** A frame written after this input is dispatched by its own last byte. */
  predicate ReadAfter(input: seq<byte>, m: Message)
    requires |m.payload| <= MAX_PAYLOAD
  {
    var f := Encoded(m);
    Dispatched(m) in Received(Run(IDLE, input + f[..|f| - 1]).0, f[|f| - 1]).1
  }

  predicate BetweenFrames(p: Parser) {
    p.phase == WaitSync1 || p.phase == WaitSync2
  }

  lemma BetweenIsRead(input: seq<byte>, m: Message)
    requires |m.payload| <= MAX_PAYLOAD && BetweenFrames(Run(IDLE, input).0.parser)
    ensures ReadAfter(input, m)
  {
    var f := Encoded(m);
    var d := Run(IDLE, input).0;
    RunIsClean(input);
    assert f[0] == SYNC_1 && |f| >= 8;
    FrameButLast(m);
    RunSplit(IDLE, input, f[..|f| - 1]);
    hide Run, Encoded, Awaiting;
    SyncForgets(d);
    SameFromFirst(d, IDLE, f[..|f| - 1]);
  }

  lemma SyncForgets(d: Demux)
    requires Clean(d.parser) && BetweenFrames(d.parser)
    ensures Received(d, SYNC_1) == Received(IDLE, SYNC_1)
  {}

  /** The bytes held are more than a frame of which `n` bytes have been written accounts for, or fewer. */
  predicate Misaligned(p: Parser, n: nat) {
    InBounds(p) && (|Pending(p)| >= n + 2 || |Pending(p)| < n)
  }

  lemma HeldStep(p: Parser, x: byte)
    requires InBounds(p)
    ensures var q := Consumed(p, x).0;
      InBounds(q) && (|Pending(q)| == |Pending(p)| + 1 || |Pending(q)| == 0 || (BetweenFrames(p) && |Pending(q)| == 1))
  {
    PendingGrows(p, x);
    ConsumedStaysInBounds(p, x);
    hide CkAdd;
  }

  lemma HeldInside(p: Parser)
    requires InBounds(p)
    ensures if p.phase == WaitSync1 then |Pending(p)| == 0
            else if p.phase == WaitSync2 then |Pending(p)| == 1 else |Pending(p)| >= 2
  {}

  lemma {:induction false} HeldDiffers(d: Demux, s: seq<byte>)
    requires InBounds(d.parser) && !BetweenFrames(d.parser) && s != []
    ensures Misaligned(Run(d, s).0.parser, |s|)
  {
    var init, x := s[..|s| - 1], s[|s| - 1];
    var before := Run(d, init).0;
    assert Run(d, s).0 == Received(before, x).0;
    if init == [] { assert before == d; } else { HeldDiffers(d, init); }
    hide Run, Pending, InBounds, Consumed, Received;
    HeldInside(before.parser);
    HeldStep(before.parser, x);
    TextLeavesParser(before, x);
  }

  lemma OnlyFramesDispatch(d: Demux, x: byte, m: Message)
    requires Dispatched(m) in Received(d, x).1
    ensures Dispatched(m) in Consumed(d.parser, x).1
  {
    hide CkAdd;
  }

  lemma InsideNothingFits(input: seq<byte>, s: seq<byte>, x: byte, m: Message)
    requires !BetweenFrames(Run(IDLE, input).0.parser) && s != []
    requires |m.payload| <= MAX_PAYLOAD && |Encoded(m)| == |s| + 1
    ensures Dispatched(m) !in Received(Run(IDLE, input + s).0, x).1
  {
    hide Run, Encoded, BetweenFrames, Pending, InBounds, Received;
    var d := Run(IDLE, input + s).0;
    RunStaysFaithful(IDLE, input);
    RunStaysFaithful(IDLE, input + s);
    RunSplit(IDLE, input, s);
    HeldDiffers(Run(IDLE, input).0, s);
    if Dispatched(m) in Received(d, x).1 {
      OnlyFramesDispatch(d, x, m);
      hide Consumed, Faithful;
      DispatchedIsPending(d.parser, input + s, x, m);
    }
  }

  lemma InsideIsNotRead(input: seq<byte>, m: Message)
    requires |m.payload| <= MAX_PAYLOAD && !BetweenFrames(Run(IDLE, input).0.parser)
    ensures !ReadAfter(input, m)
  {
    var f := Encoded(m);
    assert |f| >= 8;
    hide Run, Encoded, BetweenFrames, Received;
    InsideNothingFits(input, f[..|f| - 1], f[|f| - 1], m);
  }

  /** Exactly when a written frame is read: the parser is between frames, or has just seen a first sync byte. */
  lemma FrameReadIff(input: seq<byte>, m: Message)
    requires |m.payload| <= MAX_PAYLOAD
    ensures ReadAfter(input, m) <==> BetweenFrames(Run(IDLE, input).0.parser)
  {
    hide ReadAfter, BetweenFrames, Run;
    if BetweenFrames(Run(IDLE, input).0.parser) {
      BetweenIsRead(input, m);
    } else {
      InsideIsNotRead(input, m);
    }
  }

  // ---------------------------------------------------------------- how long it can take

  /** Whatever came before, a frame is read once `gap` bytes without a first sync byte have passed. */
  ghost predicate ReadAfterGap(gap: nat) {
    forall input: seq<byte>, filler: seq<byte>, m: Message ::
      |filler| >= gap && SYNC_1 !in filler && |m.payload| <= MAX_PAYLOAD ==> ReadAfter(input + filler, m)
  }

  /** The longest frame started by a stray sync byte, without its last byte. */
  function LongestBody(): seq<byte> {
    [SYNC_2, 0, 0, 0, 2] + seq(MAX_PAYLOAD + 1, _ => 0)
  }

  lemma LongestBodyHolds()
    ensures |LongestBody()| == RESYNC_GAP - 1 && SYNC_1 !in LongestBody()
    ensures Run(IDLE, [SYNC_1] + LongestBody()).0.parser.phase == WaitCkB
  {
    var m := Message(0, 0, seq(MAX_PAYLOAD, _ => 0));
    var h := Header(0, 0, MAX_PAYLOAD);
    var s := [SYNC_1, SYNC_2] + h + m.payload[..MAX_PAYLOAD];
    PayloadIsParsed(m, MAX_PAYLOAD);
    assert h == [0, 0, 0, 2];
    assert [SYNC_1] + LongestBody() == s + [0];
    assert (s + [0])[..|s|] == s;
    hide CkOf;
    assert Run(IDLE, s).0 == Demux(InPayload(m, MAX_PAYLOAD), []);
    assert InPayload(m, MAX_PAYLOAD).phase == WaitCkA;
  }

  /** The gap after which nothing more can be lost is 519 bytes, and no shorter one will do. */
  lemma ResyncGapIff(gap: nat)
    ensures ReadAfterGap(gap) <==> gap >= RESYNC_GAP
  {
    hide Run, Encoded, ReadAfter;
    if gap >= RESYNC_GAP {
      forall input: seq<byte>, filler: seq<byte>, m: Message
        | |filler| >= gap && SYNC_1 !in filler && |m.payload| <= MAX_PAYLOAD
        ensures ReadAfter(input + filler, m)
      {
        FillerResets(input, filler);
        FrameReadIff(input + filler, m);
      }
    } else {
      var m := Message(0, 0, []);
      LongestBodyHolds();
      FrameReadIff([SYNC_1] + LongestBody(), m);
      assert !ReadAfter([SYNC_1] + LongestBody(), m);
    }
  }

  // ---------------------------------------------------------------- without a gap

  /** The start of a frame of six payload bytes. */
  const START: seq<byte> := [SYNC_1, SYNC_2, 0, 0, 6, 0]

  /** A frame that carries such a start as its payload, and the false frame a receiver sees that takes
      the payload for a start: the checksum, and most of the next true start. */
  const DECOY := Message(0, 0, START)
  const MISREAD := Message(0, 0, [35, 100, SYNC_1, SYNC_2, 0, 0])

  function Repeated<T>(s: seq<T>, n: nat): seq<T> {
    if n == 0 then [] else Repeated(s, n - 1) + s
  }

  lemma CkSix(h: seq<byte>, w: byte, x: byte, y: byte, z: byte, u: byte, v: byte,
              c0: Ck, c1: Ck, c2: Ck, c3: Ck, c4: Ck, c5: Ck, c6: Ck)
    requires CkOf(h) == c0 && CkAdd(c0, w) == c1 && CkAdd(c1, x) == c2 && CkAdd(c2, y) == c3
    requires CkAdd(c3, z) == c4 && CkAdd(c4, u) == c5 && CkAdd(c5, v) == c6
    ensures CkOf(h + [w, x, y, z, u, v]) == c6
  {
    hide CkOf, CkAdd;
    CkAppend(h, w);
    CkAppend(h + [w], x);
    CkAppend(h + [w] + [x], y);
    CkAppend(h + [w] + [x] + [y], z);
    CkAppend(h + [w] + [x] + [y] + [z], u);
    CkAppend(h + [w] + [x] + [y] + [z] + [u], v);
    assert h + [w] + [x] + [y] + [z] + [u] + [v] == h + [w, x, y, z, u, v];
  }

  lemma StartSum()
    ensures CkOf(Header(0, 0, 6)) == Ck(6, 12)
  {
    HeaderChecksum(0, 0, 6);
    hide CkOf;
  }

  lemma DecoySum()
    ensures CkOf(Header(0, 0, 6) + START) == Ck(35, 100)
  {
    StartSum();
    hide CkOf, Header;
    CkSix(Header(0, 0, 6), SYNC_1, SYNC_2, 0, 0, 6, 0,
          Ck(6, 12), Ck(187, 199), Ck(29, 228), Ck(29, 1), Ck(29, 30), Ck(35, 65), Ck(35, 100));
  }

  lemma MisreadSum()
    ensures CkOf(Header(0, 0, 6) + MISREAD.payload) == Ck(164, 240)
  {
    StartSum();
    hide CkOf, Header;
    CkSix(Header(0, 0, 6), 35, 100, SYNC_1, SYNC_2, 0, 0,
          Ck(6, 12), Ck(41, 53), Ck(141, 194), Ck(66, 4), Ck(164, 168), Ck(164, 76), Ck(164, 240));
  }

  lemma DecoyBytes()
    ensures Encoded(DECOY) == START + START + [35, 100]
  {
    DecoySum();
    hide CkOf;
    assert Header(0, 0, 6) == [0, 0, 6, 0];
  }

  /** Six bytes short of the end of the false frame. */
  function OutOfStep(): Demux {
    Demux(InPayload(MISREAD, 2), [])
  }

  lemma JoinedMidway()
    ensures Goes(IDLE, START + [35, 100], OutOfStep(), [])
  {
    hide CkOf, Goes, InPayload;
    PayloadIsParsed(MISREAD, 2);
    assert START + [35, 100] == [SYNC_1, SYNC_2] + Header(0, 0, 6) + MISREAD.payload[..2];
  }

  lemma MisreadIsRejected()
    ensures Goes(IDLE, START + MISREAD.payload + [6, 0], IDLE, [InvalidChecksum])
  {
    var s := START + MISREAD.payload;
    var p := InPayload(MISREAD, 6);
    hide CkOf, Goes;
    PayloadIsParsed(MISREAD, 6);
    MisreadSum();
    assert MISREAD.payload[..6] == MISREAD.payload;
    assert s == [SYNC_1, SYNC_2] + Header(0, 0, 6) + MISREAD.payload[..6];
    assert p.phase == WaitCkA && p.ckA != 6;
    hide InPayload, Header;
    GoesTo(IDLE, s, Demux(p, []), 6, Demux(p.(receivedA := 6, phase := WaitCkB), []), []);
    GoesTo(IDLE, s + [6], Demux(p.(receivedA := 6, phase := WaitCkB), []), 0, IDLE, [InvalidChecksum]);
    assert s + [6] + [0] == s + [6, 0];
  }

  lemma Rejoins(start: seq<byte>, sum: seq<byte>, head: seq<byte>, rest: seq<byte>)
    requires start == head + rest
    ensures (start + sum) + (start + start + sum) == (start + (sum + head) + rest) + (start + sum)
  {}

  /** Input read two ways: once on from `d`, once as a rejected frame that leads back to `d`. */
  lemma TurnsBack(d: Demux, joined: seq<byte>, f: seq<byte>, misread: seq<byte>, events: seq<Event>)
    requires Goes(IDLE, joined, d, []) && Goes(IDLE, misread, IDLE, events) && joined + f == misread + joined
    ensures Goes(d, f, d, events)
  {
    RunSplit(IDLE, joined, f);
    RunSplit(IDLE, misread, joined);
    hide Run;
    assert [] + Run(d, f).1 == Run(d, f).1;
    assert events + [] == events;
  }

  lemma DecoyTurn()
    ensures Goes(OutOfStep(), Encoded(DECOY), OutOfStep(), [InvalidChecksum])
  {
    hide Goes, Encoded, OutOfStep;
    var sum, head: seq<byte>, rest: seq<byte> := [35, 100], [SYNC_1, SYNC_2, 0, 0], [6, 0];
    DecoyBytes();
    JoinedMidway();
    MisreadIsRejected();
    Rejoins(START, sum, head, rest);
    assert MISREAD.payload == sum + head;
    TurnsBack(OutOfStep(), START + sum, Encoded(DECOY), START + MISREAD.payload + rest, [InvalidChecksum]);
  }

  lemma {:induction false} RepeatedTurns(joined: seq<byte>, d: Demux, f: seq<byte>, events: seq<Event>, n: nat)
    requires Goes(IDLE, joined, d, []) && Goes(d, f, d, events)
    ensures Goes(IDLE, joined + Repeated(f, n), d, Repeated(events, n))
  {
    if n == 0 {
      assert joined + [] == joined;
    } else {
      var s := joined + Repeated(f, n - 1);
      RepeatedTurns(joined, d, f, events, n - 1);
      GoesFurther(IDLE, s, d, Repeated(events, n - 1), f);
      assert joined + Repeated(f, n) == s + f;
    }
  }

  /** Without a gap nothing bounds the loss: a receiver that joins in the middle of a stream of such frames
      rejects a false frame for each and never reads one, however long the stream goes on. */
  lemma LossMayNeverEnd(n: nat)
    ensures Goes(IDLE, Encoded(DECOY)[6..] + Repeated(Encoded(DECOY), n), OutOfStep(), Repeated([InvalidChecksum], n))
  {
    var joined := START + [35, 100];
    hide Goes, Encoded, OutOfStep, Repeated;
    DecoyBytes();
    JoinedMidway();
    DecoyTurn();
    RepeatedTurns(joined, OutOfStep(), Encoded(DECOY), [InvalidChecksum], n);
    assert Encoded(DECOY)[6..] == joined;
  }
}
