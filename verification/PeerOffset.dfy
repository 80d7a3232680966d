/** Offset and delay from the four NTP timestamps of a peer exchange (main/ntp_peer_monitor.c, section 8 of
    RFC 5905). Timestamps count 2 to the -32 s units modulo 2 to the 64. */
module PeerOffset {
  import opened Arith
  import opened Bytes
  import opened Esp
  import opened PeerStats
  import opened Timestamps

  // ---------------------------------------------------------------- the routines

  /** The 64-bit difference read as a signed integer. */
  function SignedDelta(a: u64, b: u64): i64 {
    WrapI64(a - b)
  }

  function ScaleToNs(delta: i64): int {
    TruncDiv(delta, TWO_32) * NS_PER_S + TruncDiv(TruncMod(delta, TWO_32) * NS_PER_S, TWO_32)
  }

  function FixedDeltaNs(a: u64, b: u64): int {
    ScaleToNs(SignedDelta(a, b))
  }

  /** Halving each summand first keeps the sum in range. */
  function HalfSum(a: int, b: int): int {
    TruncDiv(a, 2) + TruncDiv(b, 2) + TruncDiv(TruncMod(a, 2) + TruncMod(b, 2), 2)
  }

  /** The header fields the monitor looks at. */
  datatype Response = Response(leap: nat, version: nat, mode: nat, stratum: nat, origin: u64, f2: u64, f3: u64)

  datatype Outcome = Kod | Invalid | Duplicate | Accepted(offset: int, delay: int)

  /** A datagram of full length from the peer's address, taken against the send time, the arrival time and
      the transmit timestamp of the last accepted response. */
  function ProcessResponse(r: Response, f1: u64, f4: u64, last: Option<u64>): Outcome {
    if r.stratum == 0 then Kod
    else if r.version < 3 || r.mode != 4 || r.leap == 3 || r.stratum > 15
      || r.origin != f1 || r.f2 == 0 || r.f3 == 0 then Invalid
    else if last == Some(r.f3) then Duplicate
    else
      var a, b := FixedDeltaNs(r.f2, f1), FixedDeltaNs(r.f3, f4);
      var delay := FixedDeltaNs(f4, f1) - FixedDeltaNs(r.f3, r.f2);
      if delay < 0 then Invalid else Accepted(HalfSum(a, b), delay)
  }

  // ---------------------------------------------------------------- integer arithmetic

  lemma TruncMonotone(a: int, b: int, d: int)
    requires d > 0 && a <= b
    ensures TruncDiv(a, d) <= TruncDiv(b, d)
  {
    if a >= 0 { DivMonotone(a, b, d); }
    if b < 0 { DivMonotone(-b, -a, d); }
    if a < 0 { DivNonNegative(-a, d); }
    if b >= 0 { DivNonNegative(b, d); }
  }

  /** Splitting off whole seconds loses nothing: one truncating division of the full product. */
  lemma ScaleIsTruncated(delta: i64)
    ensures ScaleToNs(delta) == TruncDiv(delta * NS_PER_S, TWO_32)
  {
    var n: int := if delta >= 0 then delta else 0 - delta;
    var q, m := n / TWO_32, n % TWO_32;
    assert n == q * TWO_32 + m;
    assert n * NS_PER_S == (q * NS_PER_S) * TWO_32 + m * NS_PER_S;
    DivAddMultiple(q * NS_PER_S, TWO_32, m * NS_PER_S);
    if delta < 0 { assert TruncMod(delta, TWO_32) == -m; }
  }

  /** No intermediate leaves 64 bits, and the result stays within 2 to the 31 seconds. */
  lemma ScaleFits(delta: i64)
    ensures Fits(TruncDiv(delta, TWO_32) * NS_PER_S) && Fits(TruncMod(delta, TWO_32) * NS_PER_S)
    ensures -0x8000_0000 * NS_PER_S <= ScaleToNs(delta) <= 0x8000_0000 * NS_PER_S
  {
    ScaleIsTruncated(delta);
    TruncMonotone(delta * NS_PER_S, 0x8000_0000_0000_0000 * NS_PER_S, TWO_32);
    TruncMonotone(-0x8000_0000_0000_0000 * NS_PER_S, delta * NS_PER_S, TWO_32);
  }

  /** The average of any two 64-bit integers, to the nearest half and without overflow. */
  lemma HalfSumIsHalf(a: i64, b: i64)
    ensures -1 <= 2 * HalfSum(a, b) - (a + b) <= 1
    ensures Fits(HalfSum(a, b)) && Fits(TruncDiv(a, 2) + TruncDiv(b, 2))
  {}

  /** The signed difference is the true one whenever that is within 2 to the 63 units, eras apart or not. */
  lemma DeltaAcrossEras(x: int, y: int)
    requires -TWO_64 / 2 <= x - y < TWO_64 / 2
    ensures SignedDelta(x % TWO_64, y % TWO_64) == x - y
  {
    var d := x % TWO_64 - y % TWO_64;
    var k := x / TWO_64 - y / TWO_64;
    assert x == x / TWO_64 * TWO_64 + x % TWO_64 && y == y / TWO_64 * TWO_64 + y % TWO_64;
    assert d == x - y - k * TWO_64;
    if x - y >= 0 {
      DivUnique(d, TWO_64, -k, x - y);
    } else {
      assert d == (-k - 1) * TWO_64 + (x - y + TWO_64);
      DivUnique(d, TWO_64, -k - 1, x - y + TWO_64);
    }
  }

  // ---------------------------------------------------------------- the exchange

  /** An exchange with a server whose clock is `theta` units ahead; all times unbounded, in units. */
  datatype Exchange = Exchange(sent: int, outbound: nat, held: nat, back: nat, theta: int)

  function T2(e: Exchange): int { e.sent + e.outbound + e.theta }
  function T3(e: Exchange): int { T2(e) + e.held }
  function T4(e: Exchange): int { e.sent + e.outbound + e.held + e.back }

  /** The four differences are under 2 to the 63 units. */
  predicate Near(e: Exchange) {
    && -TWO_64 / 2 <= T2(e) - e.sent < TWO_64 / 2
    && -TWO_64 / 2 <= T3(e) - T4(e) < TWO_64 / 2
    && T4(e) - e.sent < TWO_64 / 2 && e.held < TWO_64 / 2
  }

  function OffsetOf(e: Exchange): int
  {
    HalfSum(FixedDeltaNs(T2(e) % TWO_64, e.sent % TWO_64), FixedDeltaNs(T3(e) % TWO_64, T4(e) % TWO_64))
  }

  function DelayOf(e: Exchange): int
  {
    FixedDeltaNs(T4(e) % TWO_64, e.sent % TWO_64) - FixedDeltaNs(T3(e) % TWO_64, T2(e) % TWO_64)
  }

  /** The scaled true difference, up to less than a nanosecond. */
  lemma DeltaError(x: int, y: int)
    requires -TWO_64 / 2 <= x - y < TWO_64 / 2
    ensures var ns := FixedDeltaNs(x % TWO_64, y % TWO_64);
      && ns == TruncDiv((x - y) * NS_PER_S, TWO_32)
      && -TWO_32 < ns * TWO_32 - (x - y) * NS_PER_S < TWO_32
      && -0x8000_0000 * NS_PER_S <= ns <= 0x8000_0000 * NS_PER_S
  {
    DeltaAcrossEras(x, y);
    ScaleIsTruncated(x - y);
    ScaleFits(x - y);
    TruncError((x - y) * NS_PER_S, TWO_32);
  }

  /** The measured delay is the two path delays together to within two nanoseconds, and never negative. */
  lemma DelayIsPathDelay(e: Exchange)
    requires Near(e)
    ensures DelayOf(e) >= 0
    ensures -2 * TWO_32 < DelayOf(e) * TWO_32 - (e.outbound + e.back) * NS_PER_S < 2 * TWO_32
  {
    DeltaError(T4(e), e.sent);
    DeltaError(T3(e), T2(e));
    TruncMonotone(e.held * NS_PER_S, (T4(e) - e.sent) * NS_PER_S, TWO_32);
    hide FixedDeltaNs, TruncDiv;
  }

  /** The measured offset is off by half the path asymmetry and at most one and a half nanoseconds. */
  lemma OffsetErrorIsAsymmetry(e: Exchange)
    requires Near(e)
    ensures -3 * TWO_32 < 2 * OffsetOf(e) * TWO_32 - (2 * e.theta + e.outbound - e.back) * NS_PER_S < 3 * TWO_32
  {
    DeltaError(T2(e), e.sent);
    DeltaError(T3(e), T4(e));
    HalfSumIsHalf(FixedDeltaNs(T2(e) % TWO_64, e.sent % TWO_64), FixedDeltaNs(T3(e) % TWO_64, T4(e) % TWO_64));
    hide FixedDeltaNs, TruncDiv, HalfSum;
  }

  /** The offset bound: the true offset lies within half the measured delay and two and a half nanoseconds
      of the measured offset, for any nonnegative path delays and across era boundaries. */
  lemma OffsetWithinHalfDelay(e: Exchange)
    requires Near(e)
    ensures var error := OffsetOf(e) * TWO_32 - e.theta * NS_PER_S;
      -(DelayOf(e) + 5) * TWO_32 < 2 * error < (DelayOf(e) + 5) * TWO_32
  {
    OffsetErrorIsAsymmetry(e);
    DelayIsPathDelay(e);
    hide OffsetOf, DelayOf;
  }

  /** A well-formed answer to the request, not seen before, is accepted with exactly these numbers. */
  lemma HonestResponseIsAccepted(e: Exchange, r: Response, last: Option<u64>)
    requires Near(e) && r.origin == e.sent % TWO_64 && r.f2 == T2(e) % TWO_64 && r.f3 == T3(e) % TWO_64
    requires 1 <= r.stratum <= 15 && r.version >= 3 && r.mode == 4 && r.leap != 3 && r.f2 != 0 && r.f3 != 0
    requires last != Some(r.f3)
    ensures ProcessResponse(r, e.sent % TWO_64, T4(e) % TWO_64, last) == Accepted(OffsetOf(e), DelayOf(e))
  {
    DelayIsPathDelay(e);
    hide FixedDeltaNs, HalfSum;
  }

  /** What is accepted, exactly: stratum 1 to 15, version 3 or later, server mode, leap known, the request's own
      time as origin, both server times there, a transmit time other than the last one's, and no more time spent
      at the server than between sending and arrival; and what a refusal says. */
  lemma AcceptedIff(r: Response, f1: u64, f4: u64, last: Option<u64>)
    ensures var outcome := ProcessResponse(r, f1, f4, last);
      var wellFormed := 1 <= r.stratum <= 15 && r.version >= 3 && r.mode == 4 && r.leap != 3
                        && r.origin == f1 && r.f2 > 0 && r.f3 > 0;
      var spent, passed := ScaleToNs(SignedDelta(r.f3, r.f2)), ScaleToNs(SignedDelta(f4, f1));
      && (outcome == Kod <==> r.stratum == 0)
      && (outcome == Duplicate <==> wellFormed && last == Some(r.f3))
      && (outcome.Accepted? <==> wellFormed && last != Some(r.f3) && spent <= passed)
      && (outcome.Accepted? ==> outcome.delay == passed - spent)
  {
    hide ScaleToNs, SignedDelta, HalfSum;
  }

  /** Whatever a peer sends, an accepted measurement fits the 64-bit fields and answers this request; the
      same response sent again is refused. */
  lemma AcceptedIsBounded(r: Response, f1: u64, f4: u64, last: Option<u64>)
    requires ProcessResponse(r, f1, f4, last).Accepted?
    ensures var m := ProcessResponse(r, f1, f4, last);
      && -0x8000_0000 * NS_PER_S <= m.offset <= 0x8000_0000 * NS_PER_S && 0 <= m.delay <= 0x1_0000_0000 * NS_PER_S
      && r.origin == f1 && last != Some(r.f3)
    ensures ProcessResponse(r, f1, f4, Some(r.f3)) == Duplicate
  {
    ScaleFits(SignedDelta(r.f2, f1));
    ScaleFits(SignedDelta(r.f3, f4));
    ScaleFits(SignedDelta(f4, f1));
    ScaleFits(SignedDelta(r.f3, r.f2));
    hide ScaleToNs, SignedDelta;
    HalfSumIsHalf(FixedDeltaNs(r.f2, f1), FixedDeltaNs(r.f3, f4));
    hide HalfSum;
  }

  /** So the steps between accepted offsets, which jitter squares, never wrap. */
  lemma AcceptedStepsFit(o: seq<i64>)
    requires forall i :: 0 <= i < |o| ==> -0x8000_0000 * NS_PER_S <= o[i] <= 0x8000_0000 * NS_PER_S
    ensures DifferencesFit(o)
  {}

  /** The k-th exchange, one unit after the one before, with a peer 34 years ahead. */
  function Ahead(k: nat): Exchange {
    Exchange(1 + k, 0, 0, 0, 0x4000_0000 * TWO_32)
  }

  function AheadAnswer(k: nat): Response
    requires k < WINDOW
  {
    Response(0, 4, 4, 1, Ahead(k).sent, T2(Ahead(k)), T3(Ahead(k)))
  }

  /** What the monitor makes of the k-th answer, the one before having been accepted. */
  function AheadOutcome(k: nat): Outcome
    requires k < WINDOW
  {
    ProcessResponse(AheadAnswer(k), Ahead(k).sent, T4(Ahead(k)), if k == 0 then None else Some(AheadAnswer(k - 1).f3))
  }

  lemma AheadOffset(k: nat)
    requires k < WINDOW
    ensures OffsetOf(Ahead(k)) == 0x4000_0000 * NS_PER_S
  {
    var e := Ahead(k);
    DeltaAcrossEras(T2(e), e.sent);
    DeltaAcrossEras(T3(e), T4(e));
  }

  predicate InFirstEra(e: Exchange) {
    0 <= e.sent < TWO_64 && 0 < T2(e) < TWO_64 && 0 < T3(e) < TWO_64 && 0 <= T4(e) < TWO_64
  }

  lemma FirstEraIsAccepted(e: Exchange, r: Response, last: Option<u64>)
    requires Near(e) && InFirstEra(e) && r == Response(0, 4, 4, 1, e.sent, T2(e), T3(e)) && last != Some(r.f3)
    ensures ProcessResponse(r, e.sent, T4(e), last) == Accepted(OffsetOf(e), DelayOf(e))
  {
    hide ProcessResponse, OffsetOf, DelayOf, Near;
    SmallModulo(e.sent);
    SmallModulo(T2(e));
    SmallModulo(T3(e));
    SmallModulo(T4(e));
    hide T2, T3, T4;
    HonestResponseIsAccepted(e, r, last);
  }

  lemma SmallModulo(x: int)
    requires 0 <= x < TWO_64
    ensures x % TWO_64 == x
  {}

  lemma AheadIsAccepted(k: nat)
    requires k < WINDOW
    ensures AheadOutcome(k).Accepted? && AheadOutcome(k).offset == 0x4000_0000 * NS_PER_S
  {
    AheadOffset(k);
    hide ProcessResponse, OffsetOf, DelayOf;
    FirstEraIsAccepted(Ahead(k), AheadAnswer(k), if k == 0 then None else Some(AheadAnswer(k - 1).f3));
  }

  /** But the rolling sum may: sixteen answers of such a peer are accepted one after the other, and once
      their offsets fill the window the mean is reported negative. */
  lemma AcceptedMayOverflowWindow(st: Status, o: seq<i64>, d: seq<i64>)
    requires |o| == |d| == WINDOW && Describes(st, o, d)
    requires forall k :: 0 <= k < WINDOW && AheadOutcome(k).Accepted? ==> o[k] == AheadOutcome(k).offset
    ensures forall k :: 0 <= k < WINDOW ==> AheadOutcome(k).Accepted? && o[k] == 0x4000_0000 * NS_PER_S
    ensures st.meanOffset < 0
  {
    hide AheadOutcome, Describes;
    forall k | 0 <= k < WINDOW ensures AheadOutcome(k).Accepted? && o[k] == 0x4000_0000 * NS_PER_S {
      AheadIsAccepted(k);
    }
    var x := 0x4000_0000 * NS_PER_S;
    assert o == seq(WINDOW, i => x);
    MeanOfEqual(st, o, d, x);
  }

  lemma MeanOfEqual(st: Status, o: seq<i64>, d: seq<i64>, x: int)
    requires |o| == |d| == WINDOW && Describes(st, o, d) && o == seq(WINDOW, i => x) && x == 0x4000_0000 * NS_PER_S
    ensures st.meanOffset < 0
  {
    SumOfEqual(WINDOW, x);
    hide Sum, IsRoot, Squares, WrappedStepSquares, DivRoundI64;
    RoundNegative(WrapI64(WINDOW * x), WINDOW);
  }
}
