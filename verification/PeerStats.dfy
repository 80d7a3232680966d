/** A peer's rolling window of measurements and the statistics computed over it
    (main/ntp_peer_monitor.c). */
module PeerStats {
  import opened Arith
  import opened Bytes
  import opened Esp

  const WINDOW: nat := 16
  const I64_MAX: int := 0x7FFF_FFFF_FFFF_FFFF
  const U64_MAX: int := 0xFFFF_FFFF_FFFF_FFFF

  datatype Status = Status(samples: nat, minOffset: int, maxOffset: int, meanOffset: int, rmsOffset: nat,
                           minDelay: int, meanDelay: int, jitter: nat)

  // ---------------------------------------------------------------- integer square root

  /** The integer part of the square root. */
  predicate IsRoot(r: nat, v: nat) {
    r * r <= v < (r + 1) * (r + 1)
  }

  /** Midway: the root found so far is `root`, the bit in hand is the square of `p`, and less than `2 * p`
      is still to be added. */
  predicate RootPartly(v: nat, root: nat, p: nat, left: int, result: int) {
    && left == v - root * root && left >= 0
    && result == 2 * (root * p)
    && v < (root + 2 * p) * (root + 2 * p)
    && 1 <= p && root + 2 * p <= TWO_32
  }

  lemma SquareMonotone(a: nat, b: nat)
    requires a <= b
    ensures a * a <= b * b
  {
    Product(a, b, a);
    Product(a, b, b);
  }

  lemma SquareOfSum(a: int, b: int)
    ensures (a + b) * (a + b) == a * a + 2 * (a * b) + b * b
  {}

  lemma BitFits(v: nat, root: nat, p: nat, left: int, result: int)
    requires RootPartly(v, root, p, left, result)
    ensures result >= 0 && result + p * p < TWO_64
    ensures left >= result + p * p <==> v >= (root + p) * (root + p)
  {
    SquareOfSum(root, p);
    SquareMonotone(root + p, TWO_32 - 1);
  }

  /** The root after a bit: taken when its square still fits under `v`. */
  function RootAfter(v: nat, root: nat, p: nat): nat {
    if v >= (root + p) * (root + p) then root + p else root
  }

  lemma StepResult(v: nat, root: nat, p: nat, left: int, result: int)
    requires RootPartly(v, root, p, left, result)
    ensures var taken := left >= result + p * p;
      && v - RootAfter(v, root, p) * RootAfter(v, root, p) == (if taken then left - (result + p * p) else left)
      && (if taken then result / 2 + p * p else result / 2) == RootAfter(v, root, p) * p
  {
    BitFits(v, root, p, left, result);
    SquareOfSum(root, p);
    assert (root + p) * p == root * p + p * p;
  }

  lemma HalfStep(v: nat, root: nat, h: nat, left: int, result: int)
    requires RootPartly(v, root, 2 * h, left, result)
    ensures var next := RootAfter(v, root, 2 * h);
      RootPartly(v, next, h, v - next * next, next * (2 * h))
  {
    var next := RootAfter(v, root, 2 * h);
    assert next * (2 * h) == 2 * (next * h);
    assert root + 2 * h + 2 * h == root + 2 * (2 * h);
  }

  lemma LastStep(v: nat, root: nat, left: int, result: int)
    requires RootPartly(v, root, 1, left, result)
    ensures IsRoot(RootAfter(v, root, 1), v) && RootAfter(v, root, 1) < TWO_32
  {}

  lemma PowerSquares(k: nat)
    ensures k > 0 ==> Pow2(k) == 2 * Pow2(k - 1) && Pow2(k) * Pow2(k) == 4 * (Pow2(k - 1) * Pow2(k - 1))
    ensures k == 0 ==> Pow2(k) == 1
  {
    if k > 0 {
      var h := Pow2(k - 1);
      assert (2 * h) * (2 * h) == 4 * (h * h);
    }
  }

  lemma TopBit()
    ensures Pow2(31) == 0x8000_0000
  {
    assert Pow2(8) == 256;
    assert Pow2(16) == 0x1_0000;
    assert Pow2(24) == 0x100_0000;
  }

  lemma {:induction false} PowerBound(k: nat)
    requires k <= 31
    ensures Pow2(k) <= 0x8000_0000
    decreases 31 - k
  {
    if k == 31 { TopBit(); } else { PowerBound(k + 1); }
  }

  /** Bit by bit, for every 64-bit value, without overflow on the way. */
  method Isqrt(v: u64) returns (r: u64)
    ensures IsRoot(r, v) && r < TWO_32
  {
    var value: u64, bit: u64 := v, 0x4000_0000_0000_0000;
    ghost var k: nat := 31;
    TopBit();
    hide Pow2, Searching, IsRoot, RootAfter;
    while bit > value
      invariant k <= 31 && (bit == 0 || bit == Pow2(k) * Pow2(k))
      invariant v < 4 * bit || v == bit == 0
      decreases bit
    {
      PowerSquares(k);
      bit := bit / 4;
      if k > 0 { k := k - 1; }
    }
    r := 0;
    ghost var root: nat := 0;
    StartRoot(v, k, bit);
    while bit != 0
      invariant Searching(v, root, k, bit, value, r)
      decreases bit
    {
      SearchStep(v, root, k, bit, value, r);
      if value >= r + bit {
        value := value - (r + bit);
        r := r / 2 + bit;
      } else {
        r := r / 2;
      }
      root := RootAfter(v, root, Pow2(k));
      bit := bit / 4;
      if k > 0 { k := k - 1; }
    }
    SearchEnds(v, root, k, value, r);
  }

  /** The loop's state: midway while there is a bit left, done when there is none. */
  predicate Searching(v: nat, root: nat, k: nat, bit: nat, left: int, result: int) {
    && (bit != 0 ==> bit == Pow2(k) * Pow2(k) && RootPartly(v, root, Pow2(k), left, result))
    && (bit == 0 ==> result == root && IsRoot(root, v) && root < TWO_32)
  }

  lemma SearchEnds(v: nat, root: nat, k: nat, left: int, result: int)
    requires Searching(v, root, k, 0, left, result)
    ensures result == root && IsRoot(root, v) && root < TWO_32
  {}

  lemma SearchStep(v: nat, root: nat, k: nat, bit: nat, left: int, result: int)
    requires Searching(v, root, k, bit, left, result) && bit != 0
    ensures 0 <= result && result + bit < TWO_64
    ensures var taken := left >= result + bit;
      Searching(v, RootAfter(v, root, Pow2(k)), if k > 0 then k - 1 else 0, bit / 4,
                if taken then left - (result + bit) else left, if taken then result / 2 + bit else result / 2)
  {
    hide Pow2, IsRoot, RootAfter, RootPartly;
    var p := Pow2(k);
    BitFits(v, root, p, left, result);
    StepResult(v, root, p, left, result);
    PowerSquares(k);
    if k > 0 { HalfStep(v, root, Pow2(k - 1), left, result); } else { LastStep(v, root, left, result); }
  }

  lemma StartRoot(v: nat, k: nat, bit: nat)
    requires k <= 31 && (bit == 0 || bit == Pow2(k) * Pow2(k)) && (v < 4 * bit || v == bit == 0)
    ensures Searching(v, 0, k, bit, v, 0)
  {
    PowerBound(k);
    hide Pow2;
    if bit != 0 { StartFrom(v, Pow2(k)); }
  }

  lemma StartFrom(v: nat, p: nat)
    requires 1 <= p <= 0x8000_0000 && v < 4 * (p * p)
    ensures RootPartly(v, 0, p, v, 0)
  {
    assert (2 * p) * (2 * p) == 4 * (p * p);
  }

  // ---------------------------------------------------------------- rounding division

  /** Half away from zero; the divisor is a sample count. */
  function DivRound(numerator: int, denominator: int): int {
    if denominator <= 0 then 0
    else if numerator >= 0 then TruncDiv(numerator + denominator / 2, denominator)
    else -TruncDiv(-numerator + denominator / 2, denominator)
  }

  /** The same as computed, where every sum and negation wraps. */
  function DivRoundI64(numerator: i64, denominator: i64): i64 {
    if denominator <= 0 then 0
    else if numerator >= 0 then Quotient(WrapI64(numerator + denominator / 2), denominator)
    else WrapI64(0 - Quotient(WrapI64(WrapI64(0 - numerator) + denominator / 2), denominator))
  }

  /** A truncated quotient is no larger than its dividend. */
  function Quotient(x: i64, d: i64): i64
    requires d > 0
  {
    QuotientFits(if x >= 0 then x else 0 - x, d);
    TruncDiv(x, d)
  }

  lemma QuotientFits(x: nat, n: nat)
    requires n > 0
    ensures 0 <= x / n <= x
  {
    var q, m := x / n, x % n;
    assert x == q * n + m;
    DivNonNegative(x, n);
    Product(1, n, q);
  }

  /** A nonnegative dividend, whether rounding carries it over or not. */
  lemma RoundNonNegative(w: i64, n: nat)
    requires w >= 0 && 0 < n <= WINDOW
    ensures DivRoundI64(w, n) == if w + n / 2 <= I64_MAX then (w + n / 2) / n else 0 - (TWO_64 - w - n / 2) / n
  {
    WrapNear(w + n / 2);
    hide WrapI64;
  }

  /** A negative one, likewise; the most negative is its own negation. */
  lemma RoundNegative(w: i64, n: nat)
    requires w < 0 && 0 < n <= WINDOW
    ensures w >= n / 2 - I64_MAX ==> DivRoundI64(w, n) == 0 - (n / 2 - w) / n
    ensures -0x8000_0000_0000_0000 < w < n / 2 - I64_MAX ==> DivRoundI64(w, n) == (TWO_64 + w - n / 2) / n
    ensures w == -0x8000_0000_0000_0000 && n > 1 ==> DivRoundI64(w, n) == (0x8000_0000_0000_0000 - n / 2) / n
  {
    hide WrapI64;
    WrapNear(0 - w);
    var minus: int := if w == -0x8000_0000_0000_0000 then w else 0 - w;
    assert WrapI64(0 - w) == minus;
    WrapNear(minus + n / 2);
    var rounded := WrapI64(minus + n / 2);
    QuotientFits(Abs(rounded), n);
    WrapNear(0 - Quotient(rounded, n));
  }

  /** Where the sum and half the count fit, nothing wraps and the mean is the rounded one. */
  lemma DivRoundIsExact(sum: int, n: nat)
    requires 0 < n <= WINDOW && Abs(sum) + n / 2 <= I64_MAX
    ensures DivRoundI64(WrapI64(sum), n) == DivRound(sum, n)
  {
    WrapNear(sum);
    hide DivRoundI64, WrapI64;
    if sum >= 0 { RoundNonNegative(sum, n); } else { RoundNegative(sum, n); }
  }

  /** For a full window that is exactly when the mean is right. */
  lemma FullWindowMeanIff(sum: int)
    ensures DivRoundI64(WrapI64(sum), WINDOW) == DivRound(sum, WINDOW) <==> Abs(sum) + WINDOW / 2 <= I64_MAX
  {
    hide DivRoundI64, WrapI64, DivRound;
    if Abs(sum) + WINDOW / 2 <= I64_MAX {
      DivRoundIsExact(sum, WINDOW);
    } else {
      WrapMultiple(sum);
      FullWindowTrue(sum);
      FullWindowComputed(WrapI64(sum));
      if sum >= 0 { WrongAbove(sum, WrapI64(sum)); } else { WrongBelow(sum, WrapI64(sum)); }
    }
  }

  /** The five ways the computation can go for a full window. */
  function FullMean(w: int): int {
    if 0 <= w <= I64_MAX - 8 then (w + 8) / 16
    else if w >= 0 then 0 - (TWO_64 - w - 8) / 16
    else if w >= 8 - I64_MAX then 0 - (8 - w) / 16
    else if w > -0x8000_0000_0000_0000 then (TWO_64 + w - 8) / 16
    else (0x8000_0000_0000_0000 - 8) / 16
  }

  lemma FullWindowComputed(w: i64)
    ensures DivRoundI64(w, WINDOW) == FullMean(w)
  {
    hide DivRoundI64;
    if w >= 0 { RoundNonNegative(w, WINDOW); } else { RoundNegative(w, WINDOW); }
  }

  lemma WrongAbove(sum: int, w: i64)
    requires sum + 8 > I64_MAX && (sum - w) % TWO_64 == 0
    ensures FullMean(w) != (sum + 8) / 16
  {
    assert sum == w || sum >= w + TWO_64;
  }

  lemma WrongBelow(sum: int, w: i64)
    requires sum < 0 && 8 - sum > I64_MAX && (sum - w) % TWO_64 == 0
    ensures FullMean(w) != 0 - (8 - sum) / 16
  {
    assert sum == w || sum <= w - TWO_64;
  }

  lemma FullWindowTrue(sum: int)
    ensures DivRound(sum, WINDOW) == if sum >= 0 then (sum + 8) / 16 else 0 - (8 - sum) / 16
  {}

  lemma RoundedQuotient(n: int, d: int)
    requires n >= 0 && d > 0
    ensures var q := (n + d / 2) / d; -d <= 2 * (d * q - n) <= d
  {
    var q, m := (n + d / 2) / d, (n + d / 2) % d;
    assert n + d / 2 == q * d + m;
    assert d * q == q * d;
  }

  /** The quotient is a nearest integer, and negation commutes with it. */
  lemma DivRoundIsNearest(numerator: int, denominator: int)
    requires denominator > 0
    ensures var r := DivRound(numerator, denominator);
      -denominator <= 2 * (denominator * r - numerator) <= denominator
    ensures DivRound(-numerator, denominator) == -DivRound(numerator, denominator)
  {
    RoundedQuotient(if numerator >= 0 then numerator else -numerator, denominator);
    var q := (Abs(numerator) + denominator / 2) / denominator;
    DivNonNegative(Abs(numerator) + denominator / 2, denominator);
    NegatedFactor(denominator, q);
    assert DivRound(numerator, denominator) == if numerator >= 0 then q else -q;
  }

  lemma AtLeastOneMore(a: int, b: int, n: int)
    requires a < b && n > 0
    ensures n * a + n <= n * b
  {
    Product(a + 1, b, n);
    assert (a + 1) * n == n * a + n && b * n == n * b;
  }

  /** So a rounded mean stays between two integer bounds. */
  lemma DivRoundBetween(sum: int, n: int, low: int, high: int)
    requires n > 0 && n * low <= sum <= n * high
    ensures low <= DivRound(sum, n) <= high
  {
    var r := DivRound(sum, n);
    DivRoundIsNearest(sum, n);
    hide DivRound;
    if r > high { AtLeastOneMore(high, r, n); }
    if r < low { AtLeastOneMore(r, low, n); }
  }

  // ---------------------------------------------------------------- sums over a window

  /** As the source: the most negative value has no 64-bit negation. */
  function AbsI64(x: i64): i64 {
    if x == -0x8000_0000_0000_0000 then I64_MAX else if x < 0 then -x else x
  }

  function Sum(s: seq<int>): int {
    if s == [] then 0 else Sum(s[..|s| - 1]) + s[|s| - 1]
  }

  function Squares(s: seq<int>): nat {
    if s == [] then 0 else Squares(s[..|s| - 1]) + s[|s| - 1] * s[|s| - 1]
  }

  /** Squares of the differences of neighbours. */
  function StepSquares(s: seq<int>): nat {
    if |s| <= 1 then 0
    else
      var diff := s[|s| - 1] - s[|s| - 2];
      StepSquares(s[..|s| - 1]) + diff * diff
  }

  /** The same with every difference wrapped, as computed. */
  function WrappedStepSquares(s: seq<int>): nat {
    if |s| <= 1 then 0
    else
      var diff: int := WrapI64(s[|s| - 1] - s[|s| - 2]);
      WrappedStepSquares(s[..|s| - 1]) + diff * diff
  }

  lemma {:induction false} FittingStepsAreTrue(s: seq<int>)
    requires DifferencesFit(s)
    ensures WrappedStepSquares(s) == StepSquares(s)
  {
    if |s| > 1 {
      FittingStepsAreTrue(s[..|s| - 1]);
      WrapNear(s[|s| - 1] - s[|s| - 2]);
      hide WrapI64;
    }
  }

  predicate IsMinimum(m: int, s: seq<int>) {
    m in s && forall i :: 0 <= i < |s| ==> m <= s[i]
  }

  predicate IsMaximum(m: int, s: seq<int>) {
    m in s && forall i :: 0 <= i < |s| ==> s[i] <= m
  }

  function Capped(x: nat): u64 {
    if x > U64_MAX then U64_MAX else x
  }

  lemma SquareOverflowsIff(a: nat)
    ensures a != 0 ==> (a > U64_MAX / a <==> a * a > U64_MAX)
  {
    if a != 0 {
      var q, m := U64_MAX / a, U64_MAX % a;
      assert U64_MAX == q * a + m;
      if a > q { Product(q + 1, a, a); } else { Product(a, q, a); }
    }
  }

  /** A square as computed: saturated instead of wrapped. */
  function SquareSat(x: i64): u64 {
    var a := AbsI64(x);
    SquareOverflowsIff(a);
    if a != 0 && a > U64_MAX / a then U64_MAX else a * a
  }

  function AddSat(a: u64, b: u64): u64 {
    if U64_MAX - a < b then U64_MAX else a + b
  }

  lemma SaturatedSquare(x: i64)
    ensures SquareSat(x) == Capped(x * x)
  {
    var a := AbsI64(x);
    SquareOverflowsIff(a);
    if x == -0x8000_0000_0000_0000 {
      assert a * a > U64_MAX;
    } else {
      assert a * a == x * x;
    }
  }

  lemma SaturatedSum(a: nat, x: i64)
    ensures AddSat(Capped(a), SquareSat(x)) == Capped(a + x * x)
  {
    SaturatedSquare(x);
    assert x * x >= 0;
  }

  // ---------------------------------------------------------------- when nothing overflows

  predicate Fits(x: int) {
    -0x8000_0000_0000_0000 <= x <= I64_MAX
  }

  /** Every partial sum is a 64-bit integer. */
  predicate SumsFit(s: seq<int>) {
    s == [] || (SumsFit(s[..|s| - 1]) && Fits(Sum(s)))
  }

  /** No step of the computation over these values overflows. */
  predicate Computable(s: seq<int>) {
    && SumsFit(s) && Abs(Sum(s)) + |s| / 2 <= I64_MAX
  }

  predicate DifferencesFit(s: seq<int>) {
    forall i :: 0 < i < |s| ==> Fits(s[i] - s[i - 1])
  }

  lemma {:induction false} SumBounded(s: seq<int>, bound: nat)
    requires forall i :: 0 <= i < |s| ==> Abs(s[i]) <= bound
    ensures Abs(Sum(s)) <= |s| * bound
  {
    if s != [] {
      SumBounded(s[..|s| - 1], bound);
      assert |s| * bound == (|s| - 1) * bound + bound;
    }
  }

  lemma {:induction false} BoundedSumsFit(s: seq<int>, bound: nat)
    requires |s| <= WINDOW && bound <= 0x7FF_FFFF_FFFF_FFFF && forall i :: 0 <= i < |s| ==> Abs(s[i]) <= bound
    ensures SumsFit(s) && Abs(Sum(s)) <= I64_MAX - 15
  {
    if s != [] { BoundedSumsFit(s[..|s| - 1], bound); }
    SumBounded(s, bound);
    Product(|s|, WINDOW, bound);
  }

  lemma {:induction false} SumOfEqual(n: nat, x: int)
    ensures Sum(seq(n, i => x)) == n * x
  {
    if n > 0 {
      SumOfEqual(n - 1, x);
      assert seq(n, i => x)[..n - 1] == seq(n - 1, i => x);
      assert n * x == (n - 1) * x + x;
    }
  }

  ghost predicate SafeBound(bound: nat) {
    forall s: seq<int> :: |s| <= WINDOW && (forall i :: 0 <= i < |s| ==> Abs(s[i]) <= bound) ==> Computable(s)
  }

  /** The measurements a full window can take without overflow are exactly those under 2 to the 59 ns,
      a little over eighteen years. */
  lemma SafeBoundIff(bound: nat)
    ensures SafeBound(bound) <==> bound <= 0x7FF_FFFF_FFFF_FFFF
  {
    if bound <= 0x7FF_FFFF_FFFF_FFFF {
      forall s: seq<int> | |s| <= WINDOW && forall i :: 0 <= i < |s| ==> Abs(s[i]) <= bound ensures Computable(s) {
        BoundedSumsFit(s, bound);
      }
    } else {
      var s := seq(WINDOW, i => bound);
      SumOfEqual(WINDOW, bound);
      assert !Computable(s);
    }
  }

  // ---------------------------------------------------------------- the window and its statistics

  /** What the window is to hold: the last sixteen, oldest first. */
  function Recent<T>(history: seq<T>): (w: seq<T>)
    ensures |w| == if |history| < WINDOW then |history| else WINDOW
  {
    if |history| <= WINDOW then history else history[|history| - WINDOW..]
  }

  lemma RecentStep<T>(history: seq<T>, x: T)
    ensures Recent(Recent(history) + [x]) == Recent(history + [x])
  {}

  /** The saturated sum of squares over the count, rounded down. */
  function MeanSquare(squares: u64, n: nat): u64
    requires n > 0
  {
    QuotientFits(squares, n);
    squares / n
  }

  predicate Describes(st: Status, o: seq<i64>, d: seq<i64>)
    requires 0 < |o| == |d| <= WINDOW
  {
    && st.samples == |o|
    && IsMinimum(st.minOffset, o) && IsMaximum(st.maxOffset, o) && IsMinimum(st.minDelay, d)
    && st.meanOffset == DivRoundI64(WrapI64(Sum(o)), |o|) && st.meanDelay == DivRoundI64(WrapI64(Sum(d)), |d|)
    && IsRoot(st.rmsOffset, MeanSquare(Capped(Squares(o)), |o|))
    && (if |o| > 1 then IsRoot(st.jitter, MeanSquare(Capped(WrappedStepSquares(o)), |o| - 1)) else st.jitter == 0)
  }

  /** The loop over the window. Sums and differences wrap, squares saturate. */
  method Total(offset: array<i64>, delay: array<i64>, count: nat) returns (t: Totals)
    requires 0 < count <= offset.Length == delay.Length
    ensures Totalled(offset[..count], delay[..count], count, t)
  {
    ghost var os, ds := offset[..count], delay[..count];
    t := Totals(0, 0, 0, 0, offset[0], offset[0], delay[0]);
    NothingSummed(os, ds);
    assert offset[0] == os[0] && delay[0] == ds[0];
    hide Totalled, Added;
    for i := 0 to count
      invariant Totalled(os, ds, i, t)
    {
      assert offset[i] == os[i] && delay[i] == ds[i];
      assert i > 0 ==> offset[i - 1] == os[i - 1];
      TotalsStep(os, ds, i, t);
      t := AddSample(t, offset[i], delay[i], if i > 0 then Some(offset[i - 1]) else None);
    }
  }

  /** The loop body. */
  method AddSample(t: Totals, o: i64, d: i64, previous: Option<i64>) returns (u: Totals)
    ensures u == Added(t, o, d, previous)
  {
    hide SquareSat, AddSat, WrapI64;
    u := t.(offsetSum := WrapI64(t.offsetSum + o), delaySum := WrapI64(t.delaySum + d));
    if o < u.minOffset { u := u.(minOffset := o); }
    if o > u.maxOffset { u := u.(maxOffset := o); }
    if d < u.minDelay { u := u.(minDelay := d); }
    u := u.(offsetSquares := AddSat(u.offsetSquares, SquareSat(o)));
    if previous.Some? {
      var diff: i64 := WrapI64(o - previous.value);
      u := u.(stepSquares := AddSat(u.stepSquares, SquareSat(diff)));
    }
  }

  function Added(t: Totals, o: i64, d: i64, previous: Option<i64>): Totals {
    Totals(WrapI64(t.offsetSum + o), WrapI64(t.delaySum + d), AddSat(t.offsetSquares, SquareSat(o)),
           if previous.Some? then AddSat(t.stepSquares, SquareSat(WrapI64(o - previous.value))) else t.stepSquares,
           if o < t.minOffset then o else t.minOffset, if o > t.maxOffset then o else t.maxOffset,
           if d < t.minDelay then d else t.minDelay)
  }

  class Peer {
    const offset: array<i64>
    const delay: array<i64>
    var count: nat
    var next: nat
    var status: Status
    /** All measurements since the last reset. */
    ghost var offsets: seq<i64>
    ghost var delays: seq<i64>

    ghost predicate RingValid()
      reads this
    {
      offset.Length == WINDOW && delay.Length == WINDOW && offset != delay && count <= WINDOW && next == count % WINDOW
    }

    ghost predicate Valid()
      reads this, offset, delay
    {
      && RingValid()
      && offset[..count] == Recent(offsets) && delay[..count] == Recent(delays)
      && (count > 0 ==> Describes(status, offset[..count], delay[..count]))
    }

    constructor ()
      ensures Valid() && offsets == [] && delays == [] && fresh(offset) && fresh(delay)
    {
      offset, delay := new i64[WINDOW](_ => 0), new i64[WINDOW](_ => 0);
      count, next, status, offsets, delays := 0, 0, Status(0, 0, 0, 0, 0, 0, 0, 0), [], [];
    }

    /** Into the ring, which is then turned so that it starts with the oldest. */
    method Store(o: i64, d: i64)
      requires RingValid()
      modifies this`count, this`next, offset, delay
      ensures RingValid()
      ensures offset[..count] == Recent(old(offset[..count]) + [o])
      ensures delay[..count] == Recent(old(delay[..count]) + [d])
    {
      ghost var wasOffset, wasDelay := offset[..count], delay[..count];
      Put(o, d);
      if count == WINDOW && next != 0 {
        Turn(wasOffset, wasDelay, o, d);
        next := 0;
      }
    }

    /** The two writes and the indices. */
    method Put(o: i64, d: i64)
      requires RingValid()
      modifies this`count, this`next, offset, delay
      ensures count == if old(count) < WINDOW then old(count) + 1 else WINDOW
      ensures next == (old(next) + 1) % WINDOW
      ensures old(count) < WINDOW ==>
        offset[..count] == old(offset[..count]) + [o] && delay[..count] == old(delay[..count]) + [d]
      ensures old(count) == WINDOW ==> offset[..] == old(offset[..])[0 := o] && delay[..] == old(delay[..])[0 := d]
    {
      offset[next], delay[next] := o, d;
      next := (next + 1) % WINDOW;
      if count < WINDOW { count := count + 1; }
    }

    /** The newest element has replaced the oldest, at index 0. */
    method Turn(ghost wasOffset: seq<i64>, ghost wasDelay: seq<i64>, o: i64, d: i64)
      requires offset.Length == WINDOW && delay.Length == WINDOW && offset != delay && next == 1
      requires |wasOffset| == WINDOW && offset[..] == wasOffset[0 := o]
      requires |wasDelay| == WINDOW && delay[..] == wasDelay[0 := d]
      modifies offset, delay
      ensures offset[..] == wasOffset[1..] + [o] && delay[..] == wasDelay[1..] + [d]
    {
      var orderedOffset := Turned(offset, wasOffset, o);
      var orderedDelay := Turned(delay, wasDelay, d);
      Copy(orderedOffset, offset);
      Copy(orderedDelay, delay);
    }

    method Turned(a: array<i64>, ghost was: seq<i64>, x: i64) returns (ordered: array<i64>)
      requires a.Length == WINDOW == |was| && a[..] == was[0 := x] && next == 1
      ensures fresh(ordered) && ordered[..] == was[1..] + [x]
    {
      ordered := new i64[WINDOW];
      for i := 0 to WINDOW
        invariant forall k :: 0 <= k < i ==> ordered[k] == if k + 1 < WINDOW then was[k + 1] else x
      {
        var src := (next + i) % WINDOW;
        assert a[src] == a[..][src];
        ordered[i] := a[src];
      }
    }

    /** One pass over the window; the peer's status is left alone while there is nothing in it. */
    method ComputeRollingStats()
      requires RingValid()
      modifies this`status
      ensures count > 0 ==> Describes(status, offset[..count], delay[..count])
      ensures count == 0 ==> status == old(status)
    {
      if count == 0 { return; }
      var t := Total(offset, delay, count);
      Finish(offset[..count], delay[..count], t);
    }

    method Finish(ghost os: seq<i64>, ghost ds: seq<i64>, t: Totals)
      requires 0 < count == |os| == |ds| <= WINDOW && Totalled(os, ds, count, t)
      modifies this`status
      ensures Describes(status, os, ds)
    {
      assert os[..count] == os && ds[..count] == ds;
      hide Sum, Squares, WrappedStepSquares, Capped, IsRoot, DivRoundI64, WrapI64;
      var rms := Isqrt(MeanSquare(t.offsetSquares, count));
      var jitter := 0;
      if count > 1 { jitter := Isqrt(MeanSquare(t.stepSquares, count - 1)); }
      status := Status(count, t.minOffset, t.maxOffset, DivRoundI64(t.offsetSum, count), rms,
                       t.minDelay, DivRoundI64(t.delaySum, count), jitter);
    }

    /** A successful poll: the window moves on by one and the statistics follow it. */
    method UpdateSuccess(o: i64, d: i64)
      requires Valid()
      modifies this, offset, delay
      ensures Valid() && offsets == old(offsets) + [o] && delays == old(delays) + [d]
    {
      RecentStep(offsets, o);
      RecentStep(delays, d);
      hide Describes, Recent;
      Store(o, d);
      offsets, delays := offsets + [o], delays + [d];
      ComputeRollingStats();
    }
  }

  predicate Lowest(m: int, s: seq<int>, i: nat)
    requires i <= |s|
  {
    m in s && forall k :: 0 <= k < i ==> m <= s[k]
  }

  predicate Extremes(low: int, high: int, s: seq<int>, i: nat)
    requires i <= |s|
  {
    Lowest(low, s, i) && high in s && forall k :: 0 <= k < i ==> s[k] <= high
  }

  datatype Totals = Totals(offsetSum: i64, delaySum: i64, offsetSquares: u64, stepSquares: u64,
                           minOffset: i64, maxOffset: i64, minDelay: i64)

  /** The running totals after the first `i` samples. */
  predicate Totalled(o: seq<i64>, d: seq<i64>, i: nat, t: Totals)
    requires i <= |o| == |d|
  {
    Summed(o, d, i, t) && Extremes(t.minOffset, t.maxOffset, o, i) && Lowest(t.minDelay, d, i)
  }

  predicate Summed(o: seq<i64>, d: seq<i64>, i: nat, t: Totals)
    requires i <= |o| == |d|
  {
    && t.offsetSum == WrapI64(Sum(o[..i])) && t.delaySum == WrapI64(Sum(d[..i]))
    && t.offsetSquares == Capped(Squares(o[..i])) && t.stepSquares == Capped(WrappedStepSquares(o[..i]))
  }

  lemma SummedStep(o: seq<i64>, d: seq<i64>, i: nat, t: Totals)
    requires i < |o| == |d| && Summed(o, d, i, t)
    ensures Summed(o, d, i + 1, Added(t, o[i], d[i], if i > 0 then Some(o[i - 1]) else None))
  {
    hide Sum, Squares, WrappedStepSquares, Capped, SquareSat, AddSat, WrapI64;
    PrefixStep(o, i);
    PrefixStep(d, i);
    WrapOnce(Sum(o[..i]), o[i]);
    WrapOnce(Sum(d[..i]), d[i]);
    SaturatedSum(Squares(o[..i]), o[i]);
    if i > 0 {
      var current: int, previous: int := o[i], o[i - 1];
      SaturatedSum(WrappedStepSquares(o[..i]), WrapI64(current - previous));
    }
  }

  lemma TotalsStep(o: seq<i64>, d: seq<i64>, i: nat, t: Totals)
    requires i < |o| == |d| && Totalled(o, d, i, t)
    ensures Totalled(o, d, i + 1, Added(t, o[i], d[i], if i > 0 then Some(o[i - 1]) else None))
  {
    hide Summed, SquareSat, AddSat, WrapI64, Extremes, Lowest;
    SummedStep(o, d, i, t);
    ExtremesStep(o, i, t.minOffset, t.maxOffset);
    LowestStep(d, i, t.minDelay);
  }

  lemma ExtremesStep(s: seq<int>, i: nat, low: int, high: int)
    requires i < |s| && Extremes(low, high, s, i)
    ensures Extremes(if s[i] < low then s[i] else low, if s[i] > high then s[i] else high, s, i + 1)
  {}

  lemma LowestStep(s: seq<int>, i: nat, low: int)
    requires i < |s| && Lowest(low, s, i)
    ensures Lowest(if s[i] < low then s[i] else low, s, i + 1)
  {}

  /** Wrapping as the sum grows or once at the end is the same. */
  lemma WrapOnce(x: int, y: int)
    ensures WrapI64(WrapI64(x) + y) == WrapI64(x + y)
  {
    var k := (x - WrapI64(x)) / TWO_64;
    assert x == k * TWO_64 + WrapI64(x) by { assert x == x / TWO_64 * TWO_64 + x % TWO_64; }
    WrapIgnoresMultiple(WrapI64(x) + y, k);
  }

  lemma WrapIgnoresMultiple(x: int, k: int)
    ensures WrapI64(k * TWO_64 + x) == WrapI64(x)
  {
    var q, r := x / TWO_64, x % TWO_64;
    assert k * TWO_64 + x == (k + q) * TWO_64 + r;
    DivUnique(k * TWO_64 + x, TWO_64, k + q, r);
  }

  lemma NothingSummed(o: seq<i64>, d: seq<i64>)
    requires |o| == |d| > 0
    ensures Totalled(o, d, 0, Totals(0, 0, 0, 0, o[0], o[0], d[0]))
  {}

  lemma {:induction false} PrefixStep(s: seq<int>, i: nat)
    requires i < |s|
    ensures Sum(s[..i + 1]) == Sum(s[..i]) + s[i]
    ensures Squares(s[..i + 1]) == Squares(s[..i]) + s[i] * s[i]
    ensures i == 0 ==> WrappedStepSquares(s[..i + 1]) == WrappedStepSquares(s[..i])
    ensures i > 0 ==> var diff: int := WrapI64(s[i] - s[i - 1]);
      WrappedStepSquares(s[..i + 1]) == WrappedStepSquares(s[..i]) + diff * diff
  {
    hide WrapI64;
    assert s[..i + 1][..i] == s[..i];
  }

  method Copy(src: array<i64>, dst: array<i64>)
    requires src.Length == dst.Length && src != dst
    modifies dst
    ensures dst[..] == old(src[..])
  {
    for i := 0 to dst.Length
      invariant dst[..i] == src[..i] && src[..] == old(src[..])
    {
      dst[i] := src[i];
    }
  }

  // ---------------------------------------------------------------- what the statistics mean

  lemma {:induction false} SumBetween(s: seq<int>, low: int, high: int)
    requires forall i :: 0 <= i < |s| ==> low <= s[i] <= high
    ensures |s| * low <= Sum(s) <= |s| * high
  {
    if s != [] {
      SumBetween(s[..|s| - 1], low, high);
      assert |s| * low == (|s| - 1) * low + low && |s| * high == (|s| - 1) * high + high;
    }
  }

  /** The sum and half the count fit in 64 bits. */
  predicate Averages(s: seq<int>) {
    Abs(Sum(s)) + |s| / 2 <= I64_MAX
  }

  /** Where the sums fit, rounding never takes a mean outside the range of its samples. */
  lemma MeanBetween(st: Status, o: seq<i64>, d: seq<i64>)
    requires 0 < |o| == |d| <= WINDOW && Describes(st, o, d)
    ensures Averages(o) ==> st.minOffset <= st.meanOffset <= st.maxOffset
    ensures Averages(d) ==> st.minDelay <= st.meanDelay
  {
    hide Sum, DivRound, DivRoundI64, IsRoot, WrapI64;
    if Averages(o) {
      DivRoundIsExact(Sum(o), |o|);
      SumBetween(o, st.minOffset, st.maxOffset);
      DivRoundBetween(Sum(o), |o|, st.minOffset, st.maxOffset);
    }
    if Averages(d) {
      DivRoundIsExact(Sum(d), |d|);
      MinimumBelowSum(d, st.minDelay);
      MeanAbove(Sum(d), |d|, st.minDelay);
    }
  }

  /** Where they do not, it can: a window full of one sample averages below the sample itself as soon as it
      is 2 to the 59 ns, and up to twice that. */
  lemma MeanLeavesRange(st: Status, o: seq<i64>, d: seq<i64>, x: int)
    requires |o| == |d| == WINDOW && Describes(st, o, d) && o == seq(WINDOW, i => x)
    requires 0x800_0000_0000_0000 <= x < 0x1000_0000_0000_0000
    ensures st.meanOffset < st.minOffset == x
  {
    hide Sum, IsRoot, Squares, WrappedStepSquares, DivRoundI64, WrapI64;
    SumOfEqual(WINDOW, x);
    assert st.minOffset in o;
    WrappedMean(x);
  }

  lemma WrappedMean(x: int)
    requires 0x800_0000_0000_0000 <= x < 0x1000_0000_0000_0000
    ensures DivRoundI64(WrapI64(WINDOW * x), WINDOW) < x
  {
    hide WrapI64, DivRoundI64;
    WrapNear(WINDOW * x);
    RoundNegative(WrapI64(WINDOW * x), WINDOW);
  }

  lemma {:induction false} MinimumBelowSum(s: seq<int>, low: int)
    requires forall i :: 0 <= i < |s| ==> low <= s[i]
    ensures |s| * low <= Sum(s)
  {
    if s != [] {
      MinimumBelowSum(s[..|s| - 1], low);
      assert |s| * low == (|s| - 1) * low + low;
    }
  }

  lemma MeanAbove(sum: int, n: int, low: int)
    requires n > 0 && n * low <= sum
    ensures low <= DivRound(sum, n)
  {
    var r := DivRound(sum, n);
    DivRoundIsNearest(sum, n);
    hide DivRound;
    if r < low { AtLeastOneMore(r, low, n); }
  }

  lemma RootOfMean(r: nat, squares: nat, n: nat)
    requires n > 0 && squares <= U64_MAX && IsRoot(r, MeanSquare(Capped(squares), n))
    ensures n * (r * r) <= squares < n * ((r + 1) * (r + 1))
  {
    var q, m := squares / n, squares % n;
    assert squares == q * n + m;
    Product(r * r, q, n);
    Product(q + 1, (r + 1) * (r + 1), n);
  }

  /** Without saturation, the square root of the mean square lies in `[rms, rms + 1)`, and likewise jitter
      for the mean square of the steps, where these fit. */
  lemma RootMeanSquares(st: Status, o: seq<i64>, d: seq<i64>)
    requires 0 < |o| == |d| <= WINDOW && Describes(st, o, d)
    ensures Squares(o) <= U64_MAX ==>
      |o| * (st.rmsOffset * st.rmsOffset) <= Squares(o) < |o| * ((st.rmsOffset + 1) * (st.rmsOffset + 1))
    ensures |o| > 1 && DifferencesFit(o) && StepSquares(o) <= U64_MAX ==>
      (|o| - 1) * (st.jitter * st.jitter) <= StepSquares(o) < (|o| - 1) * ((st.jitter + 1) * (st.jitter + 1))
  {
    hide Squares, StepSquares, WrappedStepSquares, IsRoot, Sum, DivRoundI64, WrapI64;
    if Squares(o) <= U64_MAX { RootOfMean(st.rmsOffset, Squares(o), |o|); }
    if |o| > 1 && DifferencesFit(o) && StepSquares(o) <= U64_MAX {
      FittingStepsAreTrue(o);
      RootOfMean(st.jitter, StepSquares(o), |o| - 1);
    }
  }

  /** Cauchy and Schwarz, for a vector and the all-ones vector. */
  lemma {:induction false} SumSquaredBelowSquares(s: seq<int>)
    ensures Sum(s) * Sum(s) <= |s| * Squares(s)
  {
    if s != [] {
      var init, x := s[..|s| - 1], s[|s| - 1];
      SumSquaredBelowSquares(init);
      CauchyStep(Sum(init), Squares(init), |init|, x);
    }
  }

  lemma CauchyStep(a: int, q: nat, n: nat, x: int)
    requires a * a <= n * q && (n == 0 ==> a == 0)
    ensures (a + x) * (a + x) <= (n + 1) * (q + x * x)
  {
    CrossTerm(a, q, n, x);
    SquareOfSum(a, x);
    Expand(n, q, x * x);
  }

  lemma CrossTerm(a: int, q: nat, n: nat, x: int)
    requires a * a <= n * q && (n == 0 ==> a == 0)
    ensures 2 * (a * x) <= q + n * (x * x)
  {
    if n == 0 {
      assert a * x == 0;
    } else {
      SquareOfDifference(a, n, x);
      SquareNonNegative(a - n * x);
      Distribute(n, q, a * x, n * (x * x));
      PositiveFactor(n, q - 2 * (a * x) + n * (x * x));
    }
  }

  lemma SquareNonNegative(x: int)
    ensures x * x >= 0
  {}

  lemma PositiveFactor(n: int, x: int)
    requires n > 0 && n * x >= 0
    ensures x >= 0
  {
    if x < 0 { Product(x, -1, n); }
  }

  lemma SquareOfDifference(a: int, n: int, x: int)
    ensures (a - n * x) * (a - n * x) == a * a - 2 * (n * (a * x)) + n * (n * (x * x))
  {
    var m := n * x;
    assert (a - m) * (a - m) == a * a - 2 * (a * m) + m * m;
    assert a * m == n * (a * x);
    assert m * m == n * (x * m) && x * m == n * (x * x);
  }

  lemma Distribute(n: int, a: int, b: int, c: int)
    ensures n * a - 2 * (n * b) + n * c == n * (a - 2 * b + c)
  {}

  lemma Expand(n: int, a: int, b: int)
    ensures (n + 1) * (a + b) == n * a + n * b + a + b
  {}

  lemma Magnitude(a: int, b: nat)
    requires a * a <= b * b
    ensures Abs(a) <= b
  {
    assert Abs(a) * Abs(a) == a * a;
    SquareOfSum(b, 1);
    if Abs(a) > b { SquareMonotone(b + 1, Abs(a)); }
  }

  lemma SquareOfProduct(n: int, r: int)
    ensures n * (n * (r * r)) == (n * r) * (n * r)
  {
    var m := n * r;
    assert m * m == n * (r * m) && r * m == n * (r * r);
  }

  lemma SumBelow(sum: int, squares: nat, n: nat, r: nat)
    requires sum * sum <= n * squares && squares <= n * (r * r)
    ensures Abs(sum) <= n * r
  {
    Product(squares, n * (r * r), n);
    SquareOfProduct(n, r);
    assert squares * n == n * squares && n * (r * r) * n == n * (n * (r * r));
    Magnitude(sum, n * r);
  }

  lemma MeanBelow(mean: int, sum: int, n: int, r: int)
    requires n > 0 && -(n * r) <= sum <= n * r && -n <= 2 * (n * mean - sum) <= n
    ensures -r <= mean <= r
  {
    if mean > r { AtLeastOneMore(r, mean, n); }
    if mean < -r { AtLeastOneMore(mean, -r, n); NegatedFactor(n, r); }
  }

  lemma NegatedFactor(n: int, r: int)
    ensures n * -r == -(n * r)
  {}

  lemma SmallSquaresSmallSum(sum: int, squares: nat, n: nat)
    requires sum * sum <= n * squares && squares <= U64_MAX && n <= WINDOW
    ensures Abs(sum) <= 0x4_0000_0000
  {
    Product(n, WINDOW, squares);
    Magnitude(sum, 0x4_0000_0000);
  }

  /** The mean is no larger than the root mean square, up to the two roundings. */
  lemma MeanWithinRms(st: Status, o: seq<i64>, d: seq<i64>)
    requires 0 < |o| == |d| <= WINDOW && Describes(st, o, d) && Squares(o) <= U64_MAX
    ensures Abs(st.meanOffset) <= st.rmsOffset + 1
  {
    RootMeanSquares(st, o, d);
    SumSquaredBelowSquares(o);
    DivRoundIsNearest(Sum(o), |o|);
    hide Squares, Sum, DivRound, DivRoundI64, IsRoot, MeanSquare, WrapI64, WrappedStepSquares;
    SmallSquaresSmallSum(Sum(o), Squares(o), |o|);
    DivRoundIsExact(Sum(o), |o|);
    SumBelow(Sum(o), Squares(o), |o|, st.rmsOffset + 1);
    MeanBelow(st.meanOffset, Sum(o), |o|, st.rmsOffset + 1);
  }
}
