/** In-place rewriting of the NTP transmit timestamp just before a frame leaves, with an incremental
    UDP checksum (main/eth_service.c; section 3 of RFC 1624). */
module LateStamp {
  import opened Bytes
  import opened Esp
  import opened Timestamps

  const ETHERTYPE_IPV4: u16 := 0x0800
  const ETHERTYPE_VLAN: u16 := 0x8100
  const ETHERTYPE_QINQ: u16 := 0x88A8
  const UDP: byte := 17
  const NTP_PORT: u16 := 123
  /** The only UDP length that is stamped: header plus a 48-byte NTP packet. */
  const PLAIN_NTP_UDP_LEN: u16 := 56
  const TX_COMPENSATION_NS: int := 98_941

  datatype StampCtx = StampCtx(udpOffset: nat, ntpOffset: nat, udpChecksum: u16, oldXmt: seq<u16>)

  // ---------------------------------------------------------------- parsing

  predicate IsTag(etherType: u16) {
    etherType == ETHERTYPE_VLAN || etherType == ETHERTYPE_QINQ
  }

  /** Offset of the network header and its ether type after skipping at most `tags` VLAN tags. */
  function SkipTags(f: seq<byte>, l3: nat, etherType: u16, tags: nat): Option<(nat, u16)>
    decreases tags
  {
    if tags == 0 || !IsTag(etherType) then Some((l3, etherType))
    else if |f| < l3 + 4 then None
    else SkipTags(f, l3 + 4, Rd16(f, l3 + 2), tags - 1)
  }

  /** Network and transport header offsets of an IPv4 frame. */
  datatype Layout = Layout(l3: nat, udp: nat)

  function Ipv4Layout(f: seq<byte>): (r: Option<Layout>)
    ensures r.Some? ==> r.value.l3 + 20 <= r.value.udp && r.value.udp + 8 <= |f|
  {
    if |f| < 14 then None
    else
      match SkipTags(f, 14, Rd16(f, 12), 2)
      case None => None
      case Some((l3, etherType)) =>
        if etherType != ETHERTYPE_IPV4 || |f| < l3 + 20 then None
        else
          var headerLen := f[l3] % 16 * 4;
          if headerLen < 20 || |f| < l3 + headerLen + 8 then None else Some(Layout(l3, l3 + headerLen))
  }

  predicate IsNtpResponse(f: seq<byte>) {
    match Ipv4Layout(f)
    case None => false
    case Some(at) =>
      f[at.l3] / 16 == 4 && f[at.l3 + 9] == UDP && Rd16(f, at.l3 + 6) % 0x2000 == 0 && Rd16(f, at.udp) == NTP_PORT
  }

  /** The checks that qualify a response for stamping. */
  predicate Stampable(f: seq<byte>) {
    IsNtpResponse(f) &&
    var at := Ipv4Layout(f).value;
    && Rd16(f, at.l3 + 6) % 0x4000 == 0
    && Rd16(f, at.udp + 4) == PLAIN_NTP_UDP_LEN
    && Rd16(f, at.l3 + 2) == at.udp - at.l3 + PLAIN_NTP_UDP_LEN
    && |f| >= at.udp + PLAIN_NTP_UDP_LEN
    && f[at.udp + 8] % 8 == 4
    && f[at.udp + 9] != 0
    && Rd16(f, at.udp + 6) != 0
  }

  function Prepared(f: seq<byte>): Option<StampCtx> {
    if !Stampable(f) then None
    else
      var udp := Ipv4Layout(f).value.udp;
      var ntp := udp + 8;
      Some(StampCtx(udp, ntp, Rd16(f, udp + 6),
                    [Rd16(f, ntp + 40), Rd16(f, ntp + 42), Rd16(f, ntp + 44), Rd16(f, ntp + 46)]))
  }

  function ResponseXmt(f: seq<byte>): Option<Timestamp> {
    if !IsNtpResponse(f) then None
    else
      var ntp := Ipv4Layout(f).value.udp + 8;
      if |f| < ntp + 48 then None else Some(Timestamp(Rd32(f, ntp + 40), Rd32(f, ntp + 44)))
  }

  // ---------------------------------------------------------------- the one's complement checksum

  /** One's complement folding of a sum to 16 bits. */
  function Fold(x: nat): (r: nat)
    ensures r < TWO_16
  {
    if x < TWO_16 then x else Fold(x % TWO_16 + x / TWO_16)
  }

  predicate Congruent(a: int, b: int) {
    (a - b) % 0xFFFF == 0
  }

  lemma CongruentSum(a: int, b: int, c: int, d: int)
    requires Congruent(a, b) && Congruent(c, d)
    ensures Congruent(a + c, b + d)
  {
    var m, n := (a - b) / 0xFFFF, (c - d) / 0xFFFF;
    assert (a + c) - (b + d) == (m + n) * 0xFFFF;
  }

  lemma {:induction false} FoldIsCongruent(x: nat)
    ensures Congruent(Fold(x), x)
    ensures x > 0 ==> Fold(x) > 0
  {
    if x >= TWO_16 {
      var q, r := x / TWO_16, x % TWO_16;
      FoldIsCongruent(r + q);
      assert r + q - x == -q * 0xFFFF;
      CongruentSum(Fold(r + q), r + q, r + q - x, 0);
    }
  }

  /** A positive sum folds to all ones exactly when it is a multiple of 2^16 - 1. */
  lemma FoldsToOnesIff(x: nat)
    requires x > 0
    ensures Fold(x) == 0xFFFF <==> Congruent(x, 0)
  {
    FoldIsCongruent(x);
    if Congruent(x, 0) { CongruentSum(Fold(x), x, x, 0); }
  }

  function ReplacedWord(checksum: u16, oldWord: u16, newWord: u16): u16 {
    0xFFFF - Fold((0xFFFF - checksum) + (0xFFFF - oldWord) + newWord)
  }

  /** Replacing a word keeps the checksum plus the words it covers, modulo 2^16 - 1. */
  lemma ReplacedWordBalances(checksum: u16, oldWord: u16, newWord: u16)
    ensures Congruent(ReplacedWord(checksum, oldWord, newWord) as int + newWord as int, checksum as int + oldWord as int)
  {
    var s := (0xFFFF - checksum) + (0xFFFF - oldWord) + newWord;
    FoldIsCongruent(s);
    var q := (Fold(s) - s) / 0xFFFF;
    assert (0xFFFF - Fold(s)) + newWord - checksum - oldWord == (-q - 1) * 0xFFFF;
  }

  /** Sum of `n` 16-bit words from offset `at`. */
  function WordSum(f: seq<byte>, at: nat, n: nat): nat
    requires at + 2 * n <= |f|
  {
    if n == 0 then 0 else WordSum(f, at, n - 1) + Rd16(f, at + 2 * (n - 1))
  }

  /** The sum a receiver forms over pseudo header and datagram (an even UDP length). */
  function UdpSum(f: seq<byte>, at: Layout): nat
    requires at.l3 + 20 <= at.udp && at.udp + PLAIN_NTP_UDP_LEN <= |f|
  {
    WordSum(f, at.l3 + 12, 4) + UDP as int + Rd16(f, at.udp + 4) as int + WordSum(f, at.udp, 28)
  }

  /** The receiver accepts the UDP checksum of the 56 bytes behind the IPv4 header. */
  predicate ChecksumVerifies(f: seq<byte>) {
    && Ipv4Layout(f).Some? && Ipv4Layout(f).value.udp + PLAIN_NTP_UDP_LEN <= |f|
    && Fold(UdpSum(f, Ipv4Layout(f).value)) == 0xFFFF
  }

  // ---------------------------------------------------------------- stamping

  function NewWords(t: Timestamp): (w: seq<u16>)
    ensures |w| == 4
  {
    [t.seconds / TWO_16, t.seconds % TWO_16, t.fraction / TWO_16, t.fraction % TWO_16]
  }

  /** The incremental checksum over the first `n` timestamp words. */
  function Updated(ctx: StampCtx, t: Timestamp, n: nat): u16
    requires |ctx.oldXmt| == 4 && n <= 4
  {
    if n == 0 then ctx.udpChecksum else ReplacedWord(Updated(ctx, t, n - 1), ctx.oldXmt[n - 1], NewWords(t)[n - 1])
  }

  function NewChecksum(ctx: StampCtx, t: Timestamp): (c: u16)
    requires |ctx.oldXmt| == 4
    ensures c != 0
  {
    if Updated(ctx, t, 4) == 0 then 0xFFFF else Updated(ctx, t, 4)
  }

  predicate CtxFits(f: seq<byte>, ctx: StampCtx) {
    |ctx.oldXmt| == 4 && ctx.ntpOffset == ctx.udpOffset + 8 && ctx.ntpOffset + 48 <= |f|
  }

  function Stamped(f: seq<byte>, ctx: StampCtx, t: Timestamp): (g: seq<byte>)
    requires CtxFits(f, ctx)
    ensures |g| == |f|
  {
    Splice(Splice(f, ctx.ntpOffset + 40, Be32(t.seconds) + Be32(t.fraction)), ctx.udpOffset + 6, Be16(NewChecksum(ctx, t)))
  }

  /** The raw time advanced by the frozen transmit compensation, as a wrapping 32.32 number. */
  function Compensated(t: Timestamp): Timestamp {
    var delta := (TX_COMPENSATION_NS * TWO_32 + NS_PER_S / 2) / NS_PER_S;
    var sum := t.fraction + delta;
    Timestamp((t.seconds + sum / TWO_32) % TWO_32, sum % TWO_32)
  }

  /** The frame handed to the MAC: stamped when it qualifies and the clock serves time. */
  function Transmitted(f: seq<byte>, clock: Option<Timestamp>): seq<byte> {
    match Prepared(f)
    case None => f
    case Some(ctx) => if clock.None? then f else Stamped(f, ctx, Compensated(clock.value))
  }

  // ---------------------------------------------------------------- the routines

  method FindLayout(buffer: array<byte>) returns (at: Option<Layout>)
    ensures at == Ipv4Layout(buffer[..])
  {
    ghost var f := buffer[..];
    if buffer.Length < 14 { return None; }
    var l3 := 14;
    var etherType := Rd16(buffer[..], 12);
    var tag := 0;
    while tag < 2 && IsTag(etherType)
      invariant tag <= 2 && l3 <= buffer.Length
      invariant SkipTags(f, 14, Rd16(f, 12), 2) == SkipTags(f, l3, etherType, 2 - tag)
    {
      if buffer.Length < l3 + 4 { return None; }
      etherType := Rd16(buffer[..], l3 + 2);
      l3 := l3 + 4;
      tag := tag + 1;
    }
    if etherType != ETHERTYPE_IPV4 || buffer.Length < l3 + 20 { return None; }
    var headerLen := buffer[l3] % 16 * 4;
    if headerLen < 20 || buffer.Length < l3 + headerLen + 8 { return None; }
    return Some(Layout(l3, l3 + headerLen));
  }

  method IsResponseFrame(buffer: array<byte>) returns (response: bool)
    ensures response <==> IsNtpResponse(buffer[..])
  {
    var at := FindLayout(buffer);
    if at.None? { return false; }
    var l3, udp := at.value.l3, at.value.udp;
    if buffer[l3] / 16 != 4 { return false; }
    if buffer[l3 + 9] != UDP { return false; }
    if Rd16(buffer[..], l3 + 6) % 0x2000 != 0 { return false; }
    return Rd16(buffer[..], udp) == NTP_PORT;
  }

  method Prepare(buffer: array<byte>) returns (ctx: Option<StampCtx>)
    ensures ctx == Prepared(buffer[..])
  {
    var response := IsResponseFrame(buffer);
    if !response { return None; }
    var layout := FindLayout(buffer);
    var l3, udp := layout.value.l3, layout.value.udp;
    var f := buffer[..];
    if Rd16(f, l3 + 6) % 0x4000 != 0 { return None; }
    var ipTotalLength := Rd16(f, l3 + 2);
    var udpLength := Rd16(f, udp + 4);
    if udpLength != PLAIN_NTP_UDP_LEN || ipTotalLength != udp - l3 + udpLength || |f| < udp + udpLength { return None; }
    var ntp := udp + 8;
    if f[ntp] % 8 != 4 || f[ntp + 1] == 0 { return None; }
    var checksum := Rd16(f, udp + 6);
    if checksum == 0 { return None; }
    var words: seq<u16> := [];
    for i := 0 to 4
      invariant |words| == i && forall k :: 0 <= k < i ==> words[k] == Rd16(f, ntp + 40 + 2 * k)
    {
      words := words + [Rd16(f, ntp + 40 + 2 * i)];
    }
    assert words == [words[0], words[1], words[2], words[3]];
    return Some(StampCtx(udp, ntp, checksum, words));
  }

  method ChecksumReplaceWord(checksum: u16, oldWord: u16, newWord: u16) returns (r: u16)
    ensures r == ReplacedWord(checksum, oldWord, newWord)
  {
    var sum := (0xFFFF - checksum) + (0xFFFF - oldWord) + newWord;
    while sum / TWO_16 != 0
      invariant 0 <= sum < TWO_32
      invariant Fold(sum) == Fold((0xFFFF - checksum) + (0xFFFF - oldWord) + newWord)
      decreases sum
    {
      sum := sum % TWO_16 + sum / TWO_16;
    }
    return 0xFFFF - sum;
  }

  method UpdateChecksum(ctx: StampCtx, t: Timestamp) returns (checksum: u16)
    requires |ctx.oldXmt| == 4
    ensures checksum == NewChecksum(ctx, t)
  {
    hide ReplacedWord, NewWords;
    var newWords: seq<u16> := NewWords(t);
    checksum := ctx.udpChecksum;
    for i := 0 to 4
      invariant checksum == Updated(ctx, t, i)
    {
      checksum := ChecksumReplaceWord(checksum, ctx.oldXmt[i], newWords[i]);
    }
    if checksum == 0 { checksum := 0xFFFF; }
  }

  method Apply(buffer: array<byte>, ctx: StampCtx, t: Timestamp)
    requires CtxFits(buffer[..], ctx)
    modifies buffer
    ensures buffer[..] == Stamped(old(buffer[..]), ctx, t)
  {
    hide Be16, Be32, Splice, NewChecksum;
    ghost var before := buffer[..];
    var checksum := UpdateChecksum(ctx, t);
    CopyTo(buffer, ctx.ntpOffset + 40, Be32(t.seconds));
    CopyTo(buffer, ctx.ntpOffset + 44, Be32(t.fraction));
    SpliceAdjacent(before, ctx.ntpOffset + 40, Be32(t.seconds), Be32(t.fraction));
    CopyTo(buffer, ctx.udpOffset + 6, Be16(checksum));
    assert buffer[..] == Stamped(before, ctx, t);
  }

  /** The stamping part of the transmit hook. */
  method Transmit(buffer: array<byte>, clock: Option<Timestamp>)
    modifies buffer
    ensures buffer[..] == Transmitted(old(buffer[..]), clock)
  {
    var ctx := Prepare(buffer);
    if ctx.Some? && clock.Some? {
      Apply(buffer, ctx.value, Compensated(clock.value));
    }
  }

  method GetResponseXmt(buffer: array<byte>) returns (t: Option<Timestamp>)
    ensures t == ResponseXmt(buffer[..])
  {
    var response := IsResponseFrame(buffer);
    if !response { return None; }
    var layout := FindLayout(buffer);
    var ntp := layout.value.udp + 8;
    if buffer.Length < ntp + 48 { return None; }
    return Some(Timestamp(Rd32(buffer[..], ntp + 40), Rd32(buffer[..], ntp + 44)));
  }

  // ---------------------------------------------------------------- theorems

  predicate InStamp(i: int, udp: nat) {
    udp + 6 <= i < udp + 8 || udp + 48 <= i < udp + 56
  }

  predicate SameOutsideStamp(f: seq<byte>, g: seq<byte>, udp: nat) {
    |f| == |g| && forall i :: 0 <= i < |f| && !InStamp(i, udp) ==> g[i] == f[i]
  }

  /** Only the eight timestamp bytes and the two checksum bytes differ. */
  lemma OnlyStampBytesChange(f: seq<byte>, ctx: StampCtx, t: Timestamp)
    requires CtxFits(f, ctx)
    ensures SameOutsideStamp(f, Stamped(f, ctx, t), ctx.udpOffset)
    ensures var g := Stamped(f, ctx, t);
      && g[ctx.ntpOffset + 40..ctx.ntpOffset + 44] == Be32(t.seconds)
      && g[ctx.ntpOffset + 44..ctx.ntpOffset + 48] == Be32(t.fraction)
      && g[ctx.udpOffset + 6..ctx.udpOffset + 8] == Be16(NewChecksum(ctx, t))
  {
    hide Be32, Be16, NewChecksum;
    var a := Be32(t.seconds) + Be32(t.fraction);
    assert a[..4] == Be32(t.seconds) && a[4..] == Be32(t.fraction);
  }

  /** Frames that agree below the checksum field parse alike. */
  lemma LayoutStable(f: seq<byte>, g: seq<byte>)
    requires |f| == |g| && Ipv4Layout(f).Some?
    requires forall i :: 0 <= i < Ipv4Layout(f).value.udp + 6 ==> g[i] == f[i]
    ensures Ipv4Layout(g) == Ipv4Layout(f)
    ensures IsNtpResponse(g) == IsNtpResponse(f)
  {
    var tagged := SkipTags(f, 14, Rd16(f, 12), 2);
    SkipTagsAdvances(f, 14, Rd16(f, 12), 2);
    SkipTagsStable(f, g, 14, Rd16(f, 12), 2);
  }

  lemma {:induction false} SkipTagsAdvances(f: seq<byte>, l3: nat, etherType: u16, tags: nat)
    ensures SkipTags(f, l3, etherType, tags).Some? ==> SkipTags(f, l3, etherType, tags).value.0 >= l3
    decreases tags
  {
    if tags > 0 && IsTag(etherType) && l3 + 4 <= |f| { SkipTagsAdvances(f, l3 + 4, Rd16(f, l3 + 2), tags - 1); }
  }

  lemma {:induction false} SkipTagsStable(f: seq<byte>, g: seq<byte>, l3: nat, etherType: u16, tags: nat)
    requires |f| == |g| && SkipTags(f, l3, etherType, tags).Some?
    requires forall i :: 0 <= i < SkipTags(f, l3, etherType, tags).value.0 && i < |f| ==> g[i] == f[i]
    ensures SkipTags(g, l3, etherType, tags) == SkipTags(f, l3, etherType, tags)
    decreases tags
  {
    if tags > 0 && IsTag(etherType) && l3 + 4 <= |f| {
      SkipTagsAdvances(f, l3 + 4, Rd16(f, l3 + 2), tags - 1);
      assert g[l3 + 2] == f[l3 + 2] && g[l3 + 3] == f[l3 + 3];
      SkipTagsStable(f, g, l3 + 4, Rd16(f, l3 + 2), tags - 1);
    }
  }

  lemma {:induction false} WordSumSplit(f: seq<byte>, at: nat, m: nat, n: nat)
    requires at + 2 * (m + n) <= |f|
    ensures WordSum(f, at, m + n) == WordSum(f, at, m) + WordSum(f, at + 2 * m, n)
    decreases n
  {
    if n > 0 { WordSumSplit(f, at, m, n - 1); }
  }

  lemma {:induction false} WordSumSame(f: seq<byte>, g: seq<byte>, at: nat, n: nat)
    requires |f| == |g| && at + 2 * n <= |f|
    requires forall i :: at <= i < at + 2 * n ==> g[i] == f[i]
    ensures WordSum(g, at, n) == WordSum(f, at, n)
    decreases n
  {
    if n > 0 { WordSumSame(f, g, at, n - 1); }
  }

  /** The datagram's word sum with the checksum word and the four timestamp words taken out. */
  lemma DatagramSum(f: seq<byte>, udp: nat)
    requires udp + PLAIN_NTP_UDP_LEN <= |f|
    ensures WordSum(f, udp, 28)
         == WordSum(f, udp, 3) + Rd16(f, udp + 6) as int + WordSum(f, udp + 8, 20)
            + Rd16(f, udp + 48) as int + Rd16(f, udp + 50) as int + Rd16(f, udp + 52) as int + Rd16(f, udp + 54) as int
  {
    WordSumSplit(f, udp, 3, 25);
    WordSumSplit(f, udp + 6, 1, 24);
    WordSumSplit(f, udp + 8, 20, 4);
    assert WordSum(f, udp + 6, 1) == WordSum(f, udp + 6, 0) + Rd16(f, udp + 6);
    assert WordSum(f, udp + 48, 4) == WordSum(f, udp + 48, 2) + Rd16(f, udp + 52) + Rd16(f, udp + 54);
    assert WordSum(f, udp + 48, 1) == WordSum(f, udp + 48, 0) + Rd16(f, udp + 48);
    assert WordSum(f, udp + 48, 2) == WordSum(f, udp + 48, 1) + Rd16(f, udp + 50);
  }

  function SumOf(words: seq<u16>): int {
    if words == [] then 0 else SumOf(words[..|words| - 1]) + words[|words| - 1]
  }

  lemma SumOfFour(words: seq<u16>)
    requires |words| == 4
    ensures SumOf(words) == words[0] as int + words[1] as int + words[2] as int + words[3] as int
  {
    var w3, w2, w1 := words[..3], words[..2], words[..1];
    assert w3[..2] == w2 && w2[..1] == w1 && w1[..0] == [];
    assert SumOf(w1) == words[0] && SumOf(w2) == SumOf(w1) + words[1] && SumOf(w3) == SumOf(w2) + words[2];
  }

  lemma {:induction false} UpdatedBalances(ctx: StampCtx, t: Timestamp, n: nat)
    requires |ctx.oldXmt| == 4 && n <= 4
    ensures Congruent(Updated(ctx, t, n) as int + SumOf(NewWords(t)[..n]), ctx.udpChecksum as int + SumOf(ctx.oldXmt[..n]))
  {
    hide ReplacedWord, NewWords;
    if n > 0 {
      var o, w := ctx.oldXmt, NewWords(t);
      var u := Updated(ctx, t, n - 1);
      UpdatedBalances(ctx, t, n - 1);
      ReplacedWordBalances(u, o[n - 1], w[n - 1]);
      assert o[..n][..n - 1] == o[..n - 1] && w[..n][..n - 1] == w[..n - 1];
      CongruentSum(u as int + SumOf(w[..n - 1]), ctx.udpChecksum as int + SumOf(o[..n - 1]),
                   Updated(ctx, t, n) as int + w[n - 1] as int, u as int + o[n - 1] as int);
    }
  }

  lemma NewChecksumBalances(ctx: StampCtx, t: Timestamp)
    requires |ctx.oldXmt| == 4
    ensures Congruent(NewChecksum(ctx, t) as int + SumOf(NewWords(t)), ctx.udpChecksum as int + SumOf(ctx.oldXmt))
  {
    hide NewWords, SumOf, Updated;
    var c := Updated(ctx, t, 4);
    UpdatedBalances(ctx, t, 4);
    assert NewWords(t)[..4] == NewWords(t) && ctx.oldXmt[..4] == ctx.oldXmt;
    assert Congruent(NewChecksum(ctx, t) as int - c as int, 0);
    CongruentSum(NewChecksum(ctx, t) as int - c as int, 0,
                 c as int + SumOf(NewWords(t)), ctx.udpChecksum as int + SumOf(ctx.oldXmt));
  }

  /** Main theorem: if the receiver would accept the frame's checksum before, it does after stamping;
      the checksum is never zero, and the stamp reads back through the same parser. */
  lemma StampKeepsChecksum(f: seq<byte>, t: Timestamp)
    requires Stampable(f) && ChecksumVerifies(f)
    ensures var ctx := Prepared(f).value;
      CtxFits(f, ctx) && ChecksumVerifies(Stamped(f, ctx, t)) && ResponseXmt(Stamped(f, ctx, t)) == Some(t)
  {
    hide Prepared, Stamped, ResponseXmt, UdpSum, Fold, Ipv4Layout, IsNtpResponse;
    StampStaysQualified(f, t);
    StampStillVerifies(f, t);
    StampReadsBack(f, t);
  }

  lemma StampStaysQualified(f: seq<byte>, t: Timestamp)
    requires Stampable(f)
    ensures Prepared(f).Some? && CtxFits(f, Prepared(f).value)
    ensures var g := Stamped(f, Prepared(f).value, t); Stampable(g) && Ipv4Layout(g) == Ipv4Layout(f)
    ensures Prepared(f).value.udpOffset == Ipv4Layout(f).value.udp
  {
    var ctx := Prepared(f).value;
    hide Stamped, Ipv4Layout, Rd16, NewChecksum;
    OnlyStampBytesChange(f, ctx, t);
    StampedStampable(f, Stamped(f, ctx, t), ctx, t);
    LayoutStable(f, Stamped(f, ctx, t));
  }

  lemma StampStillVerifies(f: seq<byte>, t: Timestamp)
    requires Stampable(f) && ChecksumVerifies(f)
    requires Prepared(f).Some? && CtxFits(f, Prepared(f).value)
    ensures Fold(UdpSum(Stamped(f, Prepared(f).value, t), Ipv4Layout(f).value)) == 0xFFFF
  {
    var ctx, at := Prepared(f).value, Ipv4Layout(f).value;
    assert ctx.oldXmt == XmtWords(f, at.udp) && ctx.udpOffset == at.udp && ctx.udpChecksum == Rd16(f, at.udp + 6);
    OnlyStampBytesChange(f, ctx, t);
    hide Stamped, Ipv4Layout, IsNtpResponse, UdpSum, Fold, XmtWords;
    StampedReceived(f, Stamped(f, ctx, t), at, ctx, t);
  }

  lemma StampReadsBack(f: seq<byte>, t: Timestamp)
    requires Stampable(f) && Prepared(f).Some? && CtxFits(f, Prepared(f).value)
    requires var g := Stamped(f, Prepared(f).value, t); Stampable(g) && Ipv4Layout(g) == Ipv4Layout(f)
    requires Prepared(f).value.udpOffset == Ipv4Layout(f).value.udp
    ensures ResponseXmt(Stamped(f, Prepared(f).value, t)) == Some(t)
  {
    hide Prepared, Stamped, Ipv4Layout, IsNtpResponse, Be32, Rd32;
    var ctx := Prepared(f).value;
    var g := Stamped(f, ctx, t);
    OnlyStampBytesChange(f, ctx, t);
    Rd32Be32(g, ctx.ntpOffset + 40, t.seconds);
    Rd32Be32(g, ctx.ntpOffset + 44, t.fraction);
  }

  lemma StampedReceived(f: seq<byte>, g: seq<byte>, at: Layout, ctx: StampCtx, t: Timestamp)
    requires at.l3 + 20 <= at.udp && at.udp + PLAIN_NTP_UDP_LEN <= |f| && SameOutsideStamp(f, g, at.udp)
    requires ctx.udpChecksum == Rd16(f, at.udp + 6) && ctx.oldXmt == XmtWords(f, at.udp)
    requires g[at.udp + 48..at.udp + 52] == Be32(t.seconds) && g[at.udp + 52..at.udp + 56] == Be32(t.fraction)
    requires g[at.udp + 6..at.udp + 8] == Be16(NewChecksum(ctx, t))
    requires Fold(UdpSum(f, at)) == 0xFFFF
    ensures Fold(UdpSum(g, at)) == 0xFFFF
  {
    hide Be16, Be32, NewChecksum, NewWords, XmtWords, Rd16;
    StampedWords(g, at.udp, ctx, t);
    StampedSum(f, g, at, ctx, t);
    PositiveSum(f, at);
    PositiveSum(g, at);
    FoldsToOnesIff(UdpSum(f, at));
    FoldsToOnesIff(UdpSum(g, at));
    CongruentSum(UdpSum(g, at), UdpSum(f, at), UdpSum(f, at), 0);
  }

  lemma PositiveSum(f: seq<byte>, at: Layout)
    requires at.l3 + 20 <= at.udp && at.udp + PLAIN_NTP_UDP_LEN <= |f|
    ensures UdpSum(f, at) > 0
  {
    hide WordSum;
  }

  lemma UnstampedWord(f: seq<byte>, g: seq<byte>, udp: nat, k: nat)
    requires SameOutsideStamp(f, g, udp) && k + 2 <= |f| && !InStamp(k, udp) && !InStamp(k + 1, udp)
    ensures Rd16(g, k) == Rd16(f, k)
  {}

  lemma StampedStampable(f: seq<byte>, g: seq<byte>, ctx: StampCtx, t: Timestamp)
    requires Stampable(f) && Prepared(f) == Some(ctx) && g == Stamped(f, ctx, t)
    ensures Stampable(g)
  {
    hide NewChecksum, Stamped, Ipv4Layout, Be16, Be32, Rd16;
    assert Ipv4Layout(f).Some?;
    OnlyStampBytesChange(f, ctx, t);
    LayoutStable(f, g);
    hide IsNtpResponse;
    Rd16Be16(g, ctx.udpOffset + 6, NewChecksum(ctx, t));
    var at := Ipv4Layout(f).value;
    assert at.udp == ctx.udpOffset;
    UnstampedWord(f, g, at.udp, at.l3 + 6);
    UnstampedWord(f, g, at.udp, at.l3 + 2);
    UnstampedWord(f, g, at.udp, at.udp + 4);
    assert g[at.udp + 8] == f[at.udp + 8] && g[at.udp + 9] == f[at.udp + 9];
  }

  /** The part of the receiver's sum that stamping does not touch. */
  function FixedSum(f: seq<byte>, at: Layout): nat
    requires at.l3 + 20 <= at.udp && at.udp + PLAIN_NTP_UDP_LEN <= |f|
  {
    WordSum(f, at.l3 + 12, 4) + UDP as int + Rd16(f, at.udp + 4) as int + WordSum(f, at.udp, 3) + WordSum(f, at.udp + 8, 20)
  }

  function XmtWords(f: seq<byte>, udp: nat): (w: seq<u16>)
    requires udp + PLAIN_NTP_UDP_LEN <= |f|
    ensures |w| == 4
  {
    [Rd16(f, udp + 48), Rd16(f, udp + 50), Rd16(f, udp + 52), Rd16(f, udp + 54)]
  }

  lemma UdpSumParts(f: seq<byte>, at: Layout)
    requires at.l3 + 20 <= at.udp && at.udp + PLAIN_NTP_UDP_LEN <= |f|
    ensures UdpSum(f, at) == FixedSum(f, at) + (Rd16(f, at.udp + 6) as int + SumOf(XmtWords(f, at.udp)))
  {
    DatagramSum(f, at.udp);
    SumOfFour(XmtWords(f, at.udp));
    hide WordSum, Rd16, SumOf;
  }

  lemma FixedSumSame(f: seq<byte>, g: seq<byte>, at: Layout)
    requires at.l3 + 20 <= at.udp && at.udp + PLAIN_NTP_UDP_LEN <= |f| && SameOutsideStamp(f, g, at.udp)
    ensures FixedSum(g, at) == FixedSum(f, at)
  {
    WordSumSame(f, g, at.l3 + 12, 4);
    WordSumSame(f, g, at.udp, 3);
    WordSumSame(f, g, at.udp + 8, 20);
    hide WordSum;
  }

  lemma StampedSum(f: seq<byte>, g: seq<byte>, at: Layout, ctx: StampCtx, t: Timestamp)
    requires at.l3 + 20 <= at.udp && at.udp + PLAIN_NTP_UDP_LEN <= |f| && SameOutsideStamp(f, g, at.udp)
    requires ctx.udpChecksum == Rd16(f, at.udp + 6) && ctx.oldXmt == XmtWords(f, at.udp)
    requires Rd16(g, at.udp + 6) == NewChecksum(ctx, t) && XmtWords(g, at.udp) == NewWords(t)
    ensures Congruent(UdpSum(g, at), UdpSum(f, at))
  {
    FixedSumSame(f, g, at);
    UdpSumParts(f, at);
    UdpSumParts(g, at);
    hide FixedSum, UdpSum, XmtWords, Rd16, NewChecksum, NewWords, SumOf;
    NewChecksumBalances(ctx, t);
    var before := ctx.udpChecksum as int + SumOf(ctx.oldXmt);
    var after := NewChecksum(ctx, t) as int + SumOf(NewWords(t));
    CongruentSum(FixedSum(f, at), FixedSum(f, at), after, before);
  }

  lemma StampedWords(g: seq<byte>, udp: nat, ctx: StampCtx, t: Timestamp)
    requires |ctx.oldXmt| == 4 && udp + PLAIN_NTP_UDP_LEN <= |g|
    requires g[udp + 48..udp + 52] == Be32(t.seconds) && g[udp + 52..udp + 56] == Be32(t.fraction)
    requires g[udp + 6..udp + 8] == Be16(NewChecksum(ctx, t))
    ensures Rd16(g, udp + 6) == NewChecksum(ctx, t)
    ensures XmtWords(g, udp) == NewWords(t)
  {
    hide NewChecksum, Be16, Rd16;
    Rd16Be16(g, udp + 6, NewChecksum(ctx, t));
    var s, r := g[udp + 48..udp + 52], g[udp + 52..udp + 56];
    assert g[udp + 48..udp + 50] == s[..2] == Be16(t.seconds / TWO_16);
    assert g[udp + 50..udp + 52] == s[2..] == Be16(t.seconds % TWO_16);
    assert g[udp + 52..udp + 54] == r[..2] == Be16(t.fraction / TWO_16);
    assert g[udp + 54..udp + 56] == r[2..] == Be16(t.fraction % TWO_16);
    Rd16Be16(g, udp + 48, t.seconds / TWO_16);
    Rd16Be16(g, udp + 50, t.seconds % TWO_16);
    Rd16Be16(g, udp + 52, t.fraction / TWO_16);
    Rd16Be16(g, udp + 54, t.fraction % TWO_16);
  }

  /** Anything but a plain 48-byte NTP response - an NTS-protected one in particular, whose UDP length
      exceeds 56 - leaves byte-identical. */
  lemma OtherLengthsUntouched(f: seq<byte>, clock: Option<Timestamp>)
    requires Ipv4Layout(f).Some? ==> Rd16(f, Ipv4Layout(f).value.udp + 4) != PLAIN_NTP_UDP_LEN
    ensures Transmitted(f, clock) == f
  {}

  /** What a receiver sees of any frame whose checksum verified before the hook. */
  lemma TransmitKeepsChecksum(f: seq<byte>, clock: Option<Timestamp>)
    requires ChecksumVerifies(f)
    ensures ChecksumVerifies(Transmitted(f, clock))
    ensures clock.Some? && Stampable(f) ==> ResponseXmt(Transmitted(f, clock)) == Some(Compensated(clock.value))
  {
    if clock.Some? && Stampable(f) { StampKeepsChecksum(f, Compensated(clock.value)); }
  }

  /** The compensation adds a constant to the 32.32 time, carrying into the seconds and wrapping. */
  lemma CompensationAdds(t: Timestamp)
    ensures var u := Compensated(t);
      u.seconds * TWO_32 + u.fraction
        == (t.seconds * TWO_32 + t.fraction + (TX_COMPENSATION_NS * TWO_32 + NS_PER_S / 2) / NS_PER_S) % TWO_64
  {
    var delta := (TX_COMPENSATION_NS * TWO_32 + NS_PER_S / 2) / NS_PER_S;
    var sum := t.fraction + delta;
    var whole := t.seconds + sum / TWO_32;
    assert t.seconds * TWO_32 + sum == whole * TWO_32 + sum % TWO_32;
    assert whole == whole / TWO_32 * TWO_32 + whole % TWO_32;
  }
}
