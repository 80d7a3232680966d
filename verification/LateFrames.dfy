/** Late stamping in terms of frames built from their parts: which frames are stamped, and with what
    (main/eth_service.c). */
module LateFrames {
  import opened Bytes
  import opened Esp
  import opened Timestamps
  import opened LateStamp

  datatype Tag = Tag(double: bool, tci: seq<byte>)

  /** Two MAC addresses, VLAN tags, the IPv4 header with its options, and all that follows it. */
  datatype Frame = Frame(macs: seq<byte>, tags: seq<Tag>, ip: seq<byte>, payload: seq<byte>)

  function TagBytes(t: Tag): seq<byte> {
    (if t.double then [0x88, 0xA8] else [0x81, 0x00]) + t.tci
  }

  /** Sixteen bits, most significant byte first. */
  function Word(s: seq<byte>, i: nat): nat
    requires i + 2 <= |s|
  {
    256 * s[i] as int + s[i + 1] as int
  }

  /** An IPv4 packet of a complete header behind at most two tags. */
  predicate WellFormed(x: Frame) {
    && |x.macs| == 12
    && |x.tags| <= 2 && (forall i :: 0 <= i < |x.tags| ==> |x.tags[i].tci| == 2)
    && 20 <= |x.ip| <= 60 && |x.ip| % 4 == 0 && x.ip[0] == 64 + |x.ip| / 4
  }

  function LinkBytes(x: Frame): seq<byte>
    requires |x.tags| <= 2
  {
    x.macs
      + (if |x.tags| > 0 then TagBytes(x.tags[0]) else [])
      + (if |x.tags| > 1 then TagBytes(x.tags[1]) else [])
      + [0x08, 0x00]
  }

  function FrameBytes(x: Frame): seq<byte>
    requires |x.tags| <= 2
  {
    LinkBytes(x) + x.ip + x.payload
  }

  /** A first or only fragment that carries UDP from port 123. */
  predicate FromNtpPort(x: Frame)
    requires WellFormed(x)
  {
    x.ip[9] == 17 && Word(x.ip, 6) % 0x2000 == 0 && |x.payload| >= 8 && Word(x.payload, 0) == 123
  }

  /** A server's plain NTP response: unfragmented, a UDP length of 56 that the IP length agrees with and the
      frame holds, a checksum, mode 4 and a stratum. */
  predicate IsPlainResponse(x: Frame)
    requires WellFormed(x)
  {
    && FromNtpPort(x) && Word(x.ip, 6) % 0x4000 == 0
    && |x.payload| >= 56 && Word(x.payload, 4) == 56 && Word(x.ip, 2) == |x.ip| + 56
    && Word(x.payload, 6) != 0
    && x.payload[8] % 8 == 4 && x.payload[9] != 0
  }

  lemma LinkParts(x: Frame)
    requires WellFormed(x)
    ensures |LinkBytes(x)| == 14 + 4 * |x.tags|
    ensures var l := LinkBytes(x);
      && l[..12] == x.macs
      && Word(l, 12 + 4 * |x.tags|) == 0x0800
      && (|x.tags| > 0 ==> Word(l, 12) == (if x.tags[0].double then 0x88A8 else 0x8100))
      && (|x.tags| > 1 ==> Word(l, 16) == (if x.tags[1].double then 0x88A8 else 0x8100))
  {}

  lemma ReadWord(s: seq<byte>, i: nat)
    requires i + 2 <= |s|
    ensures Rd16(s, i) == Word(s, i)
  {}

  /** Reading at an offset inside the second of two strings. */
  lemma ReadInside(a: seq<byte>, b: seq<byte>, c: seq<byte>, i: nat)
    requires i + 2 <= |b|
    ensures Rd16(a + b + c, |a| + i) == Word(b, i)
  {}

  lemma LayoutIs(x: Frame)
    requires WellFormed(x) && |x.payload| >= 8
    ensures Ipv4Layout(FrameBytes(x)) == Some(Layout(14 + 4 * |x.tags|, 14 + 4 * |x.tags| + |x.ip|))
  {
    var f, l := FrameBytes(x), LinkBytes(x);
    LinkParts(x);
    assert forall i :: 0 <= i < |l| ==> f[i] == l[i];
    var l3 := 14 + 4 * |x.tags|;
    assert f[l3] == x.ip[0];
    assert f[l3] % 16 * 4 == |x.ip|;
    hide LinkBytes, FrameBytes;
    TagsSkipped(x, f, l);
  }

  lemma TagsSkipped(x: Frame, f: seq<byte>, l: seq<byte>)
    requires |x.tags| <= 2 && |l| == 14 + 4 * |x.tags| <= |f| && forall i :: 0 <= i < |l| ==> f[i] == l[i]
    requires Word(l, 12 + 4 * |x.tags|) == 0x0800
    requires |x.tags| > 0 ==> Word(l, 12) == (if x.tags[0].double then 0x88A8 else 0x8100)
    requires |x.tags| > 1 ==> Word(l, 16) == (if x.tags[1].double then 0x88A8 else 0x8100)
    ensures SkipTags(f, 14, Rd16(f, 12), 2) == Some((14 + 4 * |x.tags|, 0x0800))
  {
    if |x.tags| == 2 {
      assert SkipTags(f, 22, 0x0800, 0) == Some((22, 0x0800));
      assert Rd16(f, 20) == 0x0800 && Rd16(f, 16) == Word(l, 16) && Rd16(f, 12) == Word(l, 12);
      assert SkipTags(f, 18, Rd16(f, 16), 1) == Some((22, 0x0800));
    } else if |x.tags| == 1 {
      assert Rd16(f, 16) == 0x0800 && Rd16(f, 12) == Word(l, 12);
      assert SkipTags(f, 18, 0x0800, 1) == Some((18, 0x0800));
    } else {
      assert Rd16(f, 12) == 0x0800;
    }
  }

  /** The words and bytes of the two headers, read from the frame. */
  lemma HeaderReads(x: Frame)
    requires WellFormed(x)
    ensures var f, l3 := FrameBytes(x), 14 + 4 * |x.tags|;
      && |f| == l3 + |x.ip| + |x.payload|
      && f[l3] == x.ip[0] && f[l3 + 9] == x.ip[9] && Rd16(f, l3 + 2) == Word(x.ip, 2) && Rd16(f, l3 + 6) == Word(x.ip, 6)
      && (|x.payload| >= 8 ==> var udp := l3 + |x.ip|;
            Rd16(f, udp) == Word(x.payload, 0) && Rd16(f, udp + 4) == Word(x.payload, 4) && Rd16(f, udp + 6) == Word(x.payload, 6))
      && (|x.payload| >= 10 ==> var udp := l3 + |x.ip|;
            f[udp + 8] == x.payload[8] && f[udp + 9] == x.payload[9])
  {
    FrameParts(x);
    hide FrameBytes;
  }

  lemma TooShort(x: Frame)
    requires WellFormed(x) && |x.payload| < 8
    ensures Ipv4Layout(FrameBytes(x)) == None
  {
    var f, l := FrameBytes(x), LinkBytes(x);
    LinkParts(x);
    assert forall i :: 0 <= i < |l| ==> f[i] == l[i];
    var l3 := 14 + 4 * |x.tags|;
    assert f[l3] == x.ip[0];
    assert f[l3] % 16 * 4 == |x.ip|;
    hide LinkBytes, FrameBytes;
    TagsSkipped(x, f, l);
  }

  /** Where the parts of a frame are. */
  lemma FrameParts(x: Frame)
    requires WellFormed(x)
    ensures var f, l3 := FrameBytes(x), 14 + 4 * |x.tags|;
      && |f| == l3 + |x.ip| + |x.payload|
      && (forall i :: 0 <= i < |x.ip| ==> f[l3 + i] == x.ip[i])
      && (forall i :: 0 <= i < |x.payload| ==> f[l3 + |x.ip| + i] == x.payload[i])
  {
    LinkParts(x);
    hide LinkBytes;
  }

  lemma ResponseIff(x: Frame)
    requires WellFormed(x)
    ensures IsNtpResponse(FrameBytes(x)) <==> FromNtpPort(x)
  {
    hide FrameBytes, Ipv4Layout, Rd16, Word;
    HeaderReads(x);
    if |x.payload| >= 8 { LayoutIs(x); } else { TooShort(x); }
  }

  lemma StampableIff(x: Frame)
    requires WellFormed(x)
    ensures Stampable(FrameBytes(x)) <==> IsPlainResponse(x)
  {
    hide FrameBytes, Ipv4Layout, IsNtpResponse, Rd16, Word;
    HeaderReads(x);
    ResponseIff(x);
    if |x.payload| >= 8 { LayoutIs(x); }
  }

  function Stamp(p: seq<byte>): Timestamp
    requires |p| >= 56
  {
    Timestamp(Word(p, 48) * 65536 + Word(p, 50), Word(p, 52) * 65536 + Word(p, 54))
  }

  lemma ReadStamp(f: seq<byte>, at: nat, p: seq<byte>)
    requires |p| >= 56 && at + |p| <= |f| && forall i :: 0 <= i < |p| ==> f[at + i] == p[i]
    ensures Timestamp(Rd32(f, at + 48), Rd32(f, at + 52)) == Stamp(p)
  {
    assert Rd16(f, at + 48) == Word(p, 48) && Rd16(f, at + 50) == Word(p, 50);
    assert Rd16(f, at + 52) == Word(p, 52) && Rd16(f, at + 54) == Word(p, 54);
  }

  /** The transmit timestamp of any response that holds one, as the hook reads it back. */
  lemma ResponseXmtIs(x: Frame)
    requires WellFormed(x)
    ensures ResponseXmt(FrameBytes(x)) == if FromNtpPort(x) && |x.payload| >= 56 then Some(Stamp(x.payload)) else None
  {
    hide FrameBytes, Ipv4Layout, IsNtpResponse, Stamp, Rd32, Word, Rd16;
    FrameParts(x);
    ResponseIff(x);
    assert FromNtpPort(x) ==> |x.payload| >= 8;
    if |x.payload| >= 8 { LayoutIs(x); }
    hide FromNtpPort, WellFormed;
    if |x.payload| >= 56 { ReadStamp(FrameBytes(x), 14 + 4 * |x.tags| + |x.ip|, x.payload); }
  }

  // ---------------------------------------------------------------- what a stamped response becomes

  function Word16(v: u16): seq<byte> {
    [v / 256, v % 256]
  }

  function Word32(v: u32): seq<byte> {
    Word16(v / 65536) + Word16(v % 65536)
  }

  /** The same frame with another checksum and transmit timestamp. */
  function Restamped(x: Frame, t: Timestamp, checksum: u16): Frame
    requires |x.payload| >= 56
  {
    x.(payload := x.payload[..6] + Word16(checksum) + x.payload[8..48] + Word32(t.seconds) + Word32(t.fraction) + x.payload[56..])
  }

  /** What a receiver sums: the addresses, the protocol, the UDP length, and the datagram with its checksum. */
  function ReceiverSum(x: Frame): nat
    requires |x.ip| >= 20 && |x.payload| >= 56
  {
    WordSum(x.ip, 12, 4) + 17 + 56 + WordSum(x.payload, 0, 28)
  }

  lemma {:induction false} WordSumShifted(f: seq<byte>, at: nat, p: seq<byte>, k: nat, n: nat)
    requires at + |p| <= |f| && k + 2 * n <= |p| && forall i :: 0 <= i < |p| ==> f[at + i] == p[i]
    ensures WordSum(f, at + k, n) == WordSum(p, k, n)
    decreases n
  {
    if n > 0 { WordSumShifted(f, at, p, k, n - 1); }
  }

  lemma ReceiverSumIs(x: Frame)
    requires WellFormed(x) && IsPlainResponse(x)
    ensures var l3 := 14 + 4 * |x.tags|;
      l3 + |x.ip| + 56 <= |FrameBytes(x)| && UdpSum(FrameBytes(x), Layout(l3, l3 + |x.ip|)) == ReceiverSum(x)
  {
    hide FrameBytes, WordSum, UdpSum;
    FrameParts(x);
    hide WellFormed;
    SumParts(FrameBytes(x), 14 + 4 * |x.tags|, x.ip, x.payload);
  }

  lemma SumParts(f: seq<byte>, l3: nat, ip: seq<byte>, p: seq<byte>)
    requires |ip| >= 20 && |p| >= 56 && |f| == l3 + |ip| + |p| && Word(p, 4) == 56
    requires forall i :: 0 <= i < |ip| ==> f[l3 + i] == ip[i]
    requires forall i :: 0 <= i < |p| ==> f[l3 + |ip| + i] == p[i]
    ensures UdpSum(f, Layout(l3, l3 + |ip|)) == WordSum(ip, 12, 4) + 17 + 56 + WordSum(p, 0, 28)
  {
    hide WordSum;
    WordSumShifted(f, l3, ip, 12, 4);
    WordSumShifted(f, l3 + |ip|, p, 0, 28);
    assert Rd16(f, l3 + |ip| + 4) == Word(p, 4);
  }

  lemma Be32IsWord32(v: u32)
    ensures Be32(v) == Word32(v)
  {}

  /** Writing checksum and timestamp into the frame's bytes is restamping the frame. */
  lemma RestampedBytes(x: Frame, t: Timestamp, checksum: u16)
    requires WellFormed(x) && |x.payload| >= 56
    ensures var f, udp := FrameBytes(x), 14 + 4 * |x.tags| + |x.ip|;
      udp + 56 <= |f|
      && Splice(Splice(f, udp + 48, Be32(t.seconds) + Be32(t.fraction)), udp + 6, Be16(checksum)) == FrameBytes(Restamped(x, t, checksum))
  {
    assert |x.tags| <= 2;
    hide FrameBytes, LinkBytes, Be32, Word32, WellFormed, Splice;
    var head, p := LinkBytes(x) + x.ip, x.payload;
    FrameSplit(x);
    SameHead(x, Restamped(x, t, checksum));
    Be32IsWord32(t.seconds);
    Be32IsWord32(t.fraction);
    SplicedPayload(head, p, Word32(t.seconds) + Word32(t.fraction), Word16(checksum));
    Regrouped(p[..6] + Word16(checksum) + p[8..48], Word32(t.seconds), Word32(t.fraction), p[56..]);
  }

  lemma FrameSplit(x: Frame)
    requires WellFormed(x)
    ensures var head := LinkBytes(x) + x.ip;
      |head| == 14 + 4 * |x.tags| + |x.ip| && FrameBytes(x) == head + x.payload
  {
    LinkParts(x);
  }

  lemma SameHead(x: Frame, y: Frame)
    requires WellFormed(x) && y == x.(payload := y.payload)
    ensures FrameBytes(y) == LinkBytes(x) + x.ip + y.payload
  {}

  lemma Regrouped(a: seq<byte>, b: seq<byte>, c: seq<byte>, d: seq<byte>)
    ensures a + b + c + d == a + (b + c) + d
  {}

  lemma SplicedPayload(head: seq<byte>, p: seq<byte>, stamp: seq<byte>, checksum: seq<byte>)
    requires |p| >= 56 && |stamp| == 8 && |checksum| == 2
    ensures Splice(Splice(head + p, |head| + 48, stamp), |head| + 6, checksum)
         == head + (p[..6] + checksum + p[8..48] + stamp + p[56..])
  {}

  lemma PreparedIs(x: Frame)
    requires WellFormed(x) && IsPlainResponse(x)
    ensures var f, udp := FrameBytes(x), 14 + 4 * |x.tags| + |x.ip|;
      && Stampable(f) && Ipv4Layout(f) == Some(Layout(udp - |x.ip|, udp)) && udp + 56 <= |f|
      && Prepared(f) == Some(StampCtx(udp, udp + 8, Rd16(f, udp + 6), XmtWords(f, udp)))
      && CtxFits(f, Prepared(f).value)
  {
    hide FrameBytes, Ipv4Layout, Stampable, Rd16, Word;
    HeaderReads(x);
    StampableIff(x);
    LayoutIs(x);
    hide WellFormed;
  }

  /** Every plain response is stamped: once the clock serves time it leaves with the compensated time and a
      new, nonzero checksum in their places and every other byte as it was. The receiver's sum is what it was
      modulo 2^16 - 1 - so a checksum that verified still does - and the stamp reads back. */
  lemma ResponseIsStamped(x: Frame, t: Timestamp) returns (checksum: u16)
    requires WellFormed(x) && IsPlainResponse(x)
    ensures var y := Restamped(x, Compensated(t), checksum);
      && checksum != 0 && WellFormed(y) && IsPlainResponse(y)
      && Transmitted(FrameBytes(x), Some(t)) == FrameBytes(y)
      && ReceiverSum(y) % 0xFFFF == ReceiverSum(x) % 0xFFFF
      && ResponseXmt(FrameBytes(y)) == Some(Compensated(t))
  {
    var u := Compensated(t);
    hide Compensated, Transmitted, FrameBytes, WellFormed, IsPlainResponse, ReceiverSum, Restamped;
    PlainIsResponse(x);
    checksum := StampedBytes(x, t);
    var y := Restamped(x, u, checksum);
    RestampedIsPlain(x, u, checksum);
    ResponseXmtIs(y);
    PlainIsResponse(y);
  }

  lemma PlainIsResponse(x: Frame)
    requires WellFormed(x) && IsPlainResponse(x)
    ensures FromNtpPort(x) && |x.payload| >= 56 && |x.tags| <= 2 && |x.ip| >= 20
  {}

  lemma StampedBytes(x: Frame, t: Timestamp) returns (checksum: u16)
    requires WellFormed(x) && IsPlainResponse(x)
    ensures var y := Restamped(x, Compensated(t), checksum);
      && checksum != 0 && WellFormed(y) && IsPlainResponse(y) && Transmitted(FrameBytes(x), Some(t)) == FrameBytes(y)
      && ReceiverSum(y) % 0xFFFF == ReceiverSum(x) % 0xFFFF
  {
    hide Compensated, FrameBytes, Ipv4Layout, Stampable, NewChecksum, ReceiverSum, Restamped, WellFormed, IsPlainResponse, Prepared,
         Stamped, XmtWords;
    PlainIsResponse(x);
    var u, f, udp := Compensated(t), FrameBytes(x), 14 + 4 * |x.tags| + |x.ip|;
    PreparedIs(x);
    var ctx := Prepared(f).value;
    checksum := NewChecksum(ctx, u);
    RestampedBytes(x, u, checksum);
    RestampedIsPlain(x, u, checksum);
    StampedIsSplice(f, ctx, u);
    SumIsKept(x, Restamped(x, u, checksum), ctx, u);
  }

  lemma StampedIsSplice(f: seq<byte>, ctx: StampCtx, u: Timestamp)
    requires CtxFits(f, ctx)
    ensures Stamped(f, ctx, u)
         == Splice(Splice(f, ctx.ntpOffset + 40, Be32(u.seconds) + Be32(u.fraction)), ctx.udpOffset + 6, Be16(NewChecksum(ctx, u)))
  {}

  lemma SumIsKept(x: Frame, y: Frame, ctx: StampCtx, u: Timestamp)
    requires WellFormed(x) && IsPlainResponse(x) && WellFormed(y) && IsPlainResponse(y)
    requires |x.tags| == |y.tags| && |x.ip| == |y.ip|
    requires var f, udp := FrameBytes(x), 14 + 4 * |x.tags| + |x.ip|;
      && udp + 56 <= |f| && ctx == StampCtx(udp, udp + 8, Rd16(f, udp + 6), XmtWords(f, udp)) && CtxFits(f, ctx)
      && FrameBytes(y) == Stamped(f, ctx, u)
    ensures ReceiverSum(y) % 0xFFFF == ReceiverSum(x) % 0xFFFF
  {
    hide FrameBytes, NewChecksum, ReceiverSum, WellFormed, IsPlainResponse, Stamped, XmtWords, UdpSum, NewWords, Be16, Be32, Rd16;
    PlainIsResponse(x);
    PlainIsResponse(y);
    var f, g, udp := FrameBytes(x), FrameBytes(y), 14 + 4 * |x.tags| + |x.ip|;
    var at := Layout(udp - |x.ip|, udp);
    ReceiverSumIs(x);
    ReceiverSumIs(y);
    OnlyStampBytesChange(f, ctx, u);
    StampedWords(g, udp, ctx, u);
    StampedSum(f, g, at, ctx, u);
    SameRemainder(ReceiverSum(y), ReceiverSum(x));
  }

  lemma SameRemainder(a: nat, b: nat)
    requires Congruent(a, b)
    ensures a % 0xFFFF == b % 0xFFFF
  {
    var q := (a - b) / 0xFFFF;
    assert a == b + q * 0xFFFF;
  }

  lemma RestampedIsPlain(x: Frame, t: Timestamp, checksum: u16)
    requires WellFormed(x) && IsPlainResponse(x) && checksum != 0
    ensures var y := Restamped(x, t, checksum);
      WellFormed(y) && IsPlainResponse(y) && y.tags == x.tags && y.ip == x.ip && |y.payload| == |x.payload| && Stamp(y.payload) == t
  {
    var y := Restamped(x, t, checksum).payload;
    hide Word32;
    assert y[48..52] == Word32(t.seconds) && y[52..56] == Word32(t.fraction);
    WordsOf(y, 48, t.seconds);
    WordsOf(y, 52, t.fraction);
    assert forall i :: 0 <= i < 6 || 8 <= i < 48 ==> y[i] == x.payload[i];
  }

  lemma WordsOf(s: seq<byte>, i: nat, v: u32)
    requires i + 4 <= |s| && s[i..i + 4] == Word32(v)
    ensures Word(s, i) * 65536 + Word(s, i + 2) == v
  {
    var w := s[i..i + 4];
    assert w[..2] == Word16(v / 65536) && w[2..] == Word16(v % 65536);
    assert s[i] == w[0] && s[i + 1] == w[1] && s[i + 2] == w[2] && s[i + 3] == w[3];
  }

  /** And nothing else is: a frame that is not a plain response, whatever its bytes, or one that meets a
      clock that serves no time, leaves byte-identical. */
  lemma OthersLeaveIdentical(f: seq<byte>, clock: Option<Timestamp>) returns (x: Frame)
    ensures clock.None? ==> Transmitted(f, clock) == f
    ensures Transmitted(f, clock) != f ==> WellFormed(x) && IsPlainResponse(x) && f == FrameBytes(x)
  {
    x := Frame([], [], [], []);
    if Stampable(f) {
      x := FrameOf(f);
      StampableIff(x);
    }
  }

  lemma FrameOf(f: seq<byte>) returns (x: Frame)
    requires IsNtpResponse(f)
    ensures WellFormed(x) && f == FrameBytes(x)
  {
    var at := Ipv4Layout(f).value;
    var l3, udp := at.l3, at.udp;
    var tags := TagsOf(f, l3);
    x := Frame(f[..12], tags, f[l3..udp], f[udp..]);
    assert f[l3] == 64 + |x.ip| / 4;
    assert f == f[..l3] + f[l3..udp] + f[udp..];
    hide Ipv4Layout;
  }

  lemma TagsOf(f: seq<byte>, l3: nat) returns (tags: seq<Tag>)
    requires |f| >= 14 && SkipTags(f, 14, Rd16(f, 12), 2) == Some((l3, ETHERTYPE_IPV4)) && l3 <= |f|
    ensures |tags| <= 2 && l3 == 14 + 4 * |tags| && forall i :: 0 <= i < |tags| ==> |tags[i].tci| == 2
    ensures f[..l3] == LinkBytes(Frame(f[..12], tags, [], []))
  {
    tags := [];
    if IsTag(Rd16(f, 12)) {
      tags := [Tag(Rd16(f, 12) == 0x88A8, f[14..16])];
      if IsTag(Rd16(f, 16)) {
        tags := tags + [Tag(Rd16(f, 16) == 0x88A8, f[18..20])];
        assert SkipTags(f, 18, Rd16(f, 16), 1) == SkipTags(f, 22, Rd16(f, 20), 0);
      }
    }
  }
}
