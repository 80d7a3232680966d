/** The GNSS receiver's byte stream: UBX frames and NMEA lines told apart byte by byte, and the frame
    writer (main/gnss_service.c). */
module UbxStream {
  import opened Bytes

  const SYNC_1: byte := 0xB5
  const SYNC_2: byte := 0x62
  const DOLLAR: byte := 0x24
  const CR: byte := 0x0D
  const LF: byte := 0x0A
  const MAX_PAYLOAD: nat := 512
  const LINE_SIZE: nat := 160

  datatype Phase =
    | WaitSync1 | WaitSync2 | WaitClass | WaitId | WaitLength1 | WaitLength2 | WaitPayload | WaitCkA | WaitCkB

  datatype Message = Message(cls: byte, id: byte, payload: seq<byte>)

  /** Everything the demultiplexer does besides changing its state. */
  datatype Event =
    | Dispatched(message: Message)
    | Line(text: seq<byte>)
    | InvalidLength
    | InvalidChecksum
    | LineTooLong

  /** `payload` holds the bytes below the payload index. */
  datatype Parser = Parser(phase: Phase, cls: byte, id: byte, length: u16, payload: seq<byte>,
                           ckA: byte, ckB: byte, receivedA: byte)

  const RESET := Parser(WaitSync1, 0, 0, 0, [], 0, 0, 0)

  datatype Demux = Demux(parser: Parser, line: seq<byte>)

  const IDLE := Demux(RESET, [])

  // ---------------------------------------------------------------- checksum and wire form

  datatype Ck = Ck(a: byte, b: byte)

  function CkAdd(c: Ck, x: byte): Ck {
    var a := (c.a + x) % 256;
    Ck(a, (c.b + a) % 256)
  }

  function CkOf(s: seq<byte>): Ck {
    if s == [] then Ck(0, 0) else CkAdd(CkOf(s[..|s| - 1]), s[|s| - 1])
  }

  lemma CkEmpty()
    ensures CkOf([]) == Ck(0, 0)
  {}

  lemma CkAppend(s: seq<byte>, x: byte)
    ensures CkOf(s + [x]) == CkAdd(CkOf(s), x)
  {
    assert (s + [x])[..|s|] == s;
  }

  function ByteSum(s: seq<byte>): nat {
    if s == [] then 0 else ByteSum(s[..|s| - 1]) + s[|s| - 1]
  }

  /** Every byte counted once for itself and once for each byte after it. */
  function WeightedSum(s: seq<byte>): nat {
    if s == [] then 0 else |s| * s[0] + WeightedSum(s[1..])
  }

  lemma {:induction false} WeightedAppend(s: seq<byte>, x: byte)
    ensures WeightedSum(s + [x]) == WeightedSum(s) + ByteSum(s + [x])
  {
    assert (s + [x])[..|s|] == s;
    if s == [] {
      assert (s + [x])[1..] == [];
    } else {
      WeightedAppend(s[1..], x);
      assert (s + [x])[1..] == s[1..] + [x];
      assert (s[1..] + [x])[..|s| - 1] == s[1..];
      SumFromFront(s);
    }
  }

  lemma {:induction false} SumFromFront(s: seq<byte>)
    requires s != []
    ensures ByteSum(s) == s[0] + ByteSum(s[1..])
  {
    if |s| > 1 {
      SumFromFront(s[..|s| - 1]);
      assert s[..|s| - 1][1..] == s[1..][..|s| - 2];
    }
  }

  lemma CkAddSums(sum: nat, weighted: nat, x: byte)
    ensures CkAdd(Ck(sum % 256, weighted % 256), x) == Ck((sum + x) % 256, (weighted + (sum + x)) % 256)
  {
    var a := (sum + x) % 256;
    assert (sum % 256 + x) % 256 == a;
    assert (weighted % 256 + a) % 256 == (weighted + (sum + x)) % 256;
  }

  lemma ModDiffers(a: nat, d: int)
    requires -256 < d < 256 && d != 0 && a + d >= 0
    ensures (a + d) % 256 != a % 256
  {}

  /** The running pair is the 8-bit Fletcher checksum: the sum and the position-weighted sum, modulo 256. */
  lemma {:induction false} CkIsFletcher(s: seq<byte>)
    ensures CkOf(s) == Ck(ByteSum(s) % 256, WeightedSum(s) % 256)
  {
    if s != [] {
      var init, x := s[..|s| - 1], s[|s| - 1];
      CkIsFletcher(init);
      assert s == init + [x];
      WeightedAppend(init, x);
      CkAddSums(ByteSum(init), WeightedSum(init), x);
      hide CkAdd, WeightedSum;
    }
  }

  lemma {:induction false} ChangedByteChangesSum(s: seq<byte>, i: nat, y: byte)
    requires i < |s|
    ensures ByteSum(s[i := y]) == ByteSum(s) - s[i] + y
  {
    var t := s[i := y];
    if i == |s| - 1 {
      assert t[..|t| - 1] == s[..|s| - 1];
    } else {
      ChangedByteChangesSum(s[..|s| - 1], i, y);
      assert t[..|t| - 1] == s[..|s| - 1][i := y];
    }
  }

  /** No change of a single byte goes unnoticed. */
  lemma OneByteErrorIsDetected(s: seq<byte>, i: nat, y: byte)
    requires i < |s| && y != s[i]
    ensures CkOf(s[i := y]).a != CkOf(s).a
  {
    CkIsFletcher(s);
    CkIsFletcher(s[i := y]);
    ChangedByteChangesSum(s, i, y);
    hide CkOf, ByteSum, WeightedSum;
    ModDiffers(ByteSum(s), y - s[i]);
  }

  /** Class, identifier and little-endian length. */
  function Header(cls: byte, id: byte, length: u16): (h: seq<byte>)
    ensures |h| == 4
  {
    [cls, id, length % 256, length / 256]
  }

  /** The bytes the writer sends for a message. */
  function Encoded(m: Message): seq<byte>
    requires |m.payload| < TWO_16
  {
    var covered := Header(m.cls, m.id, |m.payload|) + m.payload;
    [SYNC_1, SYNC_2] + covered + [CkOf(covered).a, CkOf(covered).b]
  }

  // ---------------------------------------------------------------- one byte

  function Summed(p: Parser, x: byte): Parser {
    var c := CkAdd(Ck(p.ckA, p.ckB), x);
    p.(ckA := c.a, ckB := c.b)
  }

  function Consumed(p: Parser, x: byte): (Parser, seq<Event>) {
    match p.phase
    case WaitSync1 => (if x == SYNC_1 then p.(phase := WaitSync2) else p, [])
    case WaitSync2 =>
      (p.(phase := if x == SYNC_2 then WaitClass else if x == SYNC_1 then WaitSync2 else WaitSync1), [])
    case WaitClass => (Summed(p, x).(cls := x, phase := WaitId), [])
    case WaitId => (Summed(p, x).(id := x, phase := WaitLength1), [])
    case WaitLength1 => (Summed(p, x).(length := x, phase := WaitLength2), [])
    case WaitLength2 =>
      var length := p.length % 256 + x * 256;
      if length > MAX_PAYLOAD then (RESET, [InvalidLength])
      else (Summed(p, x).(length := length, payload := [], phase := if length == 0 then WaitCkA else WaitPayload), [])
    case WaitPayload =>
      var q := Summed(p, x).(payload := p.payload + [x]);
      (if |q.payload| >= q.length then q.(phase := WaitCkA) else q, [])
    case WaitCkA => (p.(receivedA := x, phase := WaitCkB), [])
    case WaitCkB =>
      (RESET, if p.receivedA == p.ckA && x == p.ckB then [Dispatched(Message(p.cls, p.id, p.payload))] else [InvalidChecksum])
  }

  function Received(d: Demux, x: byte): (Demux, seq<Event>) {
    if d.parser.phase != WaitSync1 || x == SYNC_1 then
      (Demux(Consumed(d.parser, x).0, []), Consumed(d.parser, x).1)
    else if x == DOLLAR then (d.(line := [DOLLAR]), [])
    else if d.line == [] || x == CR then (d, [])
    else if x == LF then (d.(line := []), [Line(d.line)])
    else if |d.line| < LINE_SIZE - 1 then (d.(line := d.line + [x]), [])
    else (d.(line := []), [LineTooLong])
  }

  function Run(d: Demux, s: seq<byte>): (Demux, seq<Event>) {
    if s == [] then (d, [])
    else
      var (before, events) := Run(d, s[..|s| - 1]);
      var (after, more) := Received(before, s[|s| - 1]);
      (after, events + more)
  }

  // ---------------------------------------------------------------- the routines

  /** The parser and line buffer as fixed arrays with indices. */
  class Receiver {
    var phase: Phase
    var cls: byte
    var id: byte
    var payloadLength: u16
    var payloadIndex: nat
    var ckA: byte
    var ckB: byte
    var receivedA: byte
    const payload: array<byte>
    const line: array<byte>
    var lineLength: nat

    constructor ()
      ensures Valid() && View() == IDLE && fresh(payload) && fresh(line)
    {
      phase, cls, id, payloadLength, payloadIndex := WaitSync1, 0, 0, 0, 0;
      ckA, ckB, receivedA, lineLength := 0, 0, 0, 0;
      payload, line := new byte[MAX_PAYLOAD](_ => 0), new byte[LINE_SIZE](_ => 0);
    }

    /** Index bounds; the payload buffer has room whenever a payload byte is due. */
    ghost predicate Valid()
      reads this
    {
      && payload.Length == MAX_PAYLOAD && line.Length == LINE_SIZE && payload != line
      && payloadIndex <= MAX_PAYLOAD && lineLength < LINE_SIZE
      && (phase == WaitPayload ==> payloadIndex < payloadLength <= MAX_PAYLOAD)
      && (phase == WaitLength2 ==> payloadLength < 256)
    }

    ghost function ParserView(): Parser
      reads this, payload
      requires Valid()
    {
      Parser(phase, cls, id, payloadLength, payload[..payloadIndex], ckA, ckB, receivedA)
    }

    ghost function View(): Demux
      reads this, payload, line
      requires Valid()
    {
      Demux(ParserView(), line[..lineLength])
    }

    method Reset()
      requires Valid()
      modifies this`phase, this`cls, this`id, this`payloadLength, this`payloadIndex, this`ckA, this`ckB, this`receivedA
      ensures Valid() && ParserView() == RESET
    {
      phase, cls, id, payloadLength, payloadIndex := WaitSync1, 0, 0, 0, 0;
      ckA, ckB, receivedA := 0, 0, 0;
    }

    method ChecksumAdd(x: byte)
      modifies this`ckA, this`ckB
      ensures Ck(ckA, ckB) == CkAdd(Ck(old(ckA), old(ckB)), x)
    {
      ckA := (ckA + x) % 256;
      ckB := (ckB + ckA) % 256;
    }

    method Consume(x: byte) returns (events: seq<Event>)
      requires Valid()
      modifies this, payload
      ensures Valid() && lineLength == old(lineLength)
      ensures (ParserView(), events) == Consumed(old(ParserView()), x)
    {
      hide CkAdd;
      events := [];
      match phase
      case WaitSync1 =>
        if x == SYNC_1 { phase := WaitSync2; }
      case WaitSync2 =>
        if x == SYNC_2 { phase := WaitClass; } else if x == SYNC_1 { phase := WaitSync2; } else { phase := WaitSync1; }
      case WaitClass =>
        cls := x;
        ChecksumAdd(x);
        phase := WaitId;
      case WaitId =>
        id := x;
        ChecksumAdd(x);
        phase := WaitLength1;
      case WaitLength1 =>
        payloadLength := x;
        ChecksumAdd(x);
        phase := WaitLength2;
      case WaitLength2 =>
        // the low byte was stored alone, so or-ing the high byte in is addition
        payloadLength := payloadLength % 256 + x * 256;
        ChecksumAdd(x);
        if payloadLength > MAX_PAYLOAD {
          phase := WaitSync1;
          events := [InvalidLength];
          Reset();
          return;
        }
        payloadIndex := 0;
        assert payload[..payloadIndex] == [];
        phase := if payloadLength == 0 then WaitCkA else WaitPayload;
      case WaitPayload =>
        ghost var before := payload[..payloadIndex];
        payload[payloadIndex] := x;
        payloadIndex := payloadIndex + 1;
        assert payload[..payloadIndex] == before + [x];
        ChecksumAdd(x);
        if payloadIndex >= payloadLength { phase := WaitCkA; }
      case WaitCkA =>
        receivedA := x;
        phase := WaitCkB;
      case WaitCkB =>
        if receivedA == ckA && x == ckB {
          events := [Dispatched(Message(cls, id, payload[..payloadIndex]))];
        } else {
          events := [InvalidChecksum];
        }
        Reset();
    }

    method ProcessReceivedByte(x: byte) returns (events: seq<Event>)
      requires Valid()
      modifies this, payload, line
      ensures Valid()
      ensures View() == Received(old(View()), x).0 && events == Received(old(View()), x).1
    {
      events := [];
      if phase != WaitSync1 || x == SYNC_1 {
        lineLength := 0;
        events := Consume(x);
        assert line[..lineLength] == [];
        return;
      }
      if x == DOLLAR {
        lineLength := 0;
        line[lineLength] := DOLLAR;
        lineLength := lineLength + 1;
        return;
      }
      if lineLength == 0 || x == CR { return; }
      if x == LF {
        events := [Line(line[..lineLength])];
        line[lineLength] := 0;
        lineLength := 0;
        return;
      }
      if lineLength < LINE_SIZE - 1 {
        line[lineLength] := x;
        lineLength := lineLength + 1;
      } else {
        lineLength := 0;
        events := [LineTooLong];
      }
    }
  }

  /** The frame writer: header, payload and checksum as sent to the UART. */
  method WriteFrame(cls: byte, id: byte, payload: seq<byte>) returns (sent: seq<byte>)
    requires |payload| < TWO_16
    ensures sent == Encoded(Message(cls, id, payload))
  {
    var length: u16 := |payload|;
    var ckA, ckB := FrameChecksum(cls, id, payload);
    hide CkOf;
    sent := [SYNC_1, SYNC_2, cls, id, length % 256, length / 256 % 256] + payload + [ckA, ckB];
    assert sent == [SYNC_1, SYNC_2] + (Header(cls, id, length) + payload) + [ckA, ckB];
  }

  /** The two checksum loops, over the header from the class on and over the payload. */
  method FrameChecksum(cls: byte, id: byte, payload: seq<byte>) returns (ckA: byte, ckB: byte)
    requires |payload| < TWO_16
    ensures Ck(ckA, ckB) == CkOf(Header(cls, id, |payload|) + payload)
  {
    var length: u16 := |payload|;
    var header: seq<byte> := [SYNC_1, SYNC_2, cls, id, length % 256, length / 256 % 256];
    assert header[2..] == Header(cls, id, length);
    CkEmpty();
    hide Header, CkOf;
    ckA, ckB := SumOver(0, 0, header[2..], []);
    assert [] + header[2..] == header[2..];
    ckA, ckB := SumOver(ckA, ckB, payload, Header(cls, id, length));
  }

  method SumOver(startA: byte, startB: byte, s: seq<byte>, ghost before: seq<byte>) returns (ckA: byte, ckB: byte)
    requires Ck(startA, startB) == CkOf(before)
    ensures Ck(ckA, ckB) == CkOf(before + s)
  {
    hide CkOf;
    ckA, ckB := startA, startB;
    assert before + s[..0] == before;
    for index := 0 to |s|
      invariant Ck(ckA, ckB) == CkOf(before + s[..index])
    {
      CkAppend(before + s[..index], s[index]);
      assert before + s[..index + 1] == before + s[..index] + [s[index]];
      ckA := (ckA + s[index]) % 256;
      ckB := (ckB + ckA) % 256;
    }
    assert s[..|s|] == s;
  }

  // ---------------------------------------------------------------- composing runs

  /** Reading `s` from `d` leads to `e` and does `events`. */
  predicate Goes(d: Demux, s: seq<byte>, e: Demux, events: seq<Event>) {
    Run(d, s).0 == e && Run(d, s).1 == events
  }

  lemma GoesNowhere(d: Demux)
    ensures Goes(d, [], d, [])
  {}

  lemma GoesOn(d: Demux, s: seq<byte>, e: Demux, events: seq<Event>, x: byte)
    requires Goes(d, s, e, events)
    ensures Goes(d, s + [x], Received(e, x).0, events + Received(e, x).1)
  {
    hide Received;
    assert (s + [x])[..|s|] == s;
  }

  /** The same when nothing had been done before. */
  lemma GoesTo(d: Demux, s: seq<byte>, e: Demux, x: byte, f: Demux, events: seq<Event>)
    requires Goes(d, s, e, []) && Received(e, x).0 == f && Received(e, x).1 == events
    ensures Goes(d, s + [x], f, events)
  {
    GoesOn(d, s, e, [], x);
    assert [] + events == events;
  }

  lemma {:induction false} GoesFurther(d: Demux, s: seq<byte>, e: Demux, first: seq<Event>, t: seq<byte>)
    requires Goes(d, s, e, first)
    ensures Goes(d, s + t, Run(e, t).0, first + Run(e, t).1)
    decreases |t|
  {
    hide Received;
    if t == [] {
      assert s + t == s && first + [] == first;
    } else {
      var init, x := t[..|t| - 1], t[|t| - 1];
      assert s + t == (s + init) + [x];
      GoesFurther(d, s, e, first, init);
      GoesOn(d, s + init, Run(e, init).0, first + Run(e, init).1, x);
      assert first + Run(e, t).1 == first + Run(e, init).1 + Received(Run(e, init).0, x).1;
    }
  }

  // ---------------------------------------------------------------- what was written is read

  /** What a well-behaved receiver sends: frames, sentences, and idle bytes between them. */
  datatype Item =
    | Frame(message: Message)
    | Sentence(body: seq<byte>, withCr: bool)
    | Noise(x: byte)

  predicate TextByte(x: byte) {
    x != SYNC_1 && x != DOLLAR && x != CR && x != LF
  }

  predicate WellFormed(item: Item) {
    match item
    case Frame(m) => |m.payload| <= MAX_PAYLOAD
    case Sentence(body, _) => |body| <= LINE_SIZE - 2 && forall i :: 0 <= i < |body| ==> TextByte(body[i])
    case Noise(x) => x != SYNC_1 && x != DOLLAR
  }

  function Wire(item: Item): seq<byte>
    requires WellFormed(item)
  {
    match item
    case Frame(m) => Encoded(m)
    case Sentence(body, withCr) => [DOLLAR] + body + (if withCr then [CR, LF] else [LF])
    case Noise(x) => [x]
  }

  function Events(item: Item): seq<Event> {
    match item
    case Frame(m) => [Dispatched(m)]
    case Sentence(body, _) => [Line([DOLLAR] + body)]
    case Noise(_) => []
  }

  /** Parser state after the sync bytes, header and some of the payload. */
  function InPayload(m: Message, n: nat): Parser
    requires n <= |m.payload| <= MAX_PAYLOAD
  {
    var c := CkOf(Header(m.cls, m.id, |m.payload|) + m.payload[..n]);
    Parser(if n == |m.payload| then WaitCkA else WaitPayload, m.cls, m.id, |m.payload|, m.payload[..n], c.a, c.b, 0)
  }

  lemma HeaderChecksum(cls: byte, id: byte, length: u16)
    ensures CkOf(Header(cls, id, length))
         == CkAdd(CkAdd(CkAdd(CkAdd(Ck(0, 0), cls), id), length % 256), length / 256)
  {
    CkEmpty();
    var a, b, c, d := cls, id, length % 256, length / 256;
    CkAppend([], a);
    CkAppend([a], b);
    CkAppend([a, b], c);
    CkAppend([a, b, c], d);
    assert [] + [a] == [a] && [a] + [b] == [a, b] && [a, b] + [c] == [a, b, c] && [a, b, c] + [d] == [a, b, c, d];
  }

  lemma NothingCollected(m: Message)
    requires |m.payload| <= MAX_PAYLOAD
    ensures var n: u16 := |m.payload|;
      var c := CkOf(Header(m.cls, m.id, n));
      InPayload(m, 0) == Parser(if n == 0 then WaitCkA else WaitPayload, m.cls, m.id, n, [], c.a, c.b, 0)
  {
    var h := Header(m.cls, m.id, |m.payload|);
    assert m.payload[..0] == [] && h + m.payload[..0] == h;
  }

  /** The parser after the class, the identifier and the low length byte. */
  function InHeader(cls: byte, id: byte, low: byte, taken: nat): Parser
    requires 1 <= taken <= 3
  {
    var c1 := CkAdd(Ck(0, 0), cls);
    var c2 := CkAdd(c1, id);
    var c3 := CkAdd(c2, low);
    if taken == 1 then Parser(WaitId, cls, 0, 0, [], c1.a, c1.b, 0)
    else if taken == 2 then Parser(WaitLength1, cls, id, 0, [], c2.a, c2.b, 0)
    else Parser(WaitLength2, cls, id, low, [], c3.a, c3.b, 0)
  }

  lemma HeaderSteps(cls: byte, id: byte, low: byte)
    ensures Consumed(RESET.(phase := WaitClass), cls) == (InHeader(cls, id, low, 1), [])
    ensures Consumed(InHeader(cls, id, low, 1), id) == (InHeader(cls, id, low, 2), [])
    ensures Consumed(InHeader(cls, id, low, 2), low) == (InHeader(cls, id, low, 3), [])
  {}

  lemma SplitLength(low: byte, high: byte)
    ensures (low + 256 * high) % 256 == low && (low + 256 * high) / 256 == high
  {}

  /** The checksum byte pair and the arithmetic of the length field, apart from the messages. */
  lemma LastHeaderByte(p: Parser, high: byte, length: nat, c: Ck)
    requires p.phase == WaitLength2 && p.length < 256 && p.length + 256 * high == length <= MAX_PAYLOAD
    requires CkAdd(Ck(p.ckA, p.ckB), high) == c
    ensures Consumed(p, high).1 == []
    ensures Consumed(p, high).0
         == p.(ckA := c.a, ckB := c.b, length := length, payload := [], phase := if length == 0 then WaitCkA else WaitPayload)
  {
    hide CkAdd;
  }

  lemma LengthStep(m: Message, low: byte, high: byte)
    requires |m.payload| <= MAX_PAYLOAD && low + 256 * high == |m.payload|
    ensures Consumed(InHeader(m.cls, m.id, low, 3), high).0 == InPayload(m, 0)
    ensures Consumed(InHeader(m.cls, m.id, low, 3), high).1 == []
  {
    hide CkAdd, CkOf, InPayload, Header, Consumed;
    SplitLength(low, high);
    HeaderChecksum(m.cls, m.id, |m.payload|);
    NothingCollected(m);
    LastHeaderByte(InHeader(m.cls, m.id, low, 3), high, |m.payload|, CkOf(Header(m.cls, m.id, |m.payload|)));
  }

  lemma ParserStep(p: Parser, x: byte)
    requires p.phase != WaitSync1 || x == SYNC_1
    ensures Received(Demux(p, []), x).0 == Demux(Consumed(p, x).0, [])
    ensures Received(Demux(p, []), x).1 == Consumed(p, x).1
  {}

  lemma HeaderIsParsed(m: Message)
    requires |m.payload| <= MAX_PAYLOAD
    ensures Goes(IDLE, [SYNC_1, SYNC_2] + Header(m.cls, m.id, |m.payload|), Demux(InPayload(m, 0), []), [])
  {
    var low: byte, high: byte := |m.payload| % 256, |m.payload| / 256;
    var p1, p2 := RESET.(phase := WaitSync2), RESET.(phase := WaitClass);
    GoesNowhere(IDLE);
    GoesTo(IDLE, [], IDLE, SYNC_1, Demux(p1, []), []);
    assert [] + [SYNC_1] == [SYNC_1] && [SYNC_1] + [SYNC_2] == [SYNC_1, SYNC_2];
    GoesTo(IDLE, [SYNC_1], Demux(p1, []), SYNC_2, Demux(p2, []), []);
    var q1, q2, q3 := InHeader(m.cls, m.id, low, 1), InHeader(m.cls, m.id, low, 2), InHeader(m.cls, m.id, low, 3);
    HeaderSteps(m.cls, m.id, low);
    LengthStep(m, low, high);
    assert q1.phase == WaitId && q2.phase == WaitLength1 && q3.phase == WaitLength2;
    hide CkOf, Goes, Run, InPayload, InHeader, Consumed, Received;
    ParserStep(p2, m.cls);
    ParserStep(q1, m.id);
    ParserStep(q2, low);
    ParserStep(q3, high);
    HeaderFrom(IDLE, [SYNC_1, SYNC_2], m.cls, m.id, low, high,
               Demux(p2, []), Demux(q1, []), Demux(q2, []), Demux(q3, []), Demux(InPayload(m, 0), []));
  }

  lemma HeaderFrom(d: Demux, s: seq<byte>, w: byte, x: byte, y: byte, z: byte,
                   d2: Demux, d3: Demux, d4: Demux, d5: Demux, d6: Demux)
    requires Goes(d, s, d2, [])
    requires Received(d2, w).0 == d3 && Received(d2, w).1 == []
    requires Received(d3, x).0 == d4 && Received(d3, x).1 == []
    requires Received(d4, y).0 == d5 && Received(d4, y).1 == []
    requires Received(d5, z).0 == d6 && Received(d5, z).1 == []
    ensures Goes(d, s + [w, x, y, z], d6, [])
  {
    hide Goes, Received;
    GoesTo(d, s, d2, w, d3, []);
    GoesTo(d, s + [w], d3, x, d4, []);
    GoesTo(d, s + [w] + [x], d4, y, d5, []);
    GoesTo(d, s + [w] + [x] + [y], d5, z, d6, []);
    assert s + [w] + [x] + [y] + [z] == s + [w, x, y, z];
  }

  lemma PayloadStep(m: Message, n: nat)
    requires 0 < n <= |m.payload| <= MAX_PAYLOAD
    ensures Received(Demux(InPayload(m, n - 1), []), m.payload[n - 1]).0 == Demux(InPayload(m, n), [])
    ensures Received(Demux(InPayload(m, n - 1), []), m.payload[n - 1]).1 == []
  {
    var h, x := Header(m.cls, m.id, |m.payload|), m.payload[n - 1];
    CkAppend(h + m.payload[..n - 1], x);
    assert h + m.payload[..n] == h + m.payload[..n - 1] + [x];
    assert m.payload[..n] == m.payload[..n - 1] + [x];
    hide CkOf, CkAdd, Header, Received;
    ParserStep(InPayload(m, n - 1), x);
  }

  lemma {:induction false} PayloadIsParsed(m: Message, n: nat)
    requires n <= |m.payload| <= MAX_PAYLOAD
    ensures Goes(IDLE, [SYNC_1, SYNC_2] + Header(m.cls, m.id, |m.payload|) + m.payload[..n], Demux(InPayload(m, n), []), [])
  {
    var h := Header(m.cls, m.id, |m.payload|);
    var head := [SYNC_1, SYNC_2] + h;
    if n == 0 {
      HeaderIsParsed(m);
      assert head + m.payload[..0] == head;
    } else {
      var x := m.payload[n - 1];
      PayloadIsParsed(m, n - 1);
      PayloadStep(m, n);
      hide CkOf, Goes, Run, Header, InPayload, Received;
      GoesTo(IDLE, head + m.payload[..n - 1], Demux(InPayload(m, n - 1), []), x, Demux(InPayload(m, n), []), []);
      assert head + m.payload[..n] == head + m.payload[..n - 1] + [x];
    }
  }

  /** The parser before the last byte of a frame. */
  function Awaiting(m: Message): Parser
    requires |m.payload| <= MAX_PAYLOAD
  {
    InPayload(m, |m.payload|).(receivedA := CkOf(Header(m.cls, m.id, |m.payload|) + m.payload).a, phase := WaitCkB)
  }

  lemma FrameButLast(m: Message)
    requires |m.payload| <= MAX_PAYLOAD
    ensures var f := Encoded(m);
      && Goes(IDLE, f[..|f| - 1], Demux(Awaiting(m), []), [])
      && Received(Demux(Awaiting(m), []), f[|f| - 1]) == (IDLE, [Dispatched(m)])
  {
    var n, f := |m.payload|, Encoded(m);
    var h := Header(m.cls, m.id, n);
    var body := [SYNC_1, SYNC_2] + h + m.payload;
    var c := CkOf(h + m.payload);
    PayloadIsParsed(m, n);
    assert m.payload[..n] == m.payload;
    assert f == body + [c.a] + [c.b];
    hide CkOf, Goes, Run, Header, Encoded;
    GoesTo(IDLE, body, Demux(InPayload(m, n), []), c.a, Demux(Awaiting(m), []), []);
    assert f[..|f| - 1] == body + [c.a];
  }

  /** A written frame is dispatched as the message it was written from. */
  lemma FrameIsDispatched(m: Message)
    requires |m.payload| <= MAX_PAYLOAD
    ensures Goes(IDLE, Encoded(m), IDLE, [Dispatched(m)])
  {
    var f := Encoded(m);
    FrameButLast(m);
    hide Goes, Encoded, Awaiting, Received;
    GoesTo(IDLE, f[..|f| - 1], Demux(Awaiting(m), []), f[|f| - 1], IDLE, [Dispatched(m)]);
    assert f == f[..|f| - 1] + [f[|f| - 1]];
  }

  lemma {:induction false} BodyIsCollected(body: seq<byte>)
    requires |body| <= LINE_SIZE - 2 && forall i :: 0 <= i < |body| ==> TextByte(body[i])
    ensures Goes(IDLE, [DOLLAR] + body, Demux(RESET, [DOLLAR] + body), [])
  {
    hide Goes, Run;
    if body == [] {
      GoesNowhere(IDLE);
      GoesTo(IDLE, [], IDLE, DOLLAR, Demux(RESET, [DOLLAR]), []);
      assert [] + [DOLLAR] == [DOLLAR] && [DOLLAR] + body == [DOLLAR];
    } else {
      var init, x := body[..|body| - 1], body[|body| - 1];
      BodyIsCollected(init);
      GoesTo(IDLE, [DOLLAR] + init, Demux(RESET, [DOLLAR] + init), x, Demux(RESET, [DOLLAR] + init + [x]), []);
      assert [DOLLAR] + init + [x] == [DOLLAR] + body;
    }
  }

  lemma SentenceIsDispatched(body: seq<byte>, withCr: bool)
    requires WellFormed(Sentence(body, withCr))
    ensures Goes(IDLE, Wire(Sentence(body, withCr)), IDLE, [Line([DOLLAR] + body)])
  {
    hide Goes, Run;
    BodyIsCollected(body);
    var text := [DOLLAR] + body;
    if withCr {
      GoesTo(IDLE, text, Demux(RESET, text), CR, Demux(RESET, text), []);
      GoesTo(IDLE, text + [CR], Demux(RESET, text), LF, IDLE, [Line(text)]);
      assert text + [CR] + [LF] == text + [CR, LF];
    } else {
      GoesTo(IDLE, text, Demux(RESET, text), LF, IDLE, [Line(text)]);
    }
  }

  lemma ItemIsRead(item: Item)
    requires WellFormed(item)
    ensures Goes(IDLE, Wire(item), IDLE, Events(item))
  {
    hide Goes, Run, Encoded;
    match item
    case Frame(m) => FrameIsDispatched(m);
    case Sentence(body, withCr) => SentenceIsDispatched(body, withCr);
    case Noise(x) =>
      GoesNowhere(IDLE);
      GoesTo(IDLE, [], IDLE, x, IDLE, []);
      assert [] + [x] == [x];
  }

  function Stream(items: seq<Item>): seq<byte>
    requires forall i :: 0 <= i < |items| ==> WellFormed(items[i])
  {
    if items == [] then [] else Stream(items[..|items| - 1]) + Wire(items[|items| - 1])
  }

  function StreamEvents(items: seq<Item>): seq<Event> {
    if items == [] then [] else StreamEvents(items[..|items| - 1]) + Events(items[|items| - 1])
  }

  /** Any sequence of written frames, sentences and idle bytes is read back as exactly those frames and
      lines, in order, and leaves the demultiplexer idle. */
  lemma {:induction false} StreamRoundTrip(items: seq<Item>)
    requires forall i :: 0 <= i < |items| ==> WellFormed(items[i])
    ensures Goes(IDLE, Stream(items), IDLE, StreamEvents(items))
  {
    hide Wire, Events, Received;
    if items != [] {
      var init, last := items[..|items| - 1], items[|items| - 1];
      StreamRoundTrip(init);
      ItemIsRead(last);
      GoesFurther(IDLE, Stream(init), IDLE, StreamEvents(init), Wire(last));
    }
  }

  // ---------------------------------------------------------------- nothing is invented

  predicate EndsWith(s: seq<byte>, t: seq<byte>) {
    |t| <= |s| && s[|s| - |t|..] == t
  }

  /** The bytes of the frame being received. */
  function Pending(p: Parser): seq<byte> {
    match p.phase
    case WaitSync1 => []
    case WaitSync2 => [SYNC_1]
    case WaitClass => [SYNC_1, SYNC_2]
    case WaitId => [SYNC_1, SYNC_2, p.cls]
    case WaitLength1 => [SYNC_1, SYNC_2, p.cls, p.id]
    case WaitLength2 => [SYNC_1, SYNC_2, p.cls, p.id, p.length % 256]
    case WaitPayload => [SYNC_1, SYNC_2] + Covered(p)
    case WaitCkA => [SYNC_1, SYNC_2] + Covered(p)
    case WaitCkB => [SYNC_1, SYNC_2] + Covered(p) + [p.receivedA]
  }

  function Covered(p: Parser): seq<byte> {
    Header(p.cls, p.id, p.length) + p.payload
  }

  /** The bytes the running checksum covers. */
  function Summable(p: Parser): seq<byte> {
    match p.phase
    case WaitSync1 => []
    case WaitSync2 => []
    case WaitClass => []
    case WaitId => [p.cls]
    case WaitLength1 => [p.cls, p.id]
    case WaitLength2 => [p.cls, p.id, p.length % 256]
    case _ => Covered(p)
  }

  /** The parser state agrees with the input it has seen. */
  predicate Faithful(p: Parser, input: seq<byte>) {
    && EndsWith(input, Pending(p))
    && Ck(p.ckA, p.ckB) == CkOf(Summable(p))
    && InBounds(p)
  }

  predicate InBounds(p: Parser) {
    && (p.phase == WaitLength2 ==> p.length < 256)
    && (p.phase == WaitPayload ==> |p.payload| < p.length <= MAX_PAYLOAD)
    && (p.phase == WaitCkA || p.phase == WaitCkB ==> |p.payload| == p.length <= MAX_PAYLOAD)
  }

  lemma ConsumedStaysInBounds(p: Parser, x: byte)
    requires InBounds(p)
    ensures InBounds(Consumed(p, x).0)
  {
    hide CkAdd;
  }

  lemma EndsWithMore(s: seq<byte>, t: seq<byte>, x: byte)
    requires EndsWith(s, t)
    ensures EndsWith(s + [x], t + [x])
  {
    var u := s + [x];
    assert u[|u| - |t| - 1..] == s[|s| - |t|..] + [x];
  }

  /** The next state's pending bytes are the old ones and the new byte, a fresh sync byte, or none. */
  lemma PendingGrows(p: Parser, x: byte)
    requires p.phase == WaitLength2 ==> p.length < 256
    ensures var q := Consumed(p, x).0;
      && (q.phase == WaitSync1 ==> Pending(q) == [])
      && (q.phase == WaitSync2 ==> Pending(q) == [x])
      && (q.phase != WaitSync1 && q.phase != WaitSync2 ==> Pending(q) == Pending(p) + [x])
  {}

  lemma SummableGrows(p: Parser, x: byte)
    requires p.phase == WaitLength2 ==> p.length < 256
    ensures var q := Consumed(p, x).0;
      && (q.phase == WaitSync1 || q.phase == WaitSync2 || q.phase == WaitClass ==> Summable(q) == [])
      && (q.phase in {WaitId, WaitLength1, WaitLength2, WaitPayload} ==> Summable(q) == Summable(p) + [x])
      && (q.phase == WaitCkA ==> Summable(q) == Summable(p) + [x])
      && (q.phase == WaitCkB ==> Summable(q) == Summable(p))
  {}

  lemma ChecksumTracks(p: Parser, input: seq<byte>, x: byte)
    requires Faithful(p, input)
    ensures var q := Consumed(p, x).0; Ck(q.ckA, q.ckB) == CkOf(Summable(q))
  {
    SummableGrows(p, x);
    CkAppend(Summable(p), x);
    CkEmpty();
    WaitingSumsNothing(p);
    CkStep(p, x);
    hide CkOf, Summable, Pending, EndsWith, CkAdd, Consumed, InBounds;
  }

  lemma CkStep(p: Parser, x: byte)
    ensures var q := Consumed(p, x).0;
      && (q.phase in {WaitId, WaitLength1, WaitLength2, WaitPayload, WaitCkA} ==>
            Ck(q.ckA, q.ckB) == CkAdd(Ck(p.ckA, p.ckB), x))
      && (q.phase == WaitCkB ==> Ck(q.ckA, q.ckB) == Ck(p.ckA, p.ckB))
      && (q.phase in {WaitSync1, WaitSync2, WaitClass} ==>
            Ck(q.ckA, q.ckB) == Ck(0, 0) || (p.phase in {WaitSync1, WaitSync2} && Ck(q.ckA, q.ckB) == Ck(p.ckA, p.ckB)))
  {
    hide CkAdd;
  }

  lemma WaitingSumsNothing(p: Parser)
    ensures p.phase in {WaitSync1, WaitSync2, WaitClass} ==> Summable(p) == []
  {}

  lemma ConsumedKeepsFaithful(p: Parser, input: seq<byte>, x: byte)
    requires Faithful(p, input)
    ensures Faithful(Consumed(p, x).0, input + [x])
  {
    EndsWithMore(input, Pending(p), x);
    EndsWithMore(input, [], x);
    PendingGrows(p, x);
    ChecksumTracks(p, input, x);
    ConsumedStaysInBounds(p, x);
    hide CkOf, Summable, Pending, EndsWith, Consumed, InBounds;
    EmptySuffix(input);
    EmptySuffix(input + [x]);
    assert [] + [x] == [x];
  }

  lemma EmptySuffix(s: seq<byte>)
    ensures EndsWith(s, [])
  {}

  lemma DispatchedIsPending(p: Parser, input: seq<byte>, x: byte, m: Message)
    requires Faithful(p, input) && Dispatched(m) in Consumed(p, x).1
    ensures |m.payload| <= MAX_PAYLOAD && Encoded(m) == Pending(p) + [x]
  {
    hide CkOf;
  }

  /** A dispatched message is the frame that has just ended in the input, with its length and checksum. */
  lemma DispatchedIsInput(p: Parser, input: seq<byte>, x: byte, m: Message)
    requires Faithful(p, input) && Dispatched(m) in Consumed(p, x).1
    ensures |m.payload| <= MAX_PAYLOAD && EndsWith(input + [x], Encoded(m))
  {
    EndsWithMore(input, Pending(p), x);
    DispatchedIsPending(p, input, x, m);
  }

  lemma {:induction false} RunStaysFaithful(d: Demux, s: seq<byte>)
    requires d.parser == RESET
    ensures Faithful(Run(d, s).0.parser, s)
  {
    hide Faithful, Consumed, Received;
    if s == [] {
      StartIsFaithful();
    } else {
      var init, x := s[..|s| - 1], s[|s| - 1];
      RunStaysFaithful(d, init);
      assert s == init + [x];
      var before := Run(d, init).0;
      ConsumedKeepsFaithful(before.parser, init, x);
      TextLeavesParser(before, x);
      if before.parser.phase == WaitSync1 && x != SYNC_1 { TextKeepsFaithful(before.parser, init, x); }
    }
  }

  lemma StartIsFaithful()
    ensures Faithful(RESET, [])
  {
    CkEmpty();
  }

  lemma TextLeavesParser(d: Demux, x: byte)
    ensures Received(d, x).0.parser
         == if d.parser.phase != WaitSync1 || x == SYNC_1 then Consumed(d.parser, x).0 else d.parser
  {}

  lemma TextKeepsFaithful(p: Parser, input: seq<byte>, x: byte)
    requires Faithful(p, input) && p.phase == WaitSync1
    ensures Faithful(p, input + [x])
  {}

  /** On arbitrary input, starting between frames with any text before, every message dispatched by a byte
      is a contiguous slice of the input ending at that byte, of legal length and with the right checksum. */
  lemma FramesAreInputSlices(d: Demux, s: seq<byte>, x: byte, m: Message)
    requires d.parser == RESET && Dispatched(m) in Received(Run(d, s).0, x).1
    ensures |m.payload| <= MAX_PAYLOAD && EndsWith(s + [x], Encoded(m))
  {
    RunStaysFaithful(d, s);
    DispatchedIsInput(Run(d, s).0.parser, s, x, m);
  }

  // ---------------------------------------------------------------- lines are input too

  function WithoutCr(s: seq<byte>): seq<byte> {
    if s == [] then [] else WithoutCr(s[..|s| - 1]) + if s[|s| - 1] == CR then [] else [s[|s| - 1]]
  }

  predicate LineByte(x: byte) {
    x != SYNC_1 && x != DOLLAR && x != LF
  }

  /** `line` is the input from a dollar sign on, carriage returns dropped, with no other delimiter in it. */
  predicate LineFrom(s: seq<byte>, at: nat, line: seq<byte>) {
    at < |s| && s[at] == DOLLAR && line == WithoutCr(s[at..]) && forall i :: at < i < |s| ==> LineByte(s[i])
  }

  lemma {:induction false} RunTracksLine(d: Demux, s: seq<byte>) returns (at: nat)
    requires d.parser == RESET && d.line == []
    ensures Run(d, s).0.line != [] ==> Run(d, s).0.parser.phase == WaitSync1 && LineFrom(s, at, Run(d, s).0.line)
    ensures |Run(d, s).0.line| < LINE_SIZE
  {
    at := 0;
    if s != [] {
      var init, x := s[..|s| - 1], s[|s| - 1];
      at := RunTracksLine(d, init);
      var before := Run(d, init).0;
      if before.parser.phase == WaitSync1 && x == DOLLAR {
        at := |s| - 1;
        assert s[at..] == [DOLLAR] && [DOLLAR][..0] == [];
        assert WithoutCr([DOLLAR]) == [DOLLAR];
      } else if before.line != [] {
        assert s[at..][..|s[at..]| - 1] == init[at..];
        assert forall i :: at < i < |init| ==> s[i] == init[i];
      }
    }
  }

  /** Every dispatched line is the input between a dollar sign and the line feed that ends it. */
  lemma LinesAreInputSlices(d: Demux, s: seq<byte>, x: byte, text: seq<byte>)
    requires d.parser == RESET && d.line == [] && Line(text) in Received(Run(d, s).0, x).1
    ensures x == LF && |text| < LINE_SIZE && exists at: nat :: LineFrom(s, at, text)
  {
    var at := RunTracksLine(d, s);
  }
}
