/** What a WebSocket receives of what its peer writes: frames of all three length forms, cut into reads anywhere. */
module WebSocketDecoding {
  import opened Bytes
  import opened Sequences
  import opened WebSockets

  // ---------- the sender

  datatype Frame = Frame(fin: bool, opcode: int, payload: seq<Byte>, key: Key) {
    /** What the sender can write: sizes are ints, and control frames are never fragments. */
    predicate Sendable() {
      0 <= opcode < 16 && (fin || opcode < 8) && |payload| < 0x8000_0000
    }
  }

  function Length7(size: nat): (n: nat)
    ensures n < 128
  {
    if size < 126 then size else if size <= 65535 then 126 else 127
  }

  function HeaderOf(f: Frame, isClientNode: bool): Header
    requires f.Sendable()
  {
    Header((if f.fin then 128 else 0) + f.opcode, (if isClientNode then 128 else 0) + Length7(|f.payload|))
  }

  function SizeBytes(size: nat): seq<Byte> {
    if size < 126 then [] else if size <= 65535 then BigEndian(size, 2) else BigEndian(size, 8)
  }

  function Mask(data: seq<Byte>, key: Key, i: nat): (s: seq<Byte>)
    ensures |s| == |data|
    decreases |data|
  {
    if data == [] then [] else [Xor(key[i % 4], data[0])] + Mask(data[1..], key, i + 1)
  }

  /** What a server gets in place of the data. */
  function Masked(f: Frame, isClientNode: bool): (s: seq<Byte>)
    ensures |s| == |f.payload|
  {
    if isClientNode then Mask(f.payload, f.key, 0) else f.payload
  }

  function KeyBytes(f: Frame, isClientNode: bool): seq<Byte> {
    if isClientNode then f.key else []
  }

  /** writePayload. */
  function WritePayload(f: Frame, isClientNode: bool): seq<Byte>
    requires f.Sendable()
  {
    var h := HeaderOf(f, isClientNode);
    [h.b0, h.b1] + SizeBytes(|f.payload|) + KeyBytes(f, isClientNode) + Masked(f, isClientNode)
  }

  // ---------- one frame

  /** The parser at a frame boundary, the bytes of a frame behind it. */
  function Arrived(p: Parser, f: Frame): Parser
    requires f.Sendable()
  {
    var q := p.(frame := HeaderOf(f, !p.isClientNode), remainingPayloadSize := 0, parsingState := ParsingFrame);
    if p.isClientNode then q else q.(maskingKey := f.key, maskingIndex := Advance(0, |f.payload|))
  }

  /** The meaning of a frame for its receiver. */
  function Received(p: Parser, f: Frame): (Parser, seq<Output>)
    requires f.Sendable()
  {
    var q := Arrived(p, f);
    if f.payload != [] then Complete(q.(payload := p.payload + f.payload))
    else if q.frame.IsControlFrame() then EvaluateControlFrame(q)
    else (q, [])
  }

  lemma {:induction false} UnmaskMask(data: seq<Byte>, key: Key, i: nat, index: Byte)
    requires index % 4 == i % 4
    ensures Unmask(Mask(data, key, i), key, index) == data
    decreases |data|
  {
    if data != [] {
      var rest := Mask(data[1..], key, i + 1);
      UnmaskMask(data[1..], key, i + 1, Next(index));
      MaskedByte(data[0], key[i % 4]);
      assert Mask(data, key, i)[1..] == rest;
      assert data == [data[0]] + data[1..];
    }
  }

  lemma MaskedByte(d: Byte, k: Byte)
    ensures Xor(Xor(k, d), k) == d
  {
    XorOfCommutes(k, d);
    XorOfTwice(d, k);
  }

  lemma HeaderBits(f: Frame, isClientNode: bool)
    requires f.Sendable()
    ensures var h := HeaderOf(f, isClientNode);
            h.Fin() == f.fin && h.Opcode() == f.opcode && h.IsControlFrame() == (f.opcode >= 8)
            && h.Masked() == isClientNode && h.PayloadLength() == Length7(|f.payload|)
  {
  }

  lemma ThenNothing(r: Run)
    ensures Then([], r) == r
  {
    Neutral(r.outputs);
  }

  lemma Again(p: Parser)
    requires Step(p).verdict.Again? && Step(p).outputs == []
    ensures ParseBuffer(p) == ParseBuffer(Step(p).parser)
  {
    hide Step;
    ThenNothing(ParseBuffer(Step(p).parser));
  }

  function Sized(p: Parser, f: Frame, buffer: seq<Byte>): Parser
    requires f.Sendable()
  {
    p.(frame := HeaderOf(f, !p.isClientNode), remainingPayloadSize := |f.payload|, parsingState := AfterSize(p.isClientNode), buffer := buffer)
  }

  lemma SizeRoundTrip(size: nat)
    requires size < 0x8000_0000
    ensures 126 <= size <= 65535 ==> FromBigEndian(BigEndian(size, 2)) == size
    ensures size > 65535 ==> FromBigEndian(BigEndian(size, 8)) == size
  {
    assert Power256(4) == 0x1_0000_0000 && Power256(2) == 65536;
    assert Power256(8) > size by {
      assert Power256(8) >= Power256(4);
    }
    if size <= 65535 {
      BigEndianRoundTrip(size, 2);
    } else {
      BigEndianRoundTrip(size, 8);
    }
  }

  /** The parser behind the first two bytes. */
  function Headed(p: Parser, f: Frame, buffer: seq<Byte>): Parser
    requires f.Sendable()
  {
    var q := p.(frame := HeaderOf(f, !p.isClientNode), buffer := buffer);
    if |f.payload| < 126 then q.(remainingPayloadSize := |f.payload|, parsingState := AfterSize(p.isClientNode))
    else q.(parsingState := if |f.payload| <= 65535 then ParsingSize16 else ParsingSize64)
  }

  lemma HeaderIsParsed(p: Parser, f: Frame, rest: seq<Byte>)
    requires f.Sendable() && p.parsingState.ParsingFrame?
    requires var h := HeaderOf(f, !p.isClientNode); p.buffer == [h.b0, h.b1] + rest
    ensures Step(p) == Outcome(Headed(p, f, rest), [], Verdict.Again)
  {
    HeaderBits(f, !p.isClientNode);
    assert p.buffer[2..] == rest;
  }

  lemma LongSizeIsParsed(p: Parser, f: Frame, tail: seq<Byte>)
    requires f.Sendable() && |f.payload| >= 126 && p == Headed(p, f, SizeBytes(|f.payload|) + tail)
    ensures Step(p) == Outcome(Sized(p, f, tail), [], Verdict.Again)
  {
    var bytes := SizeBytes(|f.payload|);
    SizeRoundTrip(|f.payload|);
    assert p.buffer[..|bytes|] == bytes && p.buffer[|bytes|..] == tail;
  }

  /** Two or three steps: the header, and the longer sizes. */
  lemma SizeIsParsed(p: Parser, f: Frame, tail: seq<Byte>)
    requires f.Sendable() && p.parsingState.ParsingFrame?
    requires var h := HeaderOf(f, !p.isClientNode); p.buffer == [h.b0, h.b1] + (SizeBytes(|f.payload|) + tail)
    ensures ParseBuffer(p) == ParseBuffer(Sized(p, f, tail))
  {
    hide Step, HeaderOf, ParseBuffer;
    var bytes := SizeBytes(|f.payload|);
    HeaderIsParsed(p, f, bytes + tail);
    Again(p);
    var q := Headed(p, f, bytes + tail);
    if bytes == [] {
      Neutral(tail);
    } else {
      LongSizeIsParsed(q, f, tail);
      Again(q);
    }
  }

  function Keyed(p: Parser, f: Frame, buffer: seq<Byte>): Parser {
    if p.isClientNode then p.(buffer := buffer)
    else p.(maskingKey := f.key, maskingIndex := 0, parsingState := ParsingPayloadData, buffer := buffer)
  }

  lemma KeyIsParsed(p: Parser, f: Frame, tail: seq<Byte>)
    requires p.parsingState == AfterSize(p.isClientNode) && p.buffer == KeyBytes(f, !p.isClientNode) + tail
    ensures ParseBuffer(p) == ParseBuffer(Keyed(p, f, tail))
  {
    if p.isClientNode {
      assert [] + tail == tail;
      assert Keyed(p, f, tail) == p;
    } else {
      assert p.buffer[..4] == f.key && p.buffer[4..] == tail;
      Again(p);
    }
  }

  /** The parser that waits for the payload of f. */
  predicate AwaitsPayload(p: Parser, f: Frame, rest: seq<Byte>)
    requires f.Sendable()
  {
    && p.parsingState.ParsingPayloadData? && p.frame == HeaderOf(f, !p.isClientNode)
    && p.remainingPayloadSize == |f.payload|
    && p.buffer == Masked(f, !p.isClientNode) + rest
    && (!p.isClientNode ==> p.maskingKey == f.key && p.maskingIndex == 0)
  }

  lemma ChunkIsPayload(p: Parser, f: Frame, rest: seq<Byte>)
    requires f.Sendable() && AwaitsPayload(p, f, rest)
    ensures TakeChunk(p).(parsingState := ParsingFrame) == Arrived(p.(buffer := rest), f).(payload := p.payload + f.payload)
  {
    var chunk := Masked(f, !p.isClientNode);
    assert p.buffer[..|chunk|] == chunk && p.buffer[|chunk|..] == rest;
    assert NextChunk(p) == chunk by {
      if |chunk| == |p.buffer| {
        assert rest == [];
        assert chunk + [] == chunk;
      }
    }
    if !p.isClientNode {
      UnmaskMask(f.payload, f.key, 0, 0);
    }
  }

  lemma EmptyPayloadIsParsed(p: Parser, f: Frame, rest: seq<Byte>)
    requires f.Sendable() && AwaitsPayload(p, f, rest) && f.payload == []
    ensures var (q, outputs) := Received(p.(buffer := rest), f);
            ParsePayloadData(p) == Outcome(q, outputs, Verdict.Again)
  {
    assert p.buffer == rest;
    assert p.(parsingState := ParsingFrame) == Arrived(p.(buffer := rest), f);
  }

  lemma FullPayloadIsParsed(p: Parser, f: Frame, rest: seq<Byte>)
    requires f.Sendable() && AwaitsPayload(p, f, rest) && f.payload != []
    ensures var (q, outputs) := Received(p.(buffer := rest), f);
            ParsePayloadData(p) == Outcome(q, outputs, Verdict.Again)
  {
    ChunkIsPayload(p, f, rest);
    assert |p.buffer| > 0;
    assert TakeChunk(p).remainingPayloadSize == 0;
  }

  lemma PayloadIsParsed(p: Parser, f: Frame, rest: seq<Byte>)
    requires f.Sendable() && AwaitsPayload(p, f, rest)
    ensures var (q, outputs) := Received(p.(buffer := rest), f);
            ParseBuffer(p) == Then(outputs, ParseBuffer(q))
  {
    if f.payload == [] {
      EmptyPayloadIsParsed(p, f, rest);
    } else {
      FullPayloadIsParsed(p, f, rest);
    }
    assert Step(p) == ParsePayloadData(p);
  }

  /** A frame at the head of the buffer is received whole, and what follows is parsed from there. */
  lemma FrameIsReceived(p: Parser, f: Frame, rest: seq<Byte>)
    requires f.Sendable() && p.parsingState.ParsingFrame?
    requires p.buffer == WritePayload(f, !p.isClientNode) + rest
    ensures var (q, outputs) := Received(p.(buffer := rest), f);
            ParseBuffer(p) == Then(outputs, ParseBuffer(q))
  {
    var h := HeaderOf(f, !p.isClientNode);
    var body := Masked(f, !p.isClientNode) + rest;
    var tail := KeyBytes(f, !p.isClientNode) + body;
    Regroup([h.b0, h.b1], SizeBytes(|f.payload|), KeyBytes(f, !p.isClientNode), Masked(f, !p.isClientNode), rest);
    SizeIsParsed(p, f, tail);
    KeyIsParsed(Sized(p, f, tail), f, body);
    var q := Keyed(Sized(p, f, tail), f, body);
    PayloadIsParsed(q, f, rest);
    KeyedArrives(p, f, tail, body, rest);
  }

  lemma KeyedArrives(p: Parser, f: Frame, tail: seq<Byte>, body: seq<Byte>, rest: seq<Byte>)
    requires f.Sendable()
    ensures Received(Keyed(Sized(p, f, tail), f, body).(buffer := rest), f) == Received(p.(buffer := rest), f)
  {
    assert Arrived(Keyed(Sized(p, f, tail), f, body).(buffer := rest), f) == Arrived(p.(buffer := rest), f);
  }

  // ---------- whole streams

  function WriteAll(frames: seq<Frame>, isClientNode: bool): seq<Byte>
    requires forall f :: f in frames ==> f.Sendable()
  {
    if frames == [] then [] else WritePayload(frames[0], isClientNode) + WriteAll(frames[1..], isClientNode)
  }

  function ReceiveAll(p: Parser, frames: seq<Frame>): (Parser, seq<Output>)
    requires forall f :: f in frames ==> f.Sendable()
    decreases |frames|
  {
    if frames == [] then (p, [])
    else
      var (q, outputs) := Received(p, frames[0]);
      var (r, more) := ReceiveAll(q, frames[1..]);
      (r, outputs + more)
  }

  lemma ReceivedKeeps(p: Parser, f: Frame, rest: seq<Byte>)
    requires f.Sendable()
    ensures Received(p.(buffer := rest), f) == (Received(p, f).0.(buffer := rest), Received(p, f).1)
    ensures Received(p, f).0.parsingState.ParsingFrame? && Received(p, f).0.isClientNode == p.isClientNode
    ensures Received(p, f).0.buffer == p.buffer
    ensures !p.connection.Closed? ==> !Received(p, f).0.connection.Closed?
  {
  }

  lemma {:induction false} StreamIsReceived(p: Parser, frames: seq<Frame>)
    requires forall f :: f in frames ==> f.Sendable()
    requires p.parsingState.ParsingFrame? && p.buffer == []
    ensures var (q, outputs) := ReceiveAll(p, frames);
            ParseBuffer(p.(buffer := WriteAll(frames, !p.isClientNode))) == Run(q, outputs, false)
    decreases |frames|
  {
    if frames == [] {
      assert p.(buffer := []) == p;
    } else {
      var f := frames[0];
      assert f in frames;
      var rest := WriteAll(frames[1..], !p.isClientNode);
      FrameIsReceived(p.(buffer := WritePayload(f, !p.isClientNode) + rest), f, rest);
      ReceivedKeeps(p, f, rest);
      StreamIsReceived(Received(p, f).0, frames[1..]);
    }
  }

  /** Whatever the reads are, a peer receives the frames that the other side has written. */
  lemma ReadsReceiveFrames(p: Parser, frames: seq<Frame>, chunks: seq<seq<Byte>>)
    requires forall f :: f in frames ==> f.Sendable()
    requires p.parsingState.ParsingFrame? && p.buffer == [] && !p.connection.Closed?
    requires chunks != [] && Concat(chunks) == WriteAll(frames, !p.isClientNode)
    ensures var (q, outputs) := ReceiveAll(p, frames); ReadAll(p, chunks) == Run(q, outputs, false)
  {
    StreamIsReceived(p, frames);
    assert [] + Concat(chunks) == Concat(chunks);
    assert With(p, Concat(chunks)) == p.(buffer := Concat(chunks));
    ReadsAreOneRead(p, chunks);
  }

  // ---------- messages that are delivered

  /** Data in one frame and not empty, or a ping or pong. */
  predicate Plain(f: Frame) {
    f.Sendable() && f.fin && (if f.opcode >= 8 then f.opcode == PING || f.opcode == PONG else f.opcode != CONTINUATION && f.payload != [])
  }

  function Expected(frames: seq<Frame>): seq<Output> {
    if frames == [] then []
    else
      var f := frames[0];
      [if f.opcode == PING then SendFrame(PONG, f.payload) else if f.opcode == PONG then PongReceived(f.payload) else NewMessage(f.payload)]
      + Expected(frames[1..])
  }

  lemma PlainIsReceived(p: Parser, f: Frame)
    requires Plain(f) && p.payload == []
    ensures Received(p, f).0.payload == []
    ensures Received(p, f).1 == Expected([f])
  {
    HeaderBits(f, !p.isClientNode);
    assert [] + f.payload == f.payload;
    assert [f][1..] == [];
  }

  lemma {:induction false} PlainAreReceived(p: Parser, frames: seq<Frame>)
    requires forall f :: f in frames ==> f.Sendable() && Plain(f)
    requires p.payload == []
    ensures ReceiveAll(p, frames).1 == Expected(frames) && ReceiveAll(p, frames).0.payload == []
    decreases |frames|
  {
    if frames != [] {
      assert frames[0] in frames;
      PlainIsReceived(p, frames[0]);
      PlainAreReceived(Received(p, frames[0]).0, frames[1..]);
    }
  }

  /** Unfragmented messages and pings arrive exactly, in order, once each, for every way of cutting the stream. */
  lemma MessagesArrive(p: Parser, frames: seq<Frame>, chunks: seq<seq<Byte>>)
    requires forall f :: f in frames ==> f.Sendable() && Plain(f)
    requires p.parsingState.ParsingFrame? && p.buffer == [] && !p.connection.Closed? && p.payload == []
    requires chunks != [] && Concat(chunks) == WriteAll(frames, !p.isClientNode)
    ensures ReadAll(p, chunks).outputs == Expected(frames)
  {
    ReadsReceiveFrames(p, frames, chunks);
    PlainAreReceived(p, frames);
  }

  // ---------- closing

  predicate AtBoundary(p: Parser) {
    p.parsingState.ParsingFrame? && p.buffer == [] && p.payload == []
  }

  predicate IsClose(f: Frame, data: seq<Byte>) {
    f.Sendable() && f.fin && f.opcode == CONNECTION_CLOSE && f.payload == data
  }

  lemma CloseIsReceived(p: Parser, f: Frame, data: seq<Byte>)
    requires AtBoundary(p) && IsClose(f, data)
    ensures Received(p, f).1 == if p.connection.Closing? then [CloseSocket]
                                else [SendFrame(CONNECTION_CLOSE, data)] + if p.isClientNode then [] else [CloseSocket]
    ensures !p.connection.Closing? ==> Received(p, f).0.connection.Closing?
    ensures p.connection.Closing? ==> Received(p, f).0.connection.Closing?
  {
    HeaderBits(f, !p.isClientNode);
    Neutral(f.payload);
  }

  lemma OneFrameIsReceived(p: Parser, f: Frame, chunks: seq<seq<Byte>>)
    requires AtBoundary(p) && !p.connection.Closed? && f.Sendable()
    requires chunks != [] && Concat(chunks) == WritePayload(f, !p.isClientNode)
    ensures ReadAll(p, chunks) == Run(Received(p, f).0, Received(p, f).1, false)
  {
    hide Received;
    assert [f][1..] == [];
    Neutral(WritePayload(f, !p.isClientNode));
    Neutral(Received(p, f).1);
    ReadsReceiveFrames(p, [f], chunks);
  }

  /** The closing handshake (RFC 6455, section 5.5.1), whichever side p begins it and however the bytes are read: the
      peer returns the code, both sides are closing, and the socket is closed by p, and by the peer if that is the server. */
  lemma ClosingHandshake(p: Parser, peer: Parser, code: nat, request: Frame, answer: Frame, there: seq<seq<Byte>>, back: seq<seq<Byte>>)
    requires AtBoundary(p) && AtBoundary(peer) && p.connection.Open? && peer.connection.Open? && peer.isClientNode == !p.isClientNode
    requires IsClose(request, BigEndian(code, 2)) && IsClose(answer, BigEndian(code, 2))
    requires there != [] && Concat(there) == WritePayload(request, p.isClientNode)
    requires back != [] && Concat(back) == WritePayload(answer, peer.isClientNode)
    ensures Close(p, code).1 == [SendFrame(CONNECTION_CLOSE, request.payload)]
    ensures ReadAll(peer, there).outputs == [SendFrame(CONNECTION_CLOSE, answer.payload)] + if peer.isClientNode then [] else [CloseSocket]
    ensures ReadAll(Close(p, code).0, back).outputs == [CloseSocket]
    ensures ReadAll(peer, there).parser.connection.Closing? && ReadAll(Close(p, code).0, back).parser.connection.Closing?
  {
    var closing := Close(p, code).0;
    OneFrameIsReceived(peer, request, there);
    OneFrameIsReceived(closing, answer, back);
    CloseIsReceived(peer, request, BigEndian(code, 2));
    CloseIsReceived(closing, answer, BigEndian(code, 2));
  }

  /** What an open side does about a violation: close with a code, error, and the socket is closed. */
  function Refusal(code: nat): seq<Output> {
    [SendFrame(CONNECTION_CLOSE, BigEndian(code, 2)), ReportError, CloseSocket]
  }

  /** Frames that are masked as the reader's own would be are refused, and so are fragmented control frames (RFC 6455,
      sections 5.1 and 5.5): no message is emitted from there on. */
  lemma ViolationIsRefused(p: Parser, h: Header, rest: seq<Byte>)
    requires p.parsingState.ParsingFrame? && p.connection.Open? && p.buffer == [h.b0, h.b1] + rest
    requires h.Masked() == p.isClientNode || (!h.Fin() && h.Opcode() >= 8)
    ensures ParseBuffer(p).failed && ParseBuffer(p).outputs == Refusal(PROTOCOL_ERROR) && ParseBuffer(p).parser.connection.Closing?
  {
    hide Header.Masked;
    assert Header(p.buffer[0], p.buffer[1]) == h;
    var o := Step(p);
    assert o.verdict.Failed?;
    var close := [SendFrame(CONNECTION_CLOSE, BigEndian(PROTOCOL_ERROR, 2))];
    assert close + [ReportError, CloseSocket] == Refusal(PROTOCOL_ERROR);
  }

  lemma OwnRoleIsRefused(p: Parser, f: Frame, rest: seq<Byte>)
    requires f.Sendable() && p.parsingState.ParsingFrame? && p.connection.Open?
    requires p.buffer == WritePayload(f, p.isClientNode) + rest
    ensures ParseBuffer(p).failed && ParseBuffer(p).outputs == Refusal(PROTOCOL_ERROR)
  {
    var h := HeaderOf(f, p.isClientNode);
    HeaderBits(f, p.isClientNode);
    Regroup([h.b0, h.b1], SizeBytes(|f.payload|), KeyBytes(f, p.isClientNode), Masked(f, p.isClientNode), rest);
    ViolationIsRefused(p, h, SizeBytes(|f.payload|) + (KeyBytes(f, p.isClientNode) + (Masked(f, p.isClientNode) + rest)));
  }

  /** A control frame of no known kind is an error. */
  lemma UnknownControlIsRefused(p: Parser, f: Frame)
    requires AtBoundary(p) && p.connection.Open? && f.Sendable() && f.fin && f.opcode > PONG
    ensures Received(p, f).1 == [ReportError, SendFrame(CONNECTION_CLOSE, BigEndian(UNKNOWN_ERROR, 2)), CloseSocket]
    ensures Received(p, f).0.connection.Closing? && Received(p, f).0.payload == []
  {
    HeaderBits(f, !p.isClientNode);
  }

  // ---------- messages that are not

  /** A message as its sender may cut it (RFC 6455, section 5.4): the first frame names the kind of data, the
      others continue it, and the last is final. Every frame has its own key. */
  predicate IsMessage(frames: seq<Frame>) {
    && frames != []
    && forall i :: 0 <= i < |frames| ==>
         && frames[i].Sendable() && frames[i].opcode < 8
         && (frames[i].fin <==> i == |frames| - 1)
         && (frames[i].opcode == CONTINUATION <==> i > 0)
  }

  function Data(frames: seq<Frame>): seq<Byte> {
    if frames == [] then [] else frames[0].payload + Data(frames[1..])
  }

  /** The frames of a message after the first ones have been received. */
  predicate IsTail(frames: seq<Frame>) {
    && frames != []
    && forall i :: 0 <= i < |frames| ==>
         frames[i].Sendable() && frames[i].opcode == CONTINUATION && (frames[i].fin <==> i == |frames| - 1)
  }

  lemma FragmentIsReceived(p: Parser, f: Frame)
    requires f.Sendable() && !f.fin && p.payload == []
    ensures Received(p, f).1 == [] && Received(p, f).0.payload == [] && Received(p, f).0.fragment == p.fragment + f.payload
    ensures f.payload != [] ==> Received(p, f).0.fragmentOpcode == if f.opcode == CONTINUATION then p.fragmentOpcode else f.opcode
  {
    HeaderBits(f, !p.isClientNode);
    assert [] + f.payload == f.payload;
    assert p.fragment + [] == p.fragment;
  }

  /** The last frame of a fragmented message: without its data nothing is emitted, and with data all but that. */
  lemma LastFragmentIsReceived(p: Parser, f: Frame)
    requires f.Sendable() && f.fin && f.opcode == CONTINUATION && p.payload == []
    ensures f.payload == [] ==> Received(p, f).1 == [] && Received(p, f).0.fragment == p.fragment && Received(p, f).0.payload == []
    ensures f.payload != [] ==>
              Received(p, f).1 == [NewMessage(p.fragment)] && Received(p, f).0.fragment == [] && Received(p, f).0.payload == f.payload
  {
    HeaderBits(f, !p.isClientNode);
    assert [] + f.payload == f.payload;
  }

  /** The continuations of a message. If the last has data, what came before it is emitted and its own data stays behind;
      otherwise nothing is emitted, and the whole message stays behind. */
  lemma {:induction false} TailIsReceived(p: Parser, frames: seq<Frame>)
    requires IsTail(frames) && p.payload == []
    ensures var (q, outputs) := ReceiveAll(p, frames); var last := frames[|frames| - 1].payload;
            if last == [] then outputs == [] && q.fragment == p.fragment + Data(frames) && q.payload == []
            else outputs == [NewMessage(p.fragment + Data(frames[..|frames| - 1]))] && q.fragment == [] && q.payload == last
    decreases |frames|
  {
    hide Received;
    var f, rest := frames[0], frames[1..];
    var (q, outputs) := Received(p, f);
    if |frames| == 1 {
      LastFragmentIsReceived(p, f);
      assert rest == [] && frames[..0] == [];
      Neutral(outputs);
      Neutral(f.payload);
      Neutral(p.fragment);
    } else {
      FragmentIsReceived(p, f);
      assert IsTail(rest);
      TailIsReceived(q, rest);
      Neutral(ReceiveAll(q, rest).1);
      Assoc(p.fragment, f.payload, Data(rest));
      var before := rest[..|rest| - 1];
      assert frames[..|frames| - 1] == [f] + before && ([f] + before)[1..] == before;
      Assoc(p.fragment, f.payload, Data(before));
    }
  }

  /** So the message itself is never emitted. */
  lemma TailIsCut(p: Parser, frames: seq<Frame>)
    requires IsTail(frames) && p.payload == []
    ensures ReceiveAll(p, frames).1 != [NewMessage(p.fragment + Data(frames))]
  {
    TailIsReceived(p, frames);
    if frames[|frames| - 1].payload != [] {
      LastIsLonger(p, frames);
    }
  }

  lemma LastIsLonger(p: Parser, frames: seq<Frame>)
    requires IsTail(frames) && frames[|frames| - 1].payload != []
    ensures [NewMessage(p.fragment + Data(frames[..|frames| - 1]))] != [NewMessage(p.fragment + Data(frames))]
  {
    var n := |frames| - 1;
    DataConcat(frames[..n], [frames[n]]);
    assert frames == frames[..n] + [frames[n]] && [frames[n]][1..] == [];
    var less, all := p.fragment + Data(frames[..n]), p.fragment + Data(frames);
    assert |all| == |less| + |frames[n].payload|;
    assert [NewMessage(less)][0].data == less && [NewMessage(all)][0].data == all;
  }

  lemma {:induction false} DataConcat(a: seq<Frame>, b: seq<Frame>)
    ensures Data(a + b) == Data(a) + Data(b)
  {
    if a == [] {
      Neutral(b);
      Neutral(Data(b));
    } else {
      assert (a + b)[1..] == a[1..] + b;
      DataConcat(a[1..], b);
      Assoc(a[0].payload, Data(a[1..]), Data(b));
    }
  }

  lemma SingleFrameIsReceived(p: Parser, f: Frame)
    requires f.Sendable() && f.fin && 0 < f.opcode < 8 && p.payload == []
    ensures Received(p, f).1 == if f.payload == [] then [] else [NewMessage(f.payload)]
  {
    HeaderBits(f, !p.isClientNode);
    assert [] + f.payload == f.payload;
  }

  lemma FragmentsAreReceived(p: Parser, frames: seq<Frame>)
    requires IsMessage(frames) && |frames| > 1 && (forall f :: f in frames ==> f.Sendable())
    requires p.payload == [] && p.fragment == []
    ensures ReceiveAll(p, frames).1 != [NewMessage(Data(frames))]
  {
    hide Received;
    FragmentIsReceived(p, frames[0]);
    var q := Received(p, frames[0]).0;
    TailIsCut(q, frames[1..]);
    Neutral(ReceiveAll(q, frames[1..]).1);
    Neutral(frames[0].payload);
  }

  /** From a clean boundary, a message is delivered as it was sent exactly when it is one frame with some data. */
  lemma DeliveredExactly(p: Parser, frames: seq<Frame>)
    requires IsMessage(frames) && (forall f :: f in frames ==> f.Sendable())
    requires p.payload == [] && p.fragment == []
    ensures ReceiveAll(p, frames).1 == [NewMessage(Data(frames))] <==> |frames| == 1 && frames[0].payload != []
  {
    if |frames| == 1 {
      SingleFrameIsReceived(p, frames[0]);
      assert frames[1..] == [];
      assert Received(p, frames[0]).1 + [] == Received(p, frames[0]).1;
      assert Data(frames) == frames[0].payload + [] == frames[0].payload;
    } else {
      FragmentsAreReceived(p, frames);
    }
  }

  /** The data of a last fragment is not lost: it is put in front of the next message. */
  lemma FragmentLeaks(p: Parser, frames: seq<Frame>, next: Frame)
    requires IsTail(frames) && (forall f :: f in frames ==> f.Sendable()) && frames[|frames| - 1].payload != []
    requires Plain(next) && next.Sendable() && next.opcode < 8 && p.payload == []
    ensures Received(ReceiveAll(p, frames).0, next).1 == [NewMessage(frames[|frames| - 1].payload + next.payload)]
  {
    TailIsReceived(p, frames);
    HeaderBits(next, !ReceiveAll(p, frames).0.isClientNode);
  }

  /** So is it in front of the next control frame: a ping is answered, a pong reported and a close frame returned with
      data of the message. */
  lemma FragmentLeaksIntoControl(p: Parser, frames: seq<Frame>, next: Frame)
    requires IsTail(frames) && (forall f :: f in frames ==> f.Sendable()) && frames[|frames| - 1].payload != []
    requires next.Sendable() && next.opcode in {PING, PONG, CONNECTION_CLOSE} && p.payload == []
    ensures var (q, leaked) := (ReceiveAll(p, frames).0, frames[|frames| - 1].payload + next.payload);
            && (next.opcode == PING ==> Received(q, next).1 == [SendFrame(PONG, leaked)])
            && (next.opcode == PONG ==> Received(q, next).1 == [PongReceived(leaked)])
            && (next.opcode == CONNECTION_CLOSE && !q.connection.Closing? ==> SendFrame(CONNECTION_CLOSE, leaked) in Received(q, next).1)
    ensures Received(ReceiveAll(p, frames).0, next).0.payload == []
  {
    TailIsReceived(p, frames);
    HeaderBits(next, !ReceiveAll(p, frames).0.isClientNode);
    Neutral(frames[|frames| - 1].payload);
  }

  /** Bytes that come after the connection was closed are not looked at. */
  lemma {:induction false} ClosedIgnores(p: Parser, chunks: seq<seq<Byte>>)
    requires p.connection.Closed?
    ensures ReadAll(p, chunks) == Run(With(p, Concat(chunks)), [], false)
    decreases |chunks|
  {
    if chunks == [] {
      Neutral(p.buffer);
    } else {
      ClosedIgnores(With(p, chunks[0]), chunks[1..]);
      Assoc(p.buffer, chunks[0], Concat(chunks[1..]));
    }
  }

  // ---------- control frames between the fragments

  function Controls(frames: seq<Frame>): seq<Frame> {
    if frames == [] then [] else (if frames[0].opcode >= 8 then [frames[0]] else []) + Controls(frames[1..])
  }

  function Fragments(frames: seq<Frame>): seq<Frame> {
    if frames == [] then [] else (if frames[0].opcode < 8 then [frames[0]] else []) + Fragments(frames[1..])
  }

  lemma {:induction false} SendableFragments(frames: seq<Frame>)
    requires forall f :: f in frames ==> f.Sendable()
    ensures forall f :: f in Fragments(frames) ==> f.Sendable()
  {
    if frames != [] {
      SendableFragments(frames[1..]);
    }
  }

  /** Fragments with pings and pongs between them (RFC 6455, section 5.4), up to the final one. */
  predicate IsInterleaved(frames: seq<Frame>) {
    && frames != [] && (forall f :: f in frames ==> f.Sendable())
    && (forall i :: 0 <= i < |frames| - 1 ==> if frames[i].opcode >= 8 then Plain(frames[i]) else !frames[i].fin)
    && frames[|frames| - 1].opcode < 8 && frames[|frames| - 1].fin
  }

  predicate SameData(p: Parser, q: Parser) {
    p.payload == q.payload && p.fragment == q.fragment && p.isClientNode == q.isClientNode
  }

  lemma DataIsReceivedAlike(p: Parser, q: Parser, f: Frame)
    requires SameData(p, q) && f.Sendable() && f.opcode < 8
    ensures Received(p, f).1 == Received(q, f).1 && SameData(Received(p, f).0, Received(q, f).0)
  {
    HeaderBits(f, !p.isClientNode);
  }

  lemma ControlKeepsFragment(p: Parser, f: Frame)
    requires Plain(f) && f.opcode >= 8 && p.payload == []
    ensures Received(p, f).1 == Expected([f]) && SameData(Received(p, f).0, p)
  {
    PlainIsReceived(p, f);
    HeaderBits(f, !p.isClientNode);
  }

  /** Control frames between fragments are answered as they are sent, and do not touch the message. */
  lemma {:induction false} ControlsAreApart(p: Parser, q: Parser, frames: seq<Frame>)
    requires IsInterleaved(frames) && SameData(p, q) && p.payload == []
    requires forall f :: f in Fragments(frames) ==> f.Sendable()
    ensures ReceiveAll(p, frames).1 == Expected(Controls(frames)) + ReceiveAll(q, Fragments(frames)).1
    ensures SameData(ReceiveAll(p, frames).0, ReceiveAll(q, Fragments(frames)).0)
    decreases |frames|
  {
    hide Received, Plain;
    var f, rest := frames[0], frames[1..];
    assert f in frames;
    if |frames| == 1 {
      DataIsReceivedAlike(p, q, f);
      assert Controls(frames) == [] && Fragments(frames) == [f] && [f][1..] == [];
      Neutral(Received(q, f).1);
    } else {
      InterleavedRest(frames);
      var p', outputs := Received(p, f).0, Received(p, f).1;
      var cs, fs := Expected(Controls(rest)), Fragments(rest);
      if f.opcode >= 8 {
        ControlKeepsFragment(p, f);
        ControlsAreApart(p', q, rest);
        assert Fragments(frames) == fs && Controls(frames) == [f] + Controls(rest);
        ExpectedFirst(f, Controls(rest));
        Assoc(outputs, cs, ReceiveAll(q, fs).1);
      } else {
        DataIsReceivedAlike(p, q, f);
        FragmentIsReceived(p, f);
        ControlsAreApart(p', Received(q, f).0, rest);
        assert Controls(frames) == Controls(rest) && Fragments(frames) == [f] + fs && ([f] + fs)[1..] == fs;
        Neutral(ReceiveAll(p', rest).1);
        Neutral(ReceiveAll(Received(q, f).0, fs).1);
      }
    }
  }

  lemma ExpectedFirst(f: Frame, frames: seq<Frame>)
    ensures Expected([f] + frames) == Expected([f]) + Expected(frames)
  {
    assert ([f] + frames)[1..] == frames && [f][1..] == [];
  }

  lemma InterleavedRest(frames: seq<Frame>)
    requires IsInterleaved(frames) && |frames| > 1 && forall f :: f in Fragments(frames) ==> f.Sendable()
    ensures IsInterleaved(frames[1..]) && forall f :: f in Fragments(frames[1..]) ==> f.Sendable()
  {
    forall f | f in Fragments(frames[1..]) ensures f.Sendable() {
      assert f in Fragments(frames);
    }
  }

  /** With control frames between its fragments, too, a message is delivered as it was sent, after their answers,
      exactly when it is one frame with some data. */
  lemma DeliveredBetweenControls(p: Parser, frames: seq<Frame>)
    requires IsInterleaved(frames) && IsMessage(Fragments(frames)) && p.payload == [] && p.fragment == []
    ensures ReceiveAll(p, frames).1 == Expected(Controls(frames)) + [NewMessage(Data(Fragments(frames)))]
            <==> |Fragments(frames)| == 1 && Fragments(frames)[0].payload != []
  {
    hide Received;
    SendableFragments(frames);
    ControlsAreApart(p, p, frames);
    DeliveredExactly(p, Fragments(frames));
    var cs, got, sent := Expected(Controls(frames)), ReceiveAll(p, Fragments(frames)).1, [NewMessage(Data(Fragments(frames)))];
    if cs + got == cs + sent {
      assert got == (cs + got)[|cs|..] && sent == (cs + sent)[|cs|..];
    }
  }
}
