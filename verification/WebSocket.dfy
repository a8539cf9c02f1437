/** 3rdparty/tufao/src/websocket.cpp: the incremental frame parser (RFC 6455, sections 5.2 to 5.5), as functions on
    the parser's state, and the frame writer of priv/websocket.h that it has to undo. */
module WebSockets {
  import opened Bytes
  import opened Sequences

  // ---------- state

  type Key = k: seq<Byte> | |k| == 4 witness [0, 0, 0, 0]

  datatype Connection = Open | Closing | Closed

  datatype ParsingState = ParsingFrame | ParsingSize16 | ParsingSize64 | ParsingMaskingKey | ParsingPayloadData

  /** The first two bytes of a frame. */
  datatype Header = Header(b0: Byte, b1: Byte) {
    predicate Fin() { b0 >= 128 }

    function Opcode(): int { b0 % 16 }

    predicate IsControlFrame() { b0 / 8 % 2 == 1 }

    predicate Masked() { b1 >= 128 }

    function PayloadLength(): int { b1 % 128 }
  }

  const CONTINUATION := 0
  const CONNECTION_CLOSE := 8
  const PING := 9
  const PONG := 10

  const PROTOCOL_ERROR := 1002
  const UNKNOWN_ERROR := 1008

  datatype Parser = Parser(
    isClientNode: bool,
    connection: Connection,
    parsingState: ParsingState,
    frame: Header,
    remainingPayloadSize: nat,
    maskingKey: Key,
    maskingIndex: Byte,
    payload: seq<Byte>,
    fragmentOpcode: int,
    fragment: seq<Byte>,
    buffer: seq<Byte>)

  /** Signals and what is done to the socket. */
  datatype Output =
    | NewMessage(data: seq<Byte>)
    | PongReceived(data: seq<Byte>)
    | SendFrame(opcode: int, data: seq<Byte>)
    | ReportError
    | CloseSocket

  // ---------- single steps

  /** Whether parseBuffer goes on, and if not, why. */
  datatype Verdict = Again | NeedData | Failed

  datatype Outcome = Outcome(parser: Parser, outputs: seq<Output>, verdict: Verdict)

  /** close(code). */
  function Close(p: Parser, code: nat): (Parser, seq<Output>) {
    if !p.connection.Open? then (p, [])
    else (p.(connection := Closing), [SendFrame(CONNECTION_CLOSE, BigEndian(code, 2))])
  }

  function Refuse(p: Parser): Outcome {
    var (closed, outputs) := Close(p, PROTOCOL_ERROR);
    Outcome(closed, outputs + [ReportError, CloseSocket], Failed)
  }

  function AfterSize(isClientNode: bool): ParsingState {
    if isClientNode then ParsingPayloadData else ParsingMaskingKey
  }

  function ParseFrame(p: Parser): Outcome {
    if |p.buffer| < 2 then Outcome(p, [], NeedData)
    else
      var h := Header(p.buffer[0], p.buffer[1]);
      var q := p.(frame := h, buffer := p.buffer[2..]);
      if !h.Fin() && h.IsControlFrame() then Refuse(q)
      else if h.Masked() == p.isClientNode then Refuse(q)
      else if h.PayloadLength() == 126 then Outcome(q.(parsingState := ParsingSize16), [], Again)
      else if h.PayloadLength() == 127 then Outcome(q.(parsingState := ParsingSize64), [], Again)
      else Outcome(q.(remainingPayloadSize := h.PayloadLength(), parsingState := AfterSize(p.isClientNode)), [], Again)
  }

  function ParseSize(p: Parser, size: nat): Outcome
    requires size > 0
  {
    if |p.buffer| < size then Outcome(p, [], NeedData)
    else Outcome(p.(remainingPayloadSize := FromBigEndian(p.buffer[..size]), buffer := p.buffer[size..],
                    parsingState := AfterSize(p.isClientNode)), [], Again)
  }

  function ParseMaskingKey(p: Parser): Outcome {
    if |p.buffer| < 4 then Outcome(p, [], NeedData)
    else Outcome(p.(maskingIndex := 0, maskingKey := p.buffer[..4], buffer := p.buffer[4..], parsingState := ParsingPayloadData), [], Again)
  }

  /** The argument of QByteArray::left is an int: a 64-bit size is cut to its low 32 bits. */
  function LeftArgument(n: nat): (i: int)
    ensures i <= n
    ensures n < 0x8000_0000 ==> i == n
  {
    var low := n % 0x1_0000_0000;
    if low >= 0x8000_0000 then low - 0x1_0000_0000 else low
  }

  function Left(s: seq<Byte>, n: int): seq<Byte> {
    if n < 0 then [] else if n >= |s| then s else s[..n]
  }

  /** The masking index is a quint8 and wraps around. */
  function Next(index: Byte): Byte { if index == 255 then 0 else index + 1 }

  function Advance(index: Byte, n: nat): Byte
    decreases n
  {
    if n == 0 then index else Advance(Next(index), n - 1)
  }

  /** decodeFragment at a server. */
  function Unmask(chunk: seq<Byte>, key: Key, index: Byte): (s: seq<Byte>)
    ensures |s| == |chunk|
  {
    if chunk == [] then [] else [Xor(chunk[0], key[index % 4])] + Unmask(chunk[1..], key, Next(index))
  }

  /** Decodes a chunk and adds it to the payload. */
  function Absorb(p: Parser, chunk: seq<Byte>): Parser
    requires |chunk| <= p.remainingPayloadSize
  {
    var q := p.(remainingPayloadSize := p.remainingPayloadSize - |chunk|);
    if p.isClientNode then q.(payload := p.payload + chunk)
    else q.(payload := p.payload + Unmask(chunk, p.maskingKey, p.maskingIndex), maskingIndex := Advance(p.maskingIndex, |chunk|))
  }

  /** As much of the buffer as the frame still needs. */
  function NextChunk(p: Parser): (chunk: seq<Byte>)
    ensures |chunk| <= p.remainingPayloadSize && chunk <= p.buffer
  {
    Left(p.buffer, LeftArgument(p.remainingPayloadSize))
  }

  function TakeChunk(p: Parser): Parser {
    var chunk := NextChunk(p);
    Absorb(p, chunk).(buffer := p.buffer[|chunk|..])
  }

  function EvaluateControlFrame(p: Parser): (Parser, seq<Output>) {
    var op := p.frame.Opcode();
    var q := p.(payload := []);
    if op == CONNECTION_CLOSE then
      if p.connection.Closing? then (q, [CloseSocket])
      else (q.(connection := Closing), [SendFrame(CONNECTION_CLOSE, p.payload)] + if p.isClientNode then [] else [CloseSocket])
    else if op == PING then (q, [SendFrame(PONG, p.payload)])
    else if op == PONG then (q, [PongReceived(p.payload)])
    else
      var (closed, outputs) := Close(q, UNKNOWN_ERROR);
      (closed, [ReportError] + outputs + [CloseSocket])
  }

  /** What happens when the payload of a frame is complete. A final continuation emits what was collected before
      it, and leaves its own payload where it is. */
  function Complete(p: Parser): (Parser, seq<Output>) {
    if p.frame.Fin() then
      if p.frame.IsControlFrame() then EvaluateControlFrame(p)
      else if p.frame.Opcode() == CONTINUATION then (p.(fragment := []), [NewMessage(p.fragment)])
      else (p.(payload := []), [NewMessage(p.payload)])
    else
      (p.(fragment := p.fragment + p.payload, payload := [],
          fragmentOpcode := if p.frame.Opcode() != CONTINUATION then p.frame.Opcode() else p.fragmentOpcode), [])
  }

  function ParsePayloadData(p: Parser): Outcome {
    if p.remainingPayloadSize == 0 then
      var (q, outputs) := if p.frame.IsControlFrame() then EvaluateControlFrame(p) else (p, []);
      Outcome(q.(parsingState := ParsingFrame), outputs, Again)
    else if p.buffer == [] then Outcome(p, [], NeedData)
    else
      var taken := TakeChunk(p);
      if taken.remainingPayloadSize != 0 then Outcome(taken, [], NeedData)
      else
        var (q, outputs) := Complete(taken.(parsingState := ParsingFrame));
        Outcome(q, outputs, Again)
  }

  /** One turn of the loop. It either uses up bytes, or turns from an empty payload to the next frame. */
  function Step(p: Parser): (o: Outcome)
    ensures o.verdict.Again? ==>
              |o.parser.buffer| < |p.buffer|
              || (o.parser.buffer == p.buffer && p.parsingState.ParsingPayloadData? && o.parser.parsingState.ParsingFrame?)
  {
    match p.parsingState
    case ParsingFrame => ParseFrame(p)
    case ParsingSize16 => ParseSize(p, 2)
    case ParsingSize64 => ParseSize(p, 8)
    case ParsingMaskingKey => ParseMaskingKey(p)
    case ParsingPayloadData => ParsePayloadData(p)
  }

  // ---------- reading

  datatype Run = Run(parser: Parser, outputs: seq<Output>, failed: bool)

  function Then(outputs: seq<Output>, r: Run): Run { r.(outputs := outputs + r.outputs) }

  function ParseBuffer(p: Parser): Run
    decreases |p.buffer|, if p.parsingState.ParsingPayloadData? then 1 else 0
  {
    var o := Step(p);
    if o.verdict.Again? then Then(o.outputs, ParseBuffer(o.parser)) else Run(o.parser, o.outputs, o.verdict.Failed?)
  }

  function With(p: Parser, data: seq<Byte>): Parser { p.(buffer := p.buffer + data) }

  function ReadData(p: Parser, data: seq<Byte>): Run {
    if p.connection.Closed? then Run(With(p, data), [], false) else ParseBuffer(With(p, data))
  }

  // ---------- the cut between two reads does not matter

  lemma {:induction false} AdvanceTwice(index: Byte, m: nat, n: nat)
    ensures Advance(Advance(index, m), n) == Advance(index, m + n)
    decreases m
  {
    if m > 0 {
      AdvanceTwice(Next(index), m - 1, n);
    }
  }

  lemma {:induction false} UnmaskConcat(a: seq<Byte>, b: seq<Byte>, key: Key, index: Byte)
    ensures Unmask(a + b, key, index) == Unmask(a, key, index) + Unmask(b, key, Advance(index, |a|))
  {
    if a == [] {
      assert a + b == b;
    } else {
      UnmaskConcat(a[1..], b, key, Next(index));
      assert (a + b)[1..] == a[1..] + b && (a + b)[0] == a[0];
      var u, v := Unmask(a[1..], key, Next(index)), Unmask(b, key, Advance(index, |a|));
      var first := Xor(a[0], key[index % 4]);
      assert [first] + (u + v) == [first] + u + v;
    }
  }

  lemma LeftArgumentMinus(n: nat, c: nat)
    requires c == 0 || c <= LeftArgument(n)
    ensures LeftArgument(n - c) == LeftArgument(n) - c
  {
  }

  lemma Slices(s: seq<Byte>, b: seq<Byte>, n: nat)
    requires n <= |s|
    ensures (s + b)[..n] == s[..n] && (s + b)[n..] == s[n..] + b
  {
  }

  lemma LeftTwice(s: seq<Byte>, b: seq<Byte>, n: int)
    ensures var c1 := Left(s, n); var c2 := Left(s[|c1|..] + b, n - |c1|);
            Left(s + b, n) == c1 + c2 && (s + b)[|c1 + c2|..] == (s[|c1|..] + b)[|c2|..]
  {
    if n < 0 {
      assert s[0..] == s;
    } else if n < |s| {
      Slices(s, b, n);
      assert s[..n] + [] == s[..n];
    } else {
      assert s[|s|..] + b == b;
      var c2 := Left(b, n - |s|);
      assert s + b == s + (c2 + b[|c2|..]) == s + c2 + b[|c2|..];
    }
  }

  lemma AbsorbTwice(p: Parser, c1: seq<Byte>, c2: seq<Byte>)
    requires |c1| + |c2| <= p.remainingPayloadSize
    ensures Absorb(Absorb(p, c1), c2) == Absorb(p, c1 + c2)
  {
    if p.isClientNode {
      assert p.payload + (c1 + c2) == p.payload + c1 + c2;
    } else {
      var index := Advance(p.maskingIndex, |c1|);
      AdvanceTwice(p.maskingIndex, |c1|, |c2|);
      UnmaskConcat(c1, c2, p.maskingKey, p.maskingIndex);
      Assoc(p.payload, Unmask(c1, p.maskingKey, p.maskingIndex), Unmask(c2, p.maskingKey, index));
    }
  }

  /** Taking a chunk in two parts. */
  lemma TakeChunkTwice(p: Parser, b: seq<Byte>)
    ensures TakeChunk(With(p, b)) == TakeChunk(With(TakeChunk(p), b))
  {
    var n := LeftArgument(p.remainingPayloadSize);
    var q := With(TakeChunk(p), b);
    var c1, c2 := NextChunk(p), NextChunk(q);
    LeftArgumentMinus(p.remainingPayloadSize, |c1|);
    LeftTwice(p.buffer, b, n);
    assert NextChunk(With(p, b)) == c1 + c2;
    AbsorbTwice(p, c1, c2);
  }

  lemma FrameWithMore(p: Parser, b: seq<Byte>)
    requires |p.buffer| >= 2
    ensures ParseFrame(With(p, b)) == ParseFrame(p).(parser := With(ParseFrame(p).parser, b))
  {
    Slices(p.buffer, b, 2);
  }

  lemma SizeWithMore(p: Parser, size: nat, b: seq<Byte>)
    requires |p.buffer| >= size > 0
    ensures ParseSize(With(p, b), size) == ParseSize(p, size).(parser := With(ParseSize(p, size).parser, b))
  {
    Slices(p.buffer, b, size);
  }

  lemma MaskingKeyWithMore(p: Parser, b: seq<Byte>)
    requires |p.buffer| >= 4
    ensures ParseMaskingKey(With(p, b)) == ParseMaskingKey(p).(parser := With(ParseMaskingKey(p).parser, b))
  {
    Slices(p.buffer, b, 4);
  }

  /** A complete payload does not reach into what follows. */
  lemma TakeChunkWithMore(p: Parser, b: seq<Byte>)
    requires p.remainingPayloadSize > 0 && TakeChunk(p).remainingPayloadSize == 0
    ensures TakeChunk(With(p, b)) == With(TakeChunk(p), b)
  {
    var n := LeftArgument(p.remainingPayloadSize);
    assert n == |Left(p.buffer, n)| <= |p.buffer|;
    Slices(p.buffer, b, n);
    assert p.buffer[..|p.buffer|] == p.buffer;
    assert Left(p.buffer + b, n) == Left(p.buffer, n);
  }

  lemma CompleteWithMore(p: Parser, b: seq<Byte>)
    ensures Complete(With(p, b)) == (With(Complete(p).0, b), Complete(p).1)
  {
  }

  lemma PayloadWithMore(p: Parser, b: seq<Byte>)
    requires ParsePayloadData(p).verdict.Again?
    ensures ParsePayloadData(With(p, b)) == ParsePayloadData(p).(parser := With(ParsePayloadData(p).parser, b))
  {
    if p.remainingPayloadSize != 0 {
      TakeChunkWithMore(p, b);
      CompleteWithMore(TakeChunk(p).(parsingState := ParsingFrame), b);
    }
  }

  lemma StepWithMore(p: Parser, b: seq<Byte>)
    requires !Step(p).verdict.NeedData?
    ensures Step(With(p, b)) == Step(p).(parser := With(Step(p).parser, b))
  {
    match p.parsingState
    case ParsingFrame => FrameWithMore(p, b);
    case ParsingSize16 => SizeWithMore(p, 2, b);
    case ParsingSize64 => SizeWithMore(p, 8, b);
    case ParsingMaskingKey => MaskingKeyWithMore(p, b);
    case ParsingPayloadData => PayloadWithMore(p, b);
  }

  lemma PayloadWaits(p: Parser, b: seq<Byte>)
    requires p.remainingPayloadSize != 0 && p.buffer != [] && TakeChunk(p).remainingPayloadSize != 0
    ensures ParsePayloadData(With(p, b)) == ParsePayloadData(With(TakeChunk(p), b))
  {
    var q := With(TakeChunk(p), b);
    TakeChunkTwice(p, b);
    if q.buffer == [] {
      assert b == [] && With(p, b) == p && q == TakeChunk(p);
    }
  }

  lemma StepWaits(p: Parser, b: seq<Byte>)
    requires Step(p).verdict.NeedData?
    ensures Step(p).outputs == []
    ensures Step(With(p, b)) == Step(With(Step(p).parser, b))
  {
    if p.parsingState.ParsingPayloadData? {
      assert p.remainingPayloadSize != 0;
      if p.buffer != [] {
        PayloadWaits(p, b);
      }
    } else {
      assert Step(p).parser == p;
    }
  }

  /** Reading the bytes a and then the bytes b is reading them at once, unless the parser refused a: then it has
      not looked at what follows, which a read at once leaves in the buffer. */
  lemma {:induction false} ParseWithMore(p: Parser, b: seq<Byte>)
    ensures var r := ParseBuffer(p);
            ParseBuffer(With(p, b)) == if r.failed then r.(parser := With(r.parser, b))
                                       else Then(r.outputs, ParseBuffer(With(r.parser, b)))
    decreases |p.buffer|, if p.parsingState.ParsingPayloadData? then 1 else 0
  {
    hide Step;
    var o := Step(p);
    match o.verdict
    case Again =>
      StepWithMore(p, b);
      ParseWithMore(o.parser, b);
      var r := ParseBuffer(o.parser);
      assert o.outputs + (r.outputs + ParseBuffer(With(r.parser, b)).outputs) == o.outputs + r.outputs + ParseBuffer(With(r.parser, b)).outputs;
    case Failed =>
      StepWithMore(p, b);
    case NeedData =>
      StepWaits(p, b);
  }

  lemma ReadTwice(p: Parser, a: seq<Byte>, b: seq<Byte>)
    ensures var r := ReadData(p, a);
            ReadData(p, a + b) == if r.failed then r.(parser := With(r.parser, b)) else Then(r.outputs, ReadData(r.parser, b))
  {
    assert p.buffer + (a + b) == p.buffer + a + b;
    if !p.connection.Closed? {
      ParseWithMore(With(p, a), b);
      StaysConnected(With(p, a));
    }
  }

  lemma StepStaysConnected(p: Parser)
    requires !p.connection.Closed?
    ensures !Step(p).parser.connection.Closed?
  {
    hide Unmask, FromBigEndian;
  }

  lemma {:induction false} StaysConnected(p: Parser)
    requires !p.connection.Closed?
    ensures !ParseBuffer(p).parser.connection.Closed?
    decreases |p.buffer|, if p.parsingState.ParsingPayloadData? then 1 else 0
  {
    hide Step;
    StepStaysConnected(p);
    if Step(p).verdict.Again? {
      StaysConnected(Step(p).parser);
    }
  }

  function ReadAll(p: Parser, chunks: seq<seq<Byte>>): Run
    decreases |chunks|
  {
    if chunks == [] then Run(p, [], false)
    else
      var r := ReadData(p, chunks[0]);
      var rest := ReadAll(r.parser, chunks[1..]);
      Run(rest.parser, r.outputs + rest.outputs, r.failed || rest.failed)
  }

  function Concat(chunks: seq<seq<Byte>>): seq<Byte> {
    if chunks == [] then [] else chunks[0] + Concat(chunks[1..])
  }

  /** However the bytes are cut into reads, they are parsed as if they came at once. */
  lemma {:induction false} ReadsAreOneRead(p: Parser, chunks: seq<seq<Byte>>)
    requires !ReadData(p, Concat(chunks)).failed
    requires chunks != []
    ensures ReadAll(p, chunks) == ReadData(p, Concat(chunks))
    decreases |chunks|
  {
    var r := ReadData(p, chunks[0]);
    ReadTwice(p, chunks[0], Concat(chunks[1..]));
    if |chunks| == 1 {
      assert Concat(chunks) == chunks[0];
      assert ReadAll(r.parser, chunks[1..]) == Run(r.parser, [], false);
    } else {
      ReadsAreOneRead(r.parser, chunks[1..]);
    }
  }
}
