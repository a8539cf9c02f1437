/** 3rdparty/tufao/src/websocket.cpp: the parser as the object that is fed by the socket. Every method is tied to
    the step function with the same name. */
module WebSocketNodes {
  import opened Bytes
  import opened Sequences
  import W = WebSockets

  class WebSocket {
    const isClientNode: bool
    var connection: W.Connection
    var parsingState: W.ParsingState
    var frame: W.Header
    var remainingPayloadSize: nat
    var maskingKey: W.Key
    var maskingIndex: Byte
    var payload: seq<Byte>
    var fragmentOpcode: int
    var fragment: seq<Byte>
    var buffer: seq<Byte>
    var outputs: seq<W.Output>  // signals emitted and socket calls made, in order

    ghost function State(): W.Parser
      reads this
    {
      W.Parser(isClientNode, connection, parsingState, frame, remainingPayloadSize, maskingKey, maskingIndex,
               payload, fragmentOpcode, fragment, buffer)
    }

    /** The state, and the outputs since. */
    twostate predicate Reached(next: W.Parser, emitted: seq<W.Output>)
      reads this
    {
      State() == next && outputs == old(outputs) + emitted
    }

    /** After the handshake. */
    constructor (isClientNode: bool)
      ensures this.isClientNode == isClientNode && outputs == []
      ensures connection.Open? && parsingState.ParsingFrame? && payload == [] && fragment == [] && buffer == []
    {
      this.isClientNode := isClientNode;
      connection, parsingState, frame := W.Open, W.ParsingFrame, W.Header(0, 0);
      remainingPayloadSize, maskingKey, maskingIndex, fragmentOpcode := 0, [0, 0, 0, 0], 0, 0;
      payload, fragment, buffer, outputs := [], [], [], [];
    }

    method Emit(output: W.Output)
      modifies this`outputs
      ensures outputs == old(outputs) + [output]
    {
      outputs := outputs + [output];
    }

    method Close(code: nat)
      modifies this`connection, this`outputs
      ensures Reached(W.Close(old(State()), code).0, W.Close(old(State()), code).1)
    {
      if connection.Closing? || connection.Closed? {
        return;
      }
      Emit(W.SendFrame(W.CONNECTION_CLOSE, BigEndian(code, 2)));
      connection := W.Closing;
    }

    method Refuse()
      modifies this`connection, this`outputs
      ensures Reached(W.Refuse(old(State())).parser, W.Refuse(old(State())).outputs)
    {
      Close(W.PROTOCOL_ERROR);
      Emit(W.ReportError);
      Emit(W.CloseSocket);
    }

    method ReadHeader()
      requires |buffer| >= 2
      modifies this`frame, this`buffer
      ensures State() == old(State()).(frame := W.Header(old(buffer)[0], old(buffer)[1]), buffer := old(buffer)[2..])
    {
      frame := W.Header(buffer[0], buffer[1]);
      buffer := buffer[2..];
    }

    method ParseFrame() returns (more: bool)
      modifies this
      ensures Reached(W.ParseFrame(old(State())).parser, W.ParseFrame(old(State())).outputs)
      ensures more == W.ParseFrame(old(State())).verdict.Again?
    {
      if |buffer| < 2 {
        return false;
      }
      ReadHeader();
      if !frame.Fin() && frame.IsControlFrame() {
        Refuse();
        return false;
      }
      if (frame.Masked() && isClientNode) || (!frame.Masked() && !isClientNode) {
        Refuse();
        return false;
      }
      if frame.PayloadLength() == 126 {
        parsingState := W.ParsingSize16;
      } else if frame.PayloadLength() == 127 {
        parsingState := W.ParsingSize64;
      } else {
        remainingPayloadSize := frame.PayloadLength();
        parsingState := if !isClientNode then W.ParsingMaskingKey else W.ParsingPayloadData;
      }
      return true;
    }

    /** parseSize16 and parseSize64. */
    method ParseSize(size: nat) returns (more: bool)
      requires size > 0
      modifies this`remainingPayloadSize, this`buffer, this`parsingState
      ensures Reached(W.ParseSize(old(State()), size).parser, [])
      ensures more == W.ParseSize(old(State()), size).verdict.Again?
    {
      if |buffer| < size {
        return false;
      }
      remainingPayloadSize := FromBigEndian(buffer[..size]);
      buffer := buffer[size..];
      parsingState := if !isClientNode then W.ParsingMaskingKey else W.ParsingPayloadData;
      return true;
    }

    method ParseMaskingKey() returns (more: bool)
      modifies this`maskingIndex, this`maskingKey, this`buffer, this`parsingState
      ensures Reached(W.ParseMaskingKey(old(State())).parser, [])
      ensures more == W.ParseMaskingKey(old(State())).verdict.Again?
    {
      if |buffer| < 4 {
        return false;
      }
      maskingIndex := 0;
      maskingKey := buffer[..4];
      buffer := buffer[4..];
      parsingState := W.ParsingPayloadData;
      return true;
    }

    /** decodeFragment, byte by byte. */
    method DecodeFragment(chunk: seq<Byte>) returns (decoded: seq<Byte>)
      modifies this`maskingIndex
      ensures decoded == if isClientNode then chunk else W.Unmask(chunk, maskingKey, old(maskingIndex))
      ensures maskingIndex == if isClientNode then old(maskingIndex) else W.Advance(old(maskingIndex), |chunk|)
    {
      if isClientNode {
        return chunk;
      }
      decoded := [];
      for i := 0 to |chunk|
        invariant |decoded| == i
        invariant decoded + W.Unmask(chunk[i..], maskingKey, maskingIndex) == W.Unmask(chunk, maskingKey, old(maskingIndex))
        invariant W.Advance(maskingIndex, |chunk| - i) == W.Advance(old(maskingIndex), |chunk|)
      {
        var byte := Xor(chunk[i], maskingKey[maskingIndex % 4]);
        assert chunk[i..][0] == chunk[i] && chunk[i..][1..] == chunk[i + 1..];
        Assoc(decoded, [byte], W.Unmask(chunk[i + 1..], maskingKey, W.Next(maskingIndex)));
        decoded := decoded + [byte];
        maskingIndex := W.Next(maskingIndex);
      }
    }

    method TakeChunk()
      modifies this`buffer, this`remainingPayloadSize, this`maskingIndex, this`payload
      ensures State() == W.TakeChunk(old(State()))
    {
      ghost var chunkSpec := W.NextChunk(State());
      var chunk := W.Left(buffer, W.LeftArgument(remainingPayloadSize));
      assert chunk == chunkSpec;
      buffer := buffer[|chunk|..];
      remainingPayloadSize := remainingPayloadSize - |chunk|;
      var decoded := DecodeFragment(chunk);
      payload := payload + decoded;
    }

    method EvaluateControlFrame()
      modifies this`connection, this`payload, this`outputs
      ensures Reached(W.EvaluateControlFrame(old(State())).0, W.EvaluateControlFrame(old(State())).1)
    {
      var opcode := frame.Opcode();
      if opcode == W.CONNECTION_CLOSE {
        if connection.Closing? {
          Emit(W.CloseSocket);
        } else {
          Emit(W.SendFrame(W.CONNECTION_CLOSE, payload));
          connection := W.Closing;
          if !isClientNode {
            Emit(W.CloseSocket);
          }
        }
      } else if opcode == W.PING {
        Emit(W.SendFrame(W.PONG, payload));
      } else if opcode == W.PONG {
        Emit(W.PongReceived(payload));
      } else {
        Emit(W.ReportError);
        Close(W.UNKNOWN_ERROR);
        Emit(W.CloseSocket);
      }
      payload := [];
    }

    /** The end of parsePayloadData. */
    method Complete()
      modifies this
      ensures Reached(W.Complete(old(State())).0, W.Complete(old(State())).1)
    {
      if frame.Fin() {
        if frame.IsControlFrame() {
          EvaluateControlFrame();
        } else if frame.Opcode() == W.CONTINUATION {
          var chunk := fragment;
          fragment := [];
          Emit(W.NewMessage(chunk));
        } else {
          var chunk := payload;
          payload := [];
          Emit(W.NewMessage(chunk));
        }
      } else {
        fragment := fragment + payload;
        payload := [];
        if frame.Opcode() != W.CONTINUATION {
          fragmentOpcode := frame.Opcode();
        }
      }
    }

    method ParsePayloadData() returns (more: bool)
      modifies this
      ensures Reached(W.ParsePayloadData(old(State())).parser, W.ParsePayloadData(old(State())).outputs)
      ensures more == W.ParsePayloadData(old(State())).verdict.Again?
    {
      if remainingPayloadSize == 0 {
        if frame.IsControlFrame() {
          EvaluateControlFrame();
        }
        parsingState := W.ParsingFrame;
        return true;
      }
      if buffer == [] {
        return false;
      }
      TakeChunk();
      if remainingPayloadSize != 0 {
        return false;
      }
      parsingState := W.ParsingFrame;
      Complete();
      return true;
    }

    /** One turn of the loop. */
    method ParseOne() returns (more: bool)
      modifies this
      ensures Reached(W.Step(old(State())).parser, W.Step(old(State())).outputs)
      ensures more == W.Step(old(State())).verdict.Again?
    {
      match parsingState
      case ParsingFrame => more := ParseFrame();
      case ParsingSize16 => more := ParseSize(2);
      case ParsingSize64 => more := ParseSize(8);
      case ParsingMaskingKey => more := ParseMaskingKey();
      case ParsingPayloadData => more := ParsePayloadData();
    }

    /** The loop ends: every turn uses up bytes, or leaves an empty payload for the next frame. */
    method ParseBuffer()
      modifies this
      ensures Reached(W.ParseBuffer(old(State())).parser, W.ParseBuffer(old(State())).outputs)
    {
      ghost var run := W.ParseBuffer(State());
      ghost var emitted := [];
      var more := true;
      while more
        invariant outputs == old(outputs) + emitted
        invariant more ==> run == W.Then(emitted, W.ParseBuffer(State()))
        invariant !more ==> run.parser == State() && run.outputs == emitted
        decreases more, |buffer|, if parsingState.ParsingPayloadData? then 1 else 0
      {
        ghost var step := W.Step(State());
        more := ParseOne();
        Assoc(old(outputs), emitted, step.outputs);
        Assoc(emitted, step.outputs, W.ParseBuffer(step.parser).outputs);
        emitted := emitted + step.outputs;
      }
    }

    method ReadData(data: seq<Byte>)
      modifies this
      ensures Reached(W.ReadData(old(State()), data).parser, W.ReadData(old(State()), data).outputs)
    {
      buffer := buffer + data;
      if connection.Open? || connection.Closing? {
        ParseBuffer();
      }
    }
  }
}
