/** 3rdparty/tufao/src/httpserverresponse.cpp: the response as the object that writes to its device. Every method is
    tied to the function with the same name. */
module HttpServerResponses {
  import opened HttpResponses
  import opened Sequences

  class HttpServerResponse {
    const http10: bool
    const keepAlive: bool
    var state: FormattingState
    var headers: seq<Field>
    var http10Buffer: string
    var head: string  // what the device has got up to the blank line
    var body: string  // and after it
    var closed: bool
    var finished: nat

    ghost function State(): Response
      reads this
    {
      Response(http10, keepAlive, state, headers, http10Buffer, head, body, closed, finished)
    }

    constructor (http10: bool, keepAlive: bool)
      ensures State() == New(http10, keepAlive)
    {
      this.http10, this.keepAlive := http10, keepAlive;
      state, headers, http10Buffer, head, body, closed, finished := StatusLine, [], "", "", "", false, 0;
    }

    /** The header lines of a list, one by one. */
    method FieldText(fields: seq<Field>) returns (text: string)
      ensures text == FieldLines(fields)
    {
      text := "";
      for i := 0 to |fields|
        invariant text + FieldLines(fields[i..]) == FieldLines(fields)
      {
        assert fields[i..][0] == fields[i] && fields[i..][1..] == fields[i + 1..];
        Assoc(text, FieldLine(fields[i]), FieldLines(fields[i + 1..]));
        text := text + FieldLine(fields[i]);
      }
      Neutral(text);
    }

    method WriteHead(statusCode: nat, reasonPhrase: string, fields: seq<Field>) returns (ok: bool)
      modifies this`head, this`state
      ensures (State(), ok) == HttpResponses.WriteHead(old(State()), statusCode, reasonPhrase, fields)
    {
      if state != StatusLine {
        return false;
      }
      var lines := FieldText(fields);
      if http10 {
        head := head + "HTTP/1.0 ";
      } else {
        head := head + "HTTP/1.1 ";
      }
      head := head + Number(statusCode, 10) + " " + reasonPhrase + CRLF + lines;
      state := Headers;
      return true;
    }

    method FlushHeaders()
      modifies this`head, this`state
      ensures State() == HttpResponses.Flush(old(State()), headers)
    {
      var lines := FieldText(headers);
      head := head + lines + CRLF;
      state := MessageBody;
    }

    method SetChunkedHeaders()
      modifies this`headers
      ensures headers == ChunkedHeaders(old(State()))
    {
      if keepAlive {
        headers := Replace(headers, "Connection", "keep-alive");
      } else {
        headers := Replace(headers, "Connection", "close");
      }
      headers := Insert(headers, "Transfer-Encoding", "chunked");
    }

    method Write(chunk: string) returns (ok: bool)
      modifies this`headers, this`http10Buffer, this`head, this`body, this`state
      ensures (State(), ok) == HttpResponses.Write(old(State()), chunk)
    {
      if |chunk| == 0 {
        return false;
      }
      if http10 {
        if state == StatusLine || state == End {
          return false;
        }
        http10Buffer := http10Buffer + chunk;
        return true;
      }
      if state == StatusLine || state == End || state == Trailers {
        return false;
      }
      if state == Headers {
        SetChunkedHeaders();
        FlushHeaders();
      }
      body := body + Chunk(chunk);
      return true;
    }

    method AddTrailers(fields: seq<Field>) returns (ok: bool)
      modifies this`body, this`state
      ensures (State(), ok) == HttpResponses.AddTrailers(old(State()), fields)
    {
      if http10 || state == StatusLine || state == End || state == Headers {
        return false;
      }
      if state == MessageBody {
        body := body + LAST_CHUNK;
        state := Trailers;
      }
      var lines := FieldText(fields);
      body := body + lines;
      return true;
    }

    method Finish(close: bool)
      modifies this`closed, this`state, this`finished
      ensures State() == HttpResponses.Finish(old(State()), close)
    {
      if close {
        closed := true;
      }
      state := End;
      finished := finished + 1;
    }

    /** The body part of end. */
    method EndBody(chunk: string)
      requires state == MessageBody
      modifies this`body, this`http10Buffer, this`closed, this`state, this`finished
      ensures State() == if http10 then EndHttp10(old(State()), chunk) else EndChunked(old(State()), chunk)
    {
      if http10 {
        body := body + http10Buffer + chunk;
        http10Buffer := "";
        Finish(true);
      } else {
        if |chunk| != 0 {
          body := body + Chunk(chunk);
        }
        Assoc(body, LAST_CHUNK, CRLF);
        body := body + LAST_CHUNK;
        state := Trailers;
        body := body + CRLF;
        Finish(!keepAlive);
      }
    }

    method EndWith(chunk: string) returns (ok: bool)
      modifies this
      ensures (State(), ok) == HttpResponses.EndWith(old(State()), chunk)
    {
      match state
      case StatusLine => ok := false;
      case End => ok := false;
      case Headers =>
        if http10 {
          headers := Replace(headers, "Content-Length", Number(|http10Buffer| + |chunk|, 10));
        } else {
          SetChunkedHeaders();
        }
        FlushHeaders();
        EndBody(chunk);
        ok := true;
      case MessageBody =>
        EndBody(chunk);
        ok := true;
      case Trailers =>
        body := body + CRLF;
        Finish(!keepAlive);
        ok := true;
    }
  }
}
