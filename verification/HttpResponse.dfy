/** 3rdparty/tufao/src/httpserverresponse.cpp: the response writer as a state machine. A byte is a character. */
module HttpResponses {

  datatype FormattingState = StatusLine | Headers | MessageBody | Trailers | End {
    function Rank(): nat {
      match this
      case StatusLine => 0
      case Headers => 1
      case MessageBody => 2
      case Trailers => 3
      case End => 4
    }
  }

  datatype Field = Field(name: string, value: string)

  /** head is what is written up to the blank line, body what follows it. */
  datatype Response = Response(
    http10: bool,
    keepAlive: bool,
    state: FormattingState,
    headers: seq<Field>,
    http10Buffer: string,
    head: string,
    body: string,
    closed: bool,
    finished: nat)

  const CRLF := "\r\n"

  // ---------- numbers

  function Digit(d: nat): char
    requires d < 16
  {
    if d < 10 then '0' + d as char else 'a' + (d - 10) as char
  }

  /** QByteArray::number for a size. */
  function Number(n: nat, base: nat): (s: string)
    requires 2 <= base <= 16
    ensures |s| > 0
  {
    if n < base then [Digit(n)] else Number(n / base, base) + [Digit(n % base)]
  }

  // ---------- headers

  function Lower(c: char): char { if 'A' <= c <= 'Z' then c - 'A' + 'a' else c }

  /** IByteArray compares without case. */
  predicate SameName(a: string, b: string) {
    |a| == |b| && forall i :: 0 <= i < |a| ==> Lower(a[i]) == Lower(b[i])
  }

  /** QMultiMap::replace: the first value of a name that is there, else a new field. */
  function Replace(fields: seq<Field>, name: string, value: string): seq<Field> {
    if fields == [] then [Field(name, value)]
    else if SameName(fields[0].name, name) then [Field(fields[0].name, value)] + fields[1..]
    else [fields[0]] + Replace(fields[1..], name, value)
  }

  function Insert(fields: seq<Field>, name: string, value: string): seq<Field> {
    [Field(name, value)] + fields
  }

  function FieldLine(f: Field): string { f.name + ": " + f.value + CRLF }

  function FieldLines(fields: seq<Field>): string {
    if fields == [] then "" else FieldLine(fields[0]) + FieldLines(fields[1..])
  }

  // ---------- the operations

  function Version(r: Response): string { if r.http10 then "HTTP/1.0 " else "HTTP/1.1 " }

  /** The four overloads of writeHead differ in where the phrase and the fields come from. */
  function WriteHead(r: Response, statusCode: nat, reasonPhrase: string, fields: seq<Field>): (Response, bool) {
    if !r.state.StatusLine? then (r, false)
    else (r.(head := r.head + Version(r) + Number(statusCode, 10) + " " + reasonPhrase + CRLF + FieldLines(fields), state := Headers), true)
  }

  function ChunkedHeaders(r: Response): seq<Field> {
    Insert(Replace(r.headers, "Connection", if r.keepAlive then "keep-alive" else "close"), "Transfer-Encoding", "chunked")
  }

  /** Flushes the headers and the blank line. */
  function Flush(r: Response, fields: seq<Field>): Response {
    r.(headers := fields, head := r.head + FieldLines(fields) + CRLF, state := MessageBody)
  }

  function Chunk(data: string): string { Number(|data|, 16) + CRLF + data + CRLF }

  function Write(r: Response, chunk: string): (Response, bool) {
    if chunk == "" then (r, false)
    else if r.http10 then
      if r.state.StatusLine? || r.state.End? then (r, false) else (r.(http10Buffer := r.http10Buffer + chunk), true)
    else if !r.state.Headers? && !r.state.MessageBody? then (r, false)
    else
      var q := if r.state.Headers? then Flush(r, ChunkedHeaders(r)) else r;
      (q.(body := q.body + Chunk(chunk)), true)
  }

  const LAST_CHUNK := "0\r\n"

  /** addTrailers; addTrailer is the case of one field. */
  function AddTrailers(r: Response, fields: seq<Field>): (Response, bool) {
    if r.http10 || (!r.state.MessageBody? && !r.state.Trailers?) then (r, false)
    else
      var q := if r.state.MessageBody? then r.(body := r.body + LAST_CHUNK, state := Trailers) else r;
      (q.(body := q.body + FieldLines(fields)), true)
  }

  function Finish(r: Response, close: bool): Response {
    r.(state := End, closed := r.closed || close, finished := r.finished + 1)
  }

  /** The body of end in HTTP/1.0: everything at once. */
  function EndHttp10(r: Response, chunk: string): Response {
    Finish(r.(body := r.body + r.http10Buffer + chunk, http10Buffer := ""), true)
  }

  function EndChunked(r: Response, chunk: string): Response {
    var q := if chunk != "" then r.(body := r.body + Chunk(chunk)) else r;
    Finish(q.(body := q.body + LAST_CHUNK + CRLF), !r.keepAlive)
  }

  /** end. With trailers already written it takes a chunk, but does not write it. */
  function EndWith(r: Response, chunk: string): (Response, bool) {
    match r.state
    case StatusLine => (r, false)
    case End => (r, false)
    case Headers =>
      if r.http10 then (EndHttp10(Flush(r, Replace(r.headers, "Content-Length", Number(|r.http10Buffer| + |chunk|, 10))), chunk), true)
      else (EndChunked(Flush(r, ChunkedHeaders(r)), chunk), true)
    case MessageBody => (if r.http10 then EndHttp10(r, chunk) else EndChunked(r, chunk), true)
    case Trailers => (Finish(r.(body := r.body + CRLF), !r.keepAlive), true)
  }

  // ---------- sequences of calls

  datatype Call =
    | SetHeaders(fields: seq<Field>)
    | Head(statusCode: nat, reasonPhrase: string, fields: seq<Field>)
    | Body(chunk: string)
    | Trailer(fields: seq<Field>)
    | Close(chunk: string)

  function Perform(r: Response, c: Call): (Response, bool) {
    match c
    case SetHeaders(fields) => (r.(headers := fields), true)
    case Head(statusCode, reasonPhrase, fields) => WriteHead(r, statusCode, reasonPhrase, fields)
    case Body(chunk) => Write(r, chunk)
    case Trailer(fields) => AddTrailers(r, fields)
    case Close(chunk) => EndWith(r, chunk)
  }

  function New(http10: bool, keepAlive: bool): Response {
    Response(http10, keepAlive, StatusLine, [], "", "", "", false, 0)
  }

  /** The response after the first k calls. */
  function After(r: Response, calls: seq<Call>, k: nat): Response
    requires k <= |calls|
  {
    if k == 0 then r else Perform(After(r, calls, k - 1), calls[k - 1]).0
  }

  function Join(parts: seq<string>): string {
    if parts == [] then "" else parts[0] + Join(parts[1..])
  }
}
