/** What a response looks like after any sequence of calls. */
module HttpRuns {
  import opened HttpResponses
  import opened HttpFraming
  import opened HttpHistories
  import opened Sequences

  // ---------- the state only advances

  lemma StateAdvances(r: Response, c: Call)
    ensures Perform(r, c).0.state.Rank() >= r.state.Rank()
    ensures Perform(r, c).0.finished == r.finished + (if Perform(r, c).0.state.End? && !r.state.End? then 1 else 0)
    ensures r.state.End? ==> Perform(r, c).0.(headers := r.headers) == r
    ensures Perform(r, c).0.keepAlive == r.keepAlive && Perform(r, c).0.http10 == r.http10
  {
    hide ChunkedHeaders, FieldLines, Number, Replace, Chunk;
    match c
    case SetHeaders(_) =>
    case Head(_, _, _) =>
    case Body(_) =>
    case Trailer(_) =>
    case Close(chunk) => EndAdvances(r, chunk);
  }

  lemma EndAdvances(r: Response, chunk: string)
    ensures var q := EndWith(r, chunk).0;
            && q.state.Rank() >= r.state.Rank() && q.finished == r.finished + (if q.state.End? && !r.state.End? then 1 else 0)
            && (r.state.End? ==> q == r) && q.keepAlive == r.keepAlive && q.http10 == r.http10
  {
    hide ChunkedHeaders, FieldLines, Number, Replace, Chunk;
  }

  /** finished is emitted once, when the response ends, however often end is called. */
  lemma {:induction false} FinishedOnce(http10: bool, keepAlive: bool, calls: seq<Call>, k: nat)
    requires k <= |calls|
    ensures var r := After(New(http10, keepAlive), calls, k); r.finished == if r.state.End? then 1 else 0
  {
    if k > 0 {
      FinishedOnce(http10, keepAlive, calls, k - 1);
      StateAdvances(After(New(http10, keepAlive), calls, k - 1), calls[k - 1]);
    }
  }

  // ---------- HTTP/1.1

  ghost predicate Chunked(r: Response, pieces: seq<string>, trailers: seq<Field>) {
    && !r.http10 && "" !in pieces
    && r.closed == (r.state.End? && !r.keepAlive)
    && match r.state
       case StatusLine => pieces == [] && trailers == [] && r.body == ""
       case Headers => pieces == [] && trailers == [] && r.body == ""
       case MessageBody => trailers == [] && r.body == Chunks(pieces)
       case Trailers => r.body == Chunks(pieces) + LAST_CHUNK + FieldLines(trailers)
       case End => r.body == Chunks(pieces) + LAST_CHUNK + FieldLines(trailers) + CRLF
  }

  lemma {:induction false} ChunksAppend(pieces: seq<string>, data: string)
    ensures Chunks(pieces + [data]) == Chunks(pieces) + Chunk(data)
  {
    if pieces == [] {
      assert [data][1..] == [] && pieces + [data] == [data];
      assert Chunk(data) + "" == Chunk(data) == "" + Chunk(data);
    } else {
      assert (pieces + [data])[1..] == pieces[1..] + [data];
      ChunksAppend(pieces[1..], data);
      assert Chunk(pieces[0]) + (Chunks(pieces[1..]) + Chunk(data)) == Chunks(pieces) + Chunk(data);
    }
  }

  lemma {:induction false} FieldLinesConcat(a: seq<Field>, b: seq<Field>)
    ensures FieldLines(a + b) == FieldLines(a) + FieldLines(b)
  {
    if a == [] {
      assert a + b == b;
      assert "" + FieldLines(b) == FieldLines(b);
    } else {
      assert (a + b)[1..] == a[1..] + b;
      FieldLinesConcat(a[1..], b);
      assert FieldLine(a[0]) + (FieldLines(a[1..]) + FieldLines(b)) == FieldLines(a) + FieldLines(b);
    }
  }

  lemma WriteKeepsChunked(r: Response, chunk: string, pieces: seq<string>, trailers: seq<Field>)
    requires Chunked(r, pieces, trailers) && Write(r, chunk).1
    ensures Chunked(Write(r, chunk).0, pieces + [chunk], trailers)
  {
    ChunksAppend(pieces, chunk);
  }

  lemma TrailersKeepChunked(r: Response, fields: seq<Field>, pieces: seq<string>, trailers: seq<Field>)
    requires Chunked(r, pieces, trailers) && AddTrailers(r, fields).1
    ensures Chunked(AddTrailers(r, fields).0, pieces, trailers + fields)
  {
    FieldLinesConcat(trailers, fields);
    var start := Chunks(pieces) + LAST_CHUNK;
    assert start + FieldLines(trailers) + FieldLines(fields) == start + (FieldLines(trailers) + FieldLines(fields));
    assert start + "" == start;
  }

  lemma EndKeepsChunked(r: Response, chunk: string, pieces: seq<string>, trailers: seq<Field>)
    requires Chunked(r, pieces, trailers) && EndWith(r, chunk).1
    ensures Chunked(EndWith(r, chunk).0, pieces + if r.state.Trailers? || chunk == "" then [] else [chunk], trailers)
  {
    Neutral(pieces);
    if !r.state.Trailers? {
      var all := pieces + if chunk == "" then [] else [chunk];
      if chunk != "" {
        ChunksAppend(pieces, chunk);
      }
      Assoc(Chunks(all), LAST_CHUNK, CRLF);
      Neutral(Chunks(all) + LAST_CHUNK);
    }
  }

  lemma StepKeepsChunked(r: Response, calls: seq<Call>, k: nat, pieces: seq<string>, trailers: seq<Field>)
    requires k < |calls| && r.state == StateAfter(false, calls, k) && Chunked(r, pieces, trailers)
    ensures Chunked(Perform(r, calls[k]).0, pieces + SentBy(calls, k), trailers + TrailersBy(calls, k))
  {
    hide StateAfter, Takes, Chunked, Chunks, FieldLines, TrailersBefore, WriteHead, Write, AddTrailers, EndWith;
    ChunkedState(r, pieces, trailers);
    StepTakes(r, calls, k);
    TrailersAreState(calls, k);
    Neutral(pieces);
    Neutral(trailers);
    if Takes(false, calls, k) {
      match calls[k]
      case SetHeaders(_) => HeadKeepsChunked(r, calls[k], pieces, trailers);
      case Head(_, _, _) => HeadKeepsChunked(r, calls[k], pieces, trailers);
      case Body(chunk) => WriteKeepsChunked(r, chunk, pieces, trailers);
      case Trailer(fields) => TrailersKeepChunked(r, fields, pieces, trailers);
      case Close(chunk) => EndKeepsChunked(r, chunk, pieces, trailers);
    } else {
      RefusedCall(r, calls[k]);
    }
  }

  lemma ChunkedState(r: Response, pieces: seq<string>, trailers: seq<Field>)
    requires Chunked(r, pieces, trailers)
    ensures !r.http10 && forall chunk :: EndWith(r, chunk).1 ==> !r.state.End?
  {
  }

  lemma HeadKeepsChunked(r: Response, c: Call, pieces: seq<string>, trailers: seq<Field>)
    requires Chunked(r, pieces, trailers) && (c.SetHeaders? || c.Head?)
    ensures Chunked(Perform(r, c).0, pieces, trailers)
  {
    hide Chunks, FieldLines;
  }

  lemma TrailersAreState(calls: seq<Call>, k: nat)
    requires k <= |calls|
    ensures StateAfter(false, calls, k).Trailers? ==> TrailersBefore(calls, k)
    ensures TrailersBefore(calls, k) ==> StateAfter(false, calls, k).Trailers? || StateAfter(false, calls, k).End?
  {
    DataNeedsHead(calls, k);
  }

  lemma RefusedCall(r: Response, c: Call)
    requires !Perform(r, c).1
    ensures Perform(r, c).0 == r
  {
  }

  /** In every state an HTTP/1.1 body is made of the chunks and trailers that the history of calls says. */
  lemma {:induction false} RunKeepsChunked(keepAlive: bool, calls: seq<Call>, k: nat)
    requires k <= |calls|
    ensures Chunked(After(New(false, keepAlive), calls, k), SentChunks(calls, k), TakenTrailers(calls, k))
  {
    if k > 0 {
      RunKeepsChunked(keepAlive, calls, k - 1);
      HistoryTellsState(false, keepAlive, calls, k - 1);
      StepKeepsChunked(After(New(false, keepAlive), calls, k - 1), calls, k - 1, SentChunks(calls, k - 1), TakenTrailers(calls, k - 1));
    }
  }

  /** After any calls, a finished HTTP/1.1 response decodes to the chunks sent and the trailers taken. */
  lemma ChunkedResponseDecodes(keepAlive: bool, calls: seq<Call>, k: nat)
    requires k <= |calls| && EndBefore(calls, k)
    requires forall f :: f in TakenTrailers(calls, k) ==> WellFormed(f)
    ensures var r := After(New(false, keepAlive), calls, k);
            && r.state.End? && r.closed == !keepAlive
            && DecodeBody(r.body) == Decoded(Join(SentChunks(calls, k)), TakenTrailers(calls, k), "")
  {
    RunKeepsChunked(keepAlive, calls, k);
    HistoryTellsState(false, keepAlive, calls, k);
    DataNeedsHead(calls, k);
    BodyDecodes(SentChunks(calls, k), TakenTrailers(calls, k));
  }

  // ---------- the chunk that is taken and not written

  /** end is called with data after trailers. */
  predicate LosesChunk(calls: seq<Call>, k: nat)
    requires k <= |calls|
  {
    exists j :: 0 <= j < k && Ends(calls, j) && calls[j].chunk != "" && TrailersBefore(calls, j) && !EndBefore(calls, j)
  }

  lemma {:induction false} LostData(calls: seq<Call>, k: nat)
    requires k <= |calls|
    ensures |Join(TakenChunks(false, calls, k))| >= |Join(SentChunks(calls, k))|
    ensures |Join(TakenChunks(false, calls, k))| == |Join(SentChunks(calls, k))| <==> !LosesChunk(calls, k)
    ensures !LosesChunk(calls, k) ==> Join(TakenChunks(false, calls, k)) == Join(SentChunks(calls, k))
  {
    hide TakenBy, SentBy, LosesChunk, Ends, TrailersBefore, EndBefore, Join;
    NothingLost(calls);
    if k > 0 {
      LostData(calls, k - 1);
      JoinConcat(TakenChunks(false, calls, k - 1), TakenBy(false, calls, k - 1));
      JoinConcat(SentChunks(calls, k - 1), SentBy(calls, k - 1));
      LostBy(calls, k - 1);
    }
  }

  lemma NothingLost(calls: seq<Call>)
    ensures !LosesChunk(calls, 0)
  {
  }

  lemma LostBy(calls: seq<Call>, k: nat)
    requires k < |calls|
    ensures var loses := Ends(calls, k) && calls[k].chunk != "" && TrailersBefore(calls, k) && !EndBefore(calls, k);
            && (LosesChunk(calls, k + 1) <==> LosesChunk(calls, k) || loses)
            && if loses then |Join(TakenBy(false, calls, k))| > 0 && Join(SentBy(calls, k)) == ""
               else Join(TakenBy(false, calls, k)) == Join(SentBy(calls, k))
  {
    hide TrailersBefore, HeadBefore, EndBefore, DataBefore;
    assert calls[k].Close? || calls[k].Body? ==> [calls[k].chunk][1..] == [];
  }

  /** Everything taken is delivered exactly when end is not called with data after trailers. */
  lemma TakenIsDelivered(keepAlive: bool, calls: seq<Call>, k: nat)
    requires k <= |calls| && EndBefore(calls, k)
    requires forall f :: f in TakenTrailers(calls, k) ==> WellFormed(f)
    ensures var d := DecodeBody(After(New(false, keepAlive), calls, k).body);
            d.Decoded? && (d.data == Join(TakenChunks(false, calls, k)) <==> !LosesChunk(calls, k))
  {
    ChunkedResponseDecodes(keepAlive, calls, k);
    LostData(calls, k);
  }

  // ---------- HTTP/1.0

  ghost predicate Buffered(r: Response, data: string) {
    && r.http10 && !r.state.MessageBody? && !r.state.Trailers?
    && (if r.state.End? then r.body == data && r.http10Buffer == "" else r.body == "" && r.http10Buffer == data)
    && (r.state.StatusLine? ==> data == "")
    && r.closed == r.state.End?
  }

  lemma StepKeepsBuffered(r: Response, calls: seq<Call>, k: nat, data: string)
    requires k < |calls| && r.state == StateAfter(true, calls, k) && Buffered(r, data)
    ensures Buffered(Perform(r, calls[k]).0, data + Join(TakenBy(true, calls, k)))
  {
    StepTakes(r, calls, k);
    hide StateAfter, Takes;
    Neutral(data);
    if TakenBy(true, calls, k) != [] {
      assert [calls[k].chunk][1..] == [];
      Neutral(calls[k].chunk);
    }
  }

  lemma NothingBuffered(keepAlive: bool)
    ensures Buffered(New(true, keepAlive), Join([]))
  {
  }

  lemma {:induction false} RunKeepsBuffered(keepAlive: bool, calls: seq<Call>, k: nat)
    requires k <= |calls|
    ensures Buffered(After(New(true, keepAlive), calls, k), Join(TakenChunks(true, calls, k)))
  {
    hide Buffered, StateAfter, Perform, TakenBy, Join, New;
    NothingBuffered(keepAlive);
    if k > 0 {
      RunKeepsBuffered(keepAlive, calls, k - 1);
      HistoryTellsState(true, keepAlive, calls, k - 1);
      StepKeepsBuffered(After(New(true, keepAlive), calls, k - 1), calls, k - 1, Join(TakenChunks(true, calls, k - 1)));
      JoinConcat(TakenChunks(true, calls, k - 1), TakenBy(true, calls, k - 1));
    }
  }

  lemma {:induction false} JoinConcat(a: seq<string>, b: seq<string>)
    ensures Join(a + b) == Join(a) + Join(b)
  {
    if a == [] {
      Neutral(b);
      Neutral(Join(b));
    } else {
      assert (a + b)[1..] == a[1..] + b;
      JoinConcat(a[1..], b);
      Assoc(a[0], Join(a[1..]), Join(b));
    }
  }

  /** After any calls, a finished HTTP/1.0 response has in its body all the chunks taken. */
  lemma BufferedResponseIsWhole(keepAlive: bool, calls: seq<Call>, k: nat)
    requires k <= |calls| && EndBefore(calls, k)
    ensures var r := After(New(true, keepAlive), calls, k);
            r.state.End? && r.closed && r.body == Join(TakenChunks(true, calls, k))
  {
    RunKeepsBuffered(keepAlive, calls, k);
    HistoryTellsState(true, keepAlive, calls, k);
    DataNeedsHead(calls, k);
  }
}
