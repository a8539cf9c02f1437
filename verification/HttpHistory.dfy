/** What becomes of a call is told by the calls before it: no predicate here looks at the response. */
module HttpHistories {
  import opened HttpResponses

  /** writeHead has been called before call k. */
  predicate HeadBefore(calls: seq<Call>, k: nat)
    requires k <= |calls|
  {
    exists j :: 0 <= j < k && calls[j].Head?
  }

  predicate WritesData(calls: seq<Call>, j: nat)
    requires j < |calls|
  {
    calls[j].Body? && calls[j].chunk != "" && HeadBefore(calls, j)
  }

  predicate DataBefore(calls: seq<Call>, k: nat)
    requires k <= |calls|
  {
    exists j :: 0 <= j < k && WritesData(calls, j)
  }

  predicate AddsTrailers(calls: seq<Call>, j: nat)
    requires j < |calls|
  {
    calls[j].Trailer? && DataBefore(calls, j)
  }

  predicate TrailersBefore(calls: seq<Call>, k: nat)
    requires k <= |calls|
  {
    exists j :: 0 <= j < k && AddsTrailers(calls, j)
  }

  predicate Ends(calls: seq<Call>, j: nat)
    requires j < |calls|
  {
    calls[j].Close? && HeadBefore(calls, j)
  }

  predicate EndBefore(calls: seq<Call>, k: nat)
    requires k <= |calls|
  {
    exists j :: 0 <= j < k && Ends(calls, j)
  }

  /** Whether call k takes its argument. */
  predicate Takes(http10: bool, calls: seq<Call>, k: nat)
    requires k < |calls|
  {
    match calls[k]
    case SetHeaders(_) => true
    case Head(_, _, _) => !HeadBefore(calls, k)
    case Body(chunk) => chunk != "" && HeadBefore(calls, k) && !EndBefore(calls, k) && (http10 || !TrailersBefore(calls, k))
    case Trailer(_) => !http10 && DataBefore(calls, k) && !EndBefore(calls, k)
    case Close(_) => HeadBefore(calls, k) && !EndBefore(calls, k)
  }

  function TakenBy(http10: bool, calls: seq<Call>, j: nat): seq<string>
    requires j < |calls|
  {
    if Takes(http10, calls, j) && (calls[j].Body? || calls[j].Close?) then [calls[j].chunk] else []
  }

  /** The chunks that the first k calls take. */
  function TakenChunks(http10: bool, calls: seq<Call>, k: nat): seq<string>
    requires k <= |calls|
  {
    if k == 0 then [] else TakenChunks(http10, calls, k - 1) + TakenBy(http10, calls, k - 1)
  }

  /** end does not write its chunk when there are trailers. */
  function SentBy(calls: seq<Call>, j: nat): seq<string>
    requires j < |calls|
  {
    if (calls[j].Close? && (TrailersBefore(calls, j) || calls[j].chunk == "")) then [] else TakenBy(false, calls, j)
  }

  /** The chunks that reach an HTTP/1.1 body. */
  function SentChunks(calls: seq<Call>, k: nat): seq<string>
    requires k <= |calls|
  {
    if k == 0 then [] else SentChunks(calls, k - 1) + SentBy(calls, k - 1)
  }

  function TrailersBy(calls: seq<Call>, j: nat): seq<Field>
    requires j < |calls|
  {
    if Takes(false, calls, j) && calls[j].Trailer? then calls[j].fields else []
  }

  function TakenTrailers(calls: seq<Call>, k: nat): seq<Field>
    requires k <= |calls|
  {
    if k == 0 then [] else TakenTrailers(calls, k - 1) + TrailersBy(calls, k - 1)
  }

  /** The first writeHead. */
  function HeadCall(calls: seq<Call>, k: nat): (c: Call)
    requires k <= |calls| && HeadBefore(calls, k)
    ensures c.Head?
  {
    if HeadBefore(calls, k - 1) then HeadCall(calls, k - 1) else calls[k - 1]
  }

  /** The header fields last set. */
  function LastHeaders(calls: seq<Call>, k: nat): seq<Field>
    requires k <= |calls|
  {
    if k == 0 then [] else if calls[k - 1].SetHeaders? then calls[k - 1].fields else LastHeaders(calls, k - 1)
  }

  /** The call that sends the header fields: the first chunk of an HTTP/1.1 body, or the end when there was none. */
  predicate SendsHeaders(http10: bool, calls: seq<Call>, k: nat)
    requires k < |calls|
  {
    && Takes(http10, calls, k) && (http10 || !DataBefore(calls, k))
    && (calls[k].Close? || (calls[k].Body? && !http10))
  }

  predicate HeadersSent(http10: bool, calls: seq<Call>, k: nat)
    requires k <= |calls|
  {
    EndBefore(calls, k) || (!http10 && DataBefore(calls, k))
  }

  /** The index of that call. */
  function Sender(http10: bool, calls: seq<Call>, k: nat): (b: nat)
    requires k <= |calls| && HeadersSent(http10, calls, k)
    ensures b < k && SendsHeaders(http10, calls, b) && HeadBefore(calls, b)
  {
    OneMore(calls, k - 1);
    DataNeedsHead(calls, k - 1);
    if HeadersSent(http10, calls, k - 1) then Sender(http10, calls, k - 1) else k - 1
  }

  function StateAfter(http10: bool, calls: seq<Call>, k: nat): FormattingState
    requires k <= |calls|
  {
    if !HeadBefore(calls, k) then StatusLine
    else if EndBefore(calls, k) then End
    else if http10 || !DataBefore(calls, k) then Headers
    else if TrailersBefore(calls, k) then Trailers
    else MessageBody
  }

  lemma OneMore(calls: seq<Call>, k: nat)
    requires k < |calls|
    ensures HeadBefore(calls, k + 1) <==> HeadBefore(calls, k) || calls[k].Head?
    ensures DataBefore(calls, k + 1) <==> DataBefore(calls, k) || WritesData(calls, k)
    ensures TrailersBefore(calls, k + 1) <==> TrailersBefore(calls, k) || AddsTrailers(calls, k)
    ensures EndBefore(calls, k + 1) <==> EndBefore(calls, k) || Ends(calls, k)
  {
  }

  lemma DataNeedsHead(calls: seq<Call>, k: nat)
    requires k <= |calls|
    ensures DataBefore(calls, k) || EndBefore(calls, k) ==> HeadBefore(calls, k)
    ensures TrailersBefore(calls, k) ==> DataBefore(calls, k)
  {
    if j :| 0 <= j < k && WritesData(calls, j) {
      var i :| 0 <= i < j && calls[i].Head?;
    }
    if j :| 0 <= j < k && Ends(calls, j) {
      var i :| 0 <= i < j && calls[i].Head?;
    }
    if j :| 0 <= j < k && AddsTrailers(calls, j) {
      var i :| 0 <= i < j && WritesData(calls, i);
    }
  }

  /** One call from a state that is what the history says. */
  lemma StepTakes(r: Response, calls: seq<Call>, k: nat)
    requires k < |calls| && r.state == StateAfter(r.http10, calls, k)
    ensures Perform(r, calls[k]).1 == Takes(r.http10, calls, k)
    ensures Perform(r, calls[k]).0.state == StateAfter(r.http10, calls, k + 1)
    ensures Perform(r, calls[k]).0.http10 == r.http10 && Perform(r, calls[k]).0.keepAlive == r.keepAlive
  {
    hide ChunkedHeaders, FieldLines, Number, Replace, Chunk, HeadBefore, DataBefore, TrailersBefore, EndBefore;
    OneMore(calls, k);
    DataNeedsHead(calls, k);
  }

  lemma {:induction false} HistoryTellsState(http10: bool, keepAlive: bool, calls: seq<Call>, k: nat)
    requires k <= |calls|
    ensures var r := After(New(http10, keepAlive), calls, k);
            r.state == StateAfter(http10, calls, k) && r.http10 == http10 && r.keepAlive == keepAlive
  {
    if k > 0 {
      HistoryTellsState(http10, keepAlive, calls, k - 1);
      StepTakes(After(New(http10, keepAlive), calls, k - 1), calls, k - 1);
    }
  }

  /** Whether a call takes its argument depends on the kinds and the order of the calls before it, and on nothing else. */
  lemma TakenExactly(http10: bool, keepAlive: bool, calls: seq<Call>, k: nat)
    requires k < |calls|
    ensures Perform(After(New(http10, keepAlive), calls, k), calls[k]).1 == Takes(http10, calls, k)
  {
    HistoryTellsState(http10, keepAlive, calls, k);
    StepTakes(After(New(http10, keepAlive), calls, k), calls, k);
  }
}
