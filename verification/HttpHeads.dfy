/** What a reader makes of the head of a response (RFC 7230, sections 3.1.2 and 3.2), and where its fields come from. */
module HttpHeads {
  import opened HttpResponses
  import opened HttpFraming
  import opened HttpHistories
  import opened HttpRuns
  import opened Sequences

  // ---------- the reader

  function Decimal(s: string): int
  {
    if s == "" then 0 else 10 * Decimal(s[..|s| - 1]) + (s[|s| - 1] as int - '0' as int)
  }

  lemma {:induction false} DecimalRoundTrip(n: nat)
    ensures Decimal(Number(n, 10)) == n && ' ' !in Number(n, 10)
  {
    if n < 10 {
      assert Number(n, 10)[..0] == "";
    } else {
      DecimalRoundTrip(n / 10);
      assert Number(n, 10)[..|Number(n, 10)| - 1] == Number(n / 10, 10);
    }
  }

  datatype ReadHead = ReadHead(http10: bool, statusCode: int, reasonPhrase: string, fields: seq<Field>, rest: string) | BadHead

  /** The code, the phrase and the fields that follow the version. */
  function DecodeStatus(http10: bool, s: string): ReadHead {
    var (code, afterCode) := Split(s, ' ');
    if afterCode == "" then BadHead
    else
      var (phrase, afterPhrase) := Split(afterCode[1..], '\r');
      if !StartsWithCRLF(afterPhrase) then BadHead
      else
        match DecodeTrailers(afterPhrase[2..])
        case Malformed => BadHead
        case Decoded(_, fields, rest) => ReadHead(http10, Decimal(code), phrase, fields, rest)
  }

  function DecodeHead(s: string): ReadHead {
    if |s| < 9 then BadHead
    else if s[..9] == "HTTP/1.0 " then DecodeStatus(true, s[9..])
    else if s[..9] == "HTTP/1.1 " then DecodeStatus(false, s[9..])
    else BadHead
  }

  lemma StatusDecodes(http10: bool, statusCode: nat, phrase: string, fields: seq<Field>, rest: string, lines: string)
    requires '\r' !in phrase && DecodeTrailers(lines) == Decoded("", fields, rest)
    ensures DecodeStatus(http10, Number(statusCode, 10) + (" " + (phrase + (CRLF + lines))))
            == ReadHead(http10, statusCode, phrase, fields, rest)
  {
    hide DecodeTrailers, Number, Split, Decimal;
    DecimalRoundTrip(statusCode);
    var tail := phrase + (CRLF + lines);
    SplitFinds(Number(statusCode, 10), ' ', " " + tail);
    assert (" " + tail)[1..] == tail;
    SplitFinds(phrase, '\r', CRLF + lines);
    assert (CRLF + lines)[2..] == lines;
  }

  /** What writeHead writes. */
  function HeadText(http10: bool, c: Call): string
    requires c.Head?
  {
    (if http10 then "HTTP/1.0 " else "HTTP/1.1 ") + Number(c.statusCode, 10) + " " + c.reasonPhrase + CRLF + FieldLines(c.fields)
  }

  lemma SixParts(a: string, b: string, c: string, d: string, e: string, f: string)
    ensures a + b + c + d + e + f == a + (b + (c + (d + (e + f))))
  {
    Regroup(a + b, c, d, e, f);
    Assoc(a, b, c + (d + (e + f)));
  }

  /** Status line, the fields given to writeHead, further fields, and the blank line are read back. */
  lemma HeadDecodes(http10: bool, c: Call, more: seq<Field>, rest: string)
    requires c.Head? && '\r' !in c.reasonPhrase && forall f :: f in c.fields + more ==> WellFormed(f)
    ensures DecodeHead(HeadText(http10, c) + FieldLines(more) + CRLF + rest)
            == ReadHead(http10, c.statusCode, c.reasonPhrase, c.fields + more, rest)
  {
    hide WellFormed, DecodeStatus, FieldLines;
    var version := if http10 then "HTTP/1.0 " else "HTTP/1.1 ";
    var start := version + Number(c.statusCode, 10) + " " + c.reasonPhrase + CRLF;
    var lines := FieldLines(c.fields) + FieldLines(more);
    FieldLinesConcat(c.fields, more);
    FieldsDecode(c.fields + more, rest);
    StatusDecodes(http10, c.statusCode, c.reasonPhrase, c.fields + more, rest, lines + (CRLF + rest));
    Assoc(start, FieldLines(c.fields), FieldLines(more));
    Assoc(start + lines, CRLF, rest);
    Assoc(start, lines, CRLF + rest);
    SixParts(version, Number(c.statusCode, 10), " ", c.reasonPhrase, CRLF, lines + (CRLF + rest));
    var tail := Number(c.statusCode, 10) + (" " + (c.reasonPhrase + (CRLF + (lines + (CRLF + rest)))));
    assert (version + tail)[..9] == version && (version + tail)[9..] == tail;
    assert "HTTP/1.0 "[7] != "HTTP/1.1 "[7];
  }

  // ---------- values

  function Values(fields: seq<Field>, name: string): seq<string> {
    if fields == [] then []
    else (if SameName(fields[0].name, name) then [fields[0].value] else []) + Values(fields[1..], name)
  }

  lemma {:induction false} ValuesConcat(a: seq<Field>, b: seq<Field>, name: string)
    ensures Values(a + b, name) == Values(a, name) + Values(b, name)
  {
    if a == [] {
      Neutral(b);
      Neutral(Values(b, name));
    } else {
      assert (a + b)[1..] == a[1..] + b;
      ValuesConcat(a[1..], b, name);
      Assoc(if SameName(a[0].name, name) then [a[0].value] else [], Values(a[1..], name), Values(b, name));
    }
  }

  /** Names are the same when they differ in nothing but the case of their letters. */
  lemma SameNameExactly(a: string, b: string)
    ensures SameName(a, b) <==> |a| == |b| && forall i :: 0 <= i < |a| ==> a[i] == b[i] || IsCaseOf(a[i], b[i]) || IsCaseOf(b[i], a[i])
  {
    if |a| == |b| {
      forall i | 0 <= i < |a| ensures Lower(a[i]) == Lower(b[i]) <==> a[i] == b[i] || IsCaseOf(a[i], b[i]) || IsCaseOf(b[i], a[i]) {
        LowerCase(a[i], b[i]);
      }
    }
  }

  /** The capital of a small letter: the two alphabets are 32 apart. */
  predicate IsCaseOf(capital: char, small: char) {
    'A' <= capital <= 'Z' && small as int == capital as int + 32
  }

  lemma LowerCase(c: char, d: char)
    ensures Lower(c) == Lower(d) <==> c == d || IsCaseOf(c, d) || IsCaseOf(d, c)
  {
  }

  function Tail(values: seq<string>): seq<string> { if values == [] then [] else values[1..] }

  lemma SameNameTwice(a: string, b: string, c: string)
    requires SameName(a, b) && SameName(a, c)
    ensures SameName(b, c)
  {
  }

  /** Replacing a header replaces its first value or adds one, and leaves the values of every other name. */
  lemma {:induction false} ReplacedValues(fields: seq<Field>, name: string, value: string, other: string)
    ensures Values(Replace(fields, name, value), other)
            == if SameName(name, other) then [value] + Tail(Values(fields, other)) else Values(fields, other)
  {
    if fields == [] {
      assert [Field(name, value)][1..] == [];
    } else {
      var first, rest := fields[0], fields[1..];
      hide SameName;
      Neutral(Values(rest, other));
      if SameName(first.name, name) {
        assert ([Field(first.name, value)] + rest)[1..] == rest;
        assert ([first.value] + Values(rest, other))[1..] == Values(rest, other);
        ReplacedName(first.name, name, other);
      } else {
        ReplacedValues(rest, name, value, other);
        assert ([first] + Replace(rest, name, value))[1..] == Replace(rest, name, value);
        ReplacedOther(first.name, name, other);
        Neutral(Values(Replace(rest, name, value), other));
      }
    }
  }

  lemma ReplacedName(first: string, name: string, other: string)
    requires SameName(first, name)
    ensures SameName(first, other) <==> SameName(name, other)
  {
  }

  lemma ReplacedOther(first: string, name: string, other: string)
    requires !SameName(first, name)
    ensures SameName(first, other) ==> !SameName(name, other)
  {
  }

  lemma {:induction false} ReplacedWellFormed(fields: seq<Field>, name: string, value: string)
    requires (forall f :: f in fields ==> WellFormed(f)) && WellFormed(Field(name, value))
    ensures forall f :: f in Replace(fields, name, value) ==> WellFormed(f)
  {
    if fields != [] {
      assert WellFormed(fields[0]);
      ReplacedWellFormed(fields[1..], name, value);
    }
  }

  // ---------- what the writer sends

  /** The length of the data that an HTTP/1.0 response has got after k calls. */
  function Length(calls: seq<Call>, k: nat): nat
    requires k <= |calls|
  {
    |Join(TakenChunks(true, calls, k))|
  }

  /** The fields that go out with call b. */
  function SentFields(http10: bool, keepAlive: bool, calls: seq<Call>, b: nat): seq<Field>
    requires b < |calls|
  {
    var fields := LastHeaders(calls, b);
    if http10 then Replace(fields, "Content-Length", Number(Length(calls, b + 1), 10))
    else ChunkedHeaders(New(false, keepAlive).(headers := fields))
  }

  lemma StatusLineFirst(http10: bool, calls: seq<Call>, k: nat)
    requires k <= |calls|
    ensures StateAfter(http10, calls, k).StatusLine? <==> !HeadBefore(calls, k)
  {
  }

  lemma StepBeforeHeaders(r: Response, calls: seq<Call>, k: nat)
    requires k < |calls| && r.state == StateAfter(r.http10, calls, k) && StateAfter(r.http10, calls, k + 1).Rank() <= 1
    requires r.headers == LastHeaders(calls, k)
    requires r.head == if HeadBefore(calls, k) then HeadText(r.http10, HeadCall(calls, k)) else ""
    ensures var q := Perform(r, calls[k]).0;
            && q.headers == LastHeaders(calls, k + 1)
            && q.head == if HeadBefore(calls, k + 1) then HeadText(r.http10, HeadCall(calls, k + 1)) else ""
  {
    StepTakes(r, calls, k);
    OneMore(calls, k);
    DataNeedsHead(calls, k);
    hide FieldLines, Number, ChunkedHeaders, Replace, Takes, StateAfter;
    StateAdvances(r, calls[k]);
    StatusLineFirst(r.http10, calls, k);
    if calls[k].Head? && r.state.StatusLine? {
      Neutral(Version(r));
      Assoc("", Version(r), Number(calls[k].statusCode, 10));
    }
  }

  /** Until the header fields are sent, the head is that of the first writeHead, and the fields are those last set. */
  lemma {:induction false} BeforeHeaders(http10: bool, keepAlive: bool, calls: seq<Call>, k: nat)
    requires k <= |calls| && StateAfter(http10, calls, k).Rank() <= 1
    ensures var r := After(New(http10, keepAlive), calls, k);
            && r.headers == LastHeaders(calls, k)
            && r.head == if HeadBefore(calls, k) then HeadText(http10, HeadCall(calls, k)) else ""
  {
    if k > 0 {
      hide StateAfter, LastHeaders, HeadText, HeadCall, FormattingState.Rank;
      var r := After(New(http10, keepAlive), calls, k - 1);
      HistoryTellsState(http10, keepAlive, calls, k - 1);
      HistoryTellsState(http10, keepAlive, calls, k);
      StateAdvances(r, calls[k - 1]);
      BeforeHeaders(http10, keepAlive, calls, k - 1);
      StepBeforeHeaders(r, calls, k - 1);
    }
  }

  lemma FlushWrites(r: Response, c: Call)
    requires r.state.Headers? && Perform(r, c).1 && (c.Close? || (c.Body? && !r.http10))
    ensures var fields := if r.http10 then Replace(r.headers, "Content-Length", Number(|r.http10Buffer| + |c.chunk|, 10)) else ChunkedHeaders(r);
            Perform(r, c).0.head == r.head + FieldLines(fields) + CRLF && Perform(r, c).0.headers == fields
  {
    hide FieldLines, Number, ChunkedHeaders, Replace, Chunk;
  }

  /** The call that sends the header fields completes the head. */
  lemma HeadersAreSent(http10: bool, keepAlive: bool, calls: seq<Call>, b: nat)
    requires b < |calls| && SendsHeaders(http10, calls, b) && HeadBefore(calls, b)
    ensures var r := After(New(http10, keepAlive), calls, b + 1);
            && r.head == HeadText(http10, HeadCall(calls, b)) + FieldLines(SentFields(http10, keepAlive, calls, b)) + CRLF
            && r.headers == SentFields(http10, keepAlive, calls, b)
  {
    var r := After(New(http10, keepAlive), calls, b);
    HistoryTellsState(http10, keepAlive, calls, b);
    TakenExactly(http10, keepAlive, calls, b);
    assert r.state == StateAfter(http10, calls, b) == Headers;
    BeforeHeaders(http10, keepAlive, calls, b);
    hide StateAfter, HeadText, HeadCall, FieldLines, Number, Replace, HeadBefore;
    FlushWrites(r, calls[b]);
    if http10 {
      RunKeepsBuffered(keepAlive, calls, b);
      JoinConcat(TakenChunks(true, calls, b), TakenBy(true, calls, b));
      assert [calls[b].chunk][1..] == [];
      assert Length(calls, b + 1) == |r.http10Buffer| + |calls[b].chunk|;
    } else {
      assert ChunkedHeaders(r) == SentFields(http10, keepAlive, calls, b);
    }
  }

  lemma HeadStands(r: Response, c: Call)
    requires if r.http10 then r.state.End? else r.state.Rank() >= 2
    ensures Perform(r, c).0.head == r.head
  {
    hide FieldLines, Number, Chunk, ChunkedHeaders, Replace;
  }

  lemma SentNotAtOnce(http10: bool, calls: seq<Call>)
    ensures !HeadersSent(http10, calls, 0)
  {
  }

  lemma SentState(http10: bool, calls: seq<Call>, k: nat)
    requires k <= |calls| && HeadersSent(http10, calls, k)
    ensures if http10 then StateAfter(http10, calls, k).End? else StateAfter(http10, calls, k).Rank() >= 2
  {
    DataNeedsHead(calls, k);
  }

  /** After that, the head does not change any more. */
  lemma {:induction false} HeadIsWritten(http10: bool, keepAlive: bool, calls: seq<Call>, k: nat)
    requires k <= |calls| && HeadersSent(http10, calls, k)
    ensures var b := Sender(http10, calls, k);
            After(New(http10, keepAlive), calls, k).head
            == HeadText(http10, HeadCall(calls, b)) + FieldLines(SentFields(http10, keepAlive, calls, b)) + CRLF
  {
    hide HeadersSent, SendsHeaders, StateAfter, HeadText, HeadCall, SentFields, FieldLines, Perform, HeadBefore, New;
    SentNotAtOnce(http10, calls);
    if HeadersSent(http10, calls, k - 1) {
      HeadIsWritten(http10, keepAlive, calls, k - 1);
      HistoryTellsState(http10, keepAlive, calls, k - 1);
      SentState(http10, calls, k - 1);
      HeadStands(After(New(http10, keepAlive), calls, k - 1), calls[k - 1]);
    } else {
      assert Sender(http10, calls, k) == k - 1;
      HeadersAreSent(http10, keepAlive, calls, k - 1);
    }
  }

  /** The values that go out under a name, when the caller has set some: those, but for the fields the writer sets itself. */
  predicate Announced(http10: bool, keepAlive: bool, length: nat, own: seq<string>, name: string, values: seq<string>) {
    if http10 then
      if SameName("Content-Length", name) then values != [] && Decimal(values[0]) == length && values[1..] == Tail(own)
      else values == own
    else if SameName("Transfer-Encoding", name) then values == ["chunked"] + own
    else if SameName("Connection", name) then values == [if keepAlive then "keep-alive" else "close"] + Tail(own)
    else values == own
  }

  lemma SentValues(http10: bool, keepAlive: bool, calls: seq<Call>, b: nat, name: string)
    requires b < |calls|
    ensures Announced(http10, keepAlive, Length(calls, b + 1), Values(LastHeaders(calls, b), name), name,
                      Values(SentFields(http10, keepAlive, calls, b), name))
  {
    hide Values, Replace, Length;
    var own := LastHeaders(calls, b);
    if http10 {
      var length := Length(calls, b + 1);
      ReplacedValues(own, "Content-Length", Number(length, 10), name);
      DecimalRoundTrip(length);
    } else {
      ChunkedValues(own, keepAlive, name);
    }
  }

  lemma ChunkedValues(own: seq<Field>, keepAlive: bool, name: string)
    ensures Announced(false, keepAlive, 0, Values(own, name), name, Values(ChunkedHeaders(New(false, keepAlive).(headers := own)), name))
  {
    hide Replace;
    var connection := Replace(own, "Connection", if keepAlive then "keep-alive" else "close");
    var fields := Insert(connection, "Transfer-Encoding", "chunked");
    ReplacedValues(own, "Connection", if keepAlive then "keep-alive" else "close", name);
    assert fields[1..] == connection;
    Neutral(Values(connection, name));
    if SameName("Transfer-Encoding", name) {
      assert !SameName("Connection", name);
    }
  }

  lemma EncodingWellFormed()
    ensures WellFormed(Field("Transfer-Encoding", "chunked"))
  {
  }

  lemma ConnectionWellFormed(keepAlive: bool)
    ensures WellFormed(Field("Connection", if keepAlive then "keep-alive" else "close"))
  {
  }

  lemma LengthWellFormed(length: nat)
    ensures WellFormed(Field("Content-Length", Number(length, 10)))
  {
    NumberIsPlain(length);
  }

  lemma SentWellFormed(http10: bool, keepAlive: bool, calls: seq<Call>, b: nat)
    requires b < |calls| && forall f :: f in LastHeaders(calls, b) ==> WellFormed(f)
    ensures forall f :: f in SentFields(http10, keepAlive, calls, b) ==> WellFormed(f)
  {
    hide WellFormed, Number, Length, Replace, LastHeaders;
    var own := LastHeaders(calls, b);
    EncodingWellFormed();
    ConnectionWellFormed(keepAlive);
    LengthWellFormed(Length(calls, b + 1));
    ReplacedWellFormed(own, "Content-Length", Number(Length(calls, b + 1), 10));
    ReplacedWellFormed(own, "Connection", if keepAlive then "keep-alive" else "close");
  }

  lemma {:induction false} NumberIsPlain(n: nat)
    ensures '\r' !in Number(n, 10) && Number(n, 10)[0] != ' ' && Number(n, 10)[0] != '\t'
  {
    if n >= 10 {
      NumberIsPlain(n / 10);
    }
  }

  /** After any calls that have sent the header fields, the bytes at the device read as the status and the fields of the
      first writeHead, the fields last set before, with those the writer adds or replaces, and the body. */
  lemma HeadCarriesHeaders(http10: bool, keepAlive: bool, calls: seq<Call>, k: nat)
    requires k <= |calls| && HeadersSent(http10, calls, k)
    requires var b := Sender(http10, calls, k);
             '\r' !in HeadCall(calls, b).reasonPhrase && forall f :: f in HeadCall(calls, b).fields + LastHeaders(calls, b) ==> WellFormed(f)
    ensures var r, b := After(New(http10, keepAlive), calls, k), Sender(http10, calls, k);
            var c, read := HeadCall(calls, b), DecodeHead(r.head + r.body);
            && read.ReadHead? && read.http10 == http10 && read.statusCode == c.statusCode && read.reasonPhrase == c.reasonPhrase
            && read.rest == r.body && c.fields <= read.fields
            && forall name :: Announced(http10, keepAlive, Length(calls, b + 1), Values(LastHeaders(calls, b), name), name,
                                        Values(read.fields[|c.fields|..], name))
  {
    hide LastHeaders, HeadCall, Announced, Values, WellFormed, FieldLines, HeadText, DecodeHead, SentFields, Length, HeadersSent;
    var r, b := After(New(http10, keepAlive), calls, k), Sender(http10, calls, k);
    var c, sent := HeadCall(calls, b), SentFields(http10, keepAlive, calls, b);
    HeadIsWritten(http10, keepAlive, calls, k);
    forall f | f in LastHeaders(calls, b) ensures WellFormed(f) {
      assert f in c.fields + LastHeaders(calls, b);
    }
    SentWellFormed(http10, keepAlive, calls, b);
    HeadDecodes(http10, c, sent, r.body);
    assert (c.fields + sent)[|c.fields|..] == sent;
    forall name ensures Announced(http10, keepAlive, Length(calls, b + 1), Values(LastHeaders(calls, b), name), name, Values(sent, name)) {
      SentValues(http10, keepAlive, calls, b, name);
    }
  }

  /** An HTTP/1.0 response states the length of the body that follows, and the body is all chunks taken. */
  lemma ContentLengthIsBodyLength(keepAlive: bool, calls: seq<Call>, k: nat)
    requires k <= |calls| && EndBefore(calls, k)
    ensures var r := After(New(true, keepAlive), calls, k);
            r.body == Join(TakenChunks(true, calls, k)) && |r.body| == Length(calls, Sender(true, calls, k) + 1)
  {
    BufferedResponseIsWhole(keepAlive, calls, k);
    NothingAfterEnd(calls, k);
  }

  lemma {:induction false} NothingAfterEnd(calls: seq<Call>, k: nat)
    requires k <= |calls| && EndBefore(calls, k)
    ensures TakenChunks(true, calls, k) == TakenChunks(true, calls, Sender(true, calls, k) + 1)
  {
    if EndBefore(calls, k - 1) {
      NothingAfterEnd(calls, k - 1);
      Neutral(TakenChunks(true, calls, k - 1));
    }
  }
}
