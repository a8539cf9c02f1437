/** What a reader makes of a response: chunked bodies by RFC 7230, section 4.1, and lengths. */
module HttpFraming {
  import opened HttpResponses
  import opened Sequences

  // ---------- the reader

  function HexValue(c: char): int {
    if '0' <= c <= '9' then c as int - '0' as int
    else if 'a' <= c <= 'f' then c as int - 'a' as int + 10
    else if 'A' <= c <= 'F' then c as int - 'A' as int + 10
    else -1
  }

  function ReadHex(s: string, acc: nat): (r: (nat, string))
    ensures |r.1| <= |s|
  {
    if s == "" || HexValue(s[0]) < 0 then (acc, s) else ReadHex(s[1..], 16 * acc + HexValue(s[0]))
  }

  datatype Decoded = Decoded(data: string, trailers: seq<Field>, rest: string) | Malformed

  /** What comes before the first c, and the rest from there. */
  function Split(s: string, c: char): (r: (string, string))
    ensures |r.1| <= |s|
  {
    if s == "" || s[0] == c then ("", s)
    else
      var (before, rest) := Split(s[1..], c);
      ([s[0]] + before, rest)
  }

  predicate StartsWithCRLF(s: string) { |s| >= 2 && s[0] == '\r' && s[1] == '\n' }

  function SkipSpace(s: string): (t: string)
    ensures |t| <= |s|
  {
    if s != "" && (s[0] == ' ' || s[0] == '\t') then SkipSpace(s[1..]) else s
  }

  function WithTrailer(f: Field, d: Decoded): Decoded {
    match d
    case Malformed => Malformed
    case Decoded(data, trailers, rest) => Decoded(data, [f] + trailers, rest)
  }

  /** A trailer: a name, a colon, white space, and a value up to the end of the line. */
  function DecodeTrailers(s: string): Decoded
    decreases |s|
  {
    if StartsWithCRLF(s) then Decoded("", [], s[2..])
    else
      var (name, afterName) := Split(s, ':');
      if afterName == "" then Malformed
      else
        var (value, afterValue) := Split(SkipSpace(afterName[1..]), '\r');
        if StartsWithCRLF(afterValue) then WithTrailer(Field(name, value), DecodeTrailers(afterValue[2..])) else Malformed
  }

  function DecodeBody(s: string): Decoded
    decreases |s|
  {
    if s == "" || HexValue(s[0]) < 0 then Malformed
    else
      var (n, t) := ReadHex(s, 0);
      if !StartsWithCRLF(t) then Malformed
      else if n == 0 then DecodeTrailers(t[2..])
      else if |t| < n + 4 || !StartsWithCRLF(t[n + 2..]) then Malformed
      else WithData(t[2..n + 2], DecodeBody(t[n + 4..]))
  }

  function WithData(data: string, d: Decoded): Decoded {
    match d
    case Malformed => Malformed
    case Decoded(more, trailers, rest) => Decoded(data + more, trailers, rest)
  }

  // ---------- numbers

  function Fold(s: string, acc: nat): nat
    requires forall c :: c in s ==> HexValue(c) >= 0
  {
    if s == "" then acc else Fold(s[1..], 16 * acc + HexValue(s[0]))
  }

  lemma DigitValue(d: nat)
    requires d < 16
    ensures HexValue(Digit(d)) == d
  {
  }

  lemma {:induction false} NumberIsHex(n: nat)
    ensures forall c :: c in Number(n, 16) ==> HexValue(c) >= 0
  {
    DigitValue(n % 16);
    if n >= 16 {
      NumberIsHex(n / 16);
    }
  }

  lemma {:induction false} FoldAppend(s: string, c: char, acc: nat)
    requires forall d :: d in s ==> HexValue(d) >= 0
    requires HexValue(c) >= 0
    ensures Fold(s + [c], acc) == 16 * Fold(s, acc) + HexValue(c)
  {
    if s == "" {
      assert Fold([c][1..], 16 * acc + HexValue(c)) == 16 * acc + HexValue(c);
      assert s + [c] == [c];
    } else {
      FoldAppend(s[1..], c, 16 * acc + HexValue(s[0]));
      assert (s + [c])[1..] == s[1..] + [c];
    }
  }

  lemma {:induction false} NumberFolds(n: nat)
    ensures (forall c :: c in Number(n, 16) ==> HexValue(c) >= 0) && Fold(Number(n, 16), 0) == n
  {
    NumberIsHex(n);
    DigitValue(n % 16);
    if n >= 16 {
      NumberFolds(n / 16);
      FoldAppend(Number(n / 16, 16), Digit(n % 16), 0);
    } else {
      FoldAppend("", Digit(n), 0);
      assert "" + [Digit(n)] == [Digit(n)];
    }
  }

  lemma {:induction false} ReadHexStops(s: string, rest: string, acc: nat)
    requires forall c :: c in s ==> HexValue(c) >= 0
    requires StartsWithCRLF(rest)
    ensures ReadHex(s + rest, acc) == (Fold(s, acc), rest)
    decreases |s|
  {
    if s == "" {
      assert s + rest == rest && rest[0] == '\r';
    } else {
      assert (s + rest)[1..] == s[1..] + rest;
      ReadHexStops(s[1..], rest, 16 * acc + HexValue(s[0]));
    }
  }

  lemma SizeReads(n: nat, rest: string)
    requires StartsWithCRLF(rest)
    ensures ReadHex(Number(n, 16) + rest, 0) == (n, rest) && HexValue((Number(n, 16) + rest)[0]) >= 0
  {
    NumberFolds(n);
    ReadHexStops(Number(n, 16), rest, 0);
    assert (Number(n, 16) + rest)[0] in Number(n, 16);
  }

  // ---------- chunks

  lemma TwoAndMore(a: string, b: string, c: string)
    ensures var t := CRLF + (a + (b + c));
            t[2..|a| + 2] == a && t[|a| + 2..] == b + c && t[|a| + |b| + 2..] == c
  {
    var t := CRLF + (a + (b + c));
    assert t[2..] == a + (b + c);
    assert t[2..|a| + 2] == t[2..][..|a|] == a;
    assert t[|a| + 2..] == t[2..][|a|..] == b + c;
    assert t[|a| + |b| + 2..] == t[|a| + 2..][|b|..] == c;
  }

  lemma ChunkDecodes(data: string, rest: string)
    requires data != ""
    ensures DecodeBody(Chunk(data) + rest) == WithData(data, DecodeBody(rest))
  {
    Regroup(Number(|data|, 16), CRLF, data, CRLF, rest);
    SizeReads(|data|, CRLF + (data + (CRLF + rest)));
    TwoAndMore(data, CRLF, rest);
  }

  function Chunks(pieces: seq<string>): string {
    if pieces == [] then "" else Chunk(pieces[0]) + Chunks(pieces[1..])
  }

  lemma WithDataTwice(a: string, b: string, d: Decoded)
    ensures WithData(a, WithData(b, d)) == WithData(a + b, d)
    ensures WithData("", d) == d
  {
    if d.Decoded? {
      Assoc(a, b, d.data);
      assert "" + d.data == d.data;
    }
  }

  lemma {:induction false} ChunksDecode(pieces: seq<string>, rest: string)
    requires "" !in pieces
    ensures DecodeBody(Chunks(pieces) + rest) == WithData(Join(pieces), DecodeBody(rest))
  {
    if pieces == [] {
      assert Chunks(pieces) + rest == rest;
      WithDataTwice("", "", DecodeBody(rest));
    } else {
      assert pieces[0] in pieces;
      ChunksDecode(pieces[1..], rest);
      Assoc(Chunk(pieces[0]), Chunks(pieces[1..]), rest);
      ChunkDecodes(pieces[0], Chunks(pieces[1..]) + rest);
      WithDataTwice(pieces[0], Join(pieces[1..]), DecodeBody(rest));
    }
  }

  // ---------- trailers

  /** A field that survives being written without quoting: no line ends, no colon in the name, and a value that does not start
      with white space. */
  predicate WellFormed(f: Field) {
    && f.name != "" && ':' !in f.name && '\r' !in f.name
    && '\r' !in f.value && (f.value != "" ==> f.value[0] != ' ' && f.value[0] != '\t')
  }

  lemma {:induction false} SplitFinds(s: string, c: char, rest: string)
    requires c !in s && rest != "" && rest[0] == c
    ensures Split(s + rest, c) == (s, rest)
  {
    if s == "" {
      assert s + rest == rest;
    } else {
      assert (s + rest)[1..] == s[1..] + rest && (s + rest)[0] == s[0] && s[0] in s;
      SplitFinds(s[1..], c, rest);
      assert [s[0]] + s[1..] == s;
    }
  }

  lemma SpaceIsSkipped(v: string, end: string)
    requires v != "" ==> v[0] != ' ' && v[0] != '\t'
    requires StartsWithCRLF(end)
    ensures SkipSpace([' '] + (v + end)) == v + end
  {
    assert ([' '] + (v + end))[1..] == v + end;
    assert (v + end)[0] == if v == "" then end[0] else v[0];
  }

  lemma LineDecodes(f: Field, value: string, end: string, rest: string)
    requires WellFormed(f) && end == CRLF + rest && value == f.value + end
    ensures DecodeTrailers(f.name + (": " + value)) == WithTrailer(f, DecodeTrailers(rest))
  {
    var line := ": " + value;
    var s := f.name + line;
    assert s[0] == f.name[0] && f.name[0] in f.name;
    SplitFinds(f.name, ':', line);
    assert line[1..] == [' '] + value;
    SpaceIsSkipped(f.value, end);
    SplitFinds(f.value, '\r', end);
    assert end[2..] == rest;
  }

  lemma FieldDecodes(f: Field, rest: string)
    requires WellFormed(f)
    ensures DecodeTrailers(FieldLine(f) + rest) == WithTrailer(f, DecodeTrailers(rest))
  {
    Regroup(f.name, ": ", f.value, CRLF, rest);
    LineDecodes(f, f.value + (CRLF + rest), CRLF + rest, rest);
  }

  lemma {:induction false} FieldsDecode(fields: seq<Field>, rest: string)
    requires forall f :: f in fields ==> WellFormed(f)
    ensures DecodeTrailers(FieldLines(fields) + (CRLF + rest)) == Decoded("", fields, rest)
  {
    var end := CRLF + rest;
    if fields == [] {
      Neutral(end);
      assert end[2..] == rest;
    } else {
      assert fields[0] in fields;
      FieldsDecode(fields[1..], rest);
      FieldDecodes(fields[0], FieldLines(fields[1..]) + end);
      Assoc(FieldLine(fields[0]), FieldLines(fields[1..]), end);
      assert [fields[0]] + fields[1..] == fields;
    }
  }

  lemma LastChunkDecodes(lines: string)
    ensures DecodeBody(LAST_CHUNK + lines) == DecodeTrailers(lines)
  {
    var t := CRLF + lines;
    assert t[2..] == lines;
    assert Number(0, 16) == "0";
    SizeReads(0, t);
    assert LAST_CHUNK + lines == "0" + t;
  }

  /** A whole chunked body. */
  lemma BodyDecodes(pieces: seq<string>, trailers: seq<Field>)
    requires "" !in pieces && forall f :: f in trailers ==> WellFormed(f)
    ensures DecodeBody(Chunks(pieces) + LAST_CHUNK + FieldLines(trailers) + CRLF) == Decoded(Join(pieces), trailers, "")
  {
    var lines := FieldLines(trailers) + CRLF;
    LastChunkDecodes(lines);
    FieldsDecode(trailers, "");
    Neutral(CRLF);
    ChunksDecode(pieces, LAST_CHUNK + lines);
    Assoc(Chunks(pieces), LAST_CHUNK, lines);
    Assoc(Chunks(pieces) + LAST_CHUNK, FieldLines(trailers), CRLF);
    assert Join(pieces) + "" == Join(pieces);
  }
}
