/** 3rdparty/tufao/src/querystring.cpp: printing and parsing query strings. */
module QueryStrings {
  import opened Bytes

  type Text = seq<Byte>

  const AMPERSAND: Byte := 38

  // ---------- percent encoding (RFC 3986, section 2.1)

  /** The characters that are never encoded: letters, digits, and - . _ ~ */
  predicate Unreserved(c: Byte) {
    65 <= c <= 90 || 97 <= c <= 122 || 48 <= c <= 57 || c == 45 || c == 46 || c == 95 || c == 126
  }

  function HexDigit(d: nat): Byte
    requires d < 16
  {
    if d < 10 then 48 + d else 55 + d
  }

  function HexValue(c: Byte): int {
    if 48 <= c <= 57 then c - 48 else if 65 <= c <= 70 then c - 55 else if 97 <= c <= 102 then c - 87 else -1
  }

  function EncodeByte(c: Byte, percent: Byte): Text {
    if Unreserved(c) then [c] else [percent, HexDigit(c / 16), HexDigit(c % 16)]
  }

  function Encode(s: Text, percent: Byte): Text {
    if s == [] then [] else EncodeByte(s[0], percent) + Encode(s[1..], percent)
  }

  /** An escape that is cut off or has no hexadecimal digits stands for itself. */
  function Decode(s: Text, percent: Byte): Text {
    if s == [] then []
    else if s[0] == percent && |s| >= 3 && HexValue(s[1]) >= 0 && HexValue(s[2]) >= 0 then
      [16 * HexValue(s[1]) + HexValue(s[2])] + Decode(s[3..], percent)
    else [s[0]] + Decode(s[1..], percent)
  }

  // ---------- printing

  datatype Style = Style(sep: Byte, eq: Byte, percentEncoding: bool, percent: Byte) {
    function Print(s: Text): Text { if percentEncoding then Encode(s, percent) else s }

    function Read(s: Text): Text { if percentEncoding then Decode(s, percent) else s }
  }

  type Entry = (Text, Text)

  function PrintEntry(e: Entry, style: Style): Text { style.Print(e.0) + [style.eq] + style.Print(e.1) }

  function Separated(entries: seq<Entry>, style: Style): Text {
    if entries == [] then [] else PrintEntry(entries[0], style) + [style.sep] + Separated(entries[1..], style)
  }

  /** Entries with a separator after each but the last. */
  function Printed(entries: seq<Entry>, style: Style): Text {
    if entries == [] then []
    else if |entries| == 1 then PrintEntry(entries[0], style)
    else PrintEntry(entries[0], style) + [style.sep] + Printed(entries[1..], style)
  }

  function Insert(m: map<Text, Text>, entries: seq<Entry>): map<Text, Text>
    decreases |entries|
  {
    if entries == [] then m else Insert(m[entries[0].0 := entries[0].1], entries[1..])
  }

  /** The entries of a map, each once, in some order. */
  ghost predicate IsListing(entries: seq<Entry>, m: map<Text, Text>) {
    |entries| == |m| && Insert(map[], entries) == m
  }

  lemma {:induction false} SeparatedAppend(entries: seq<Entry>, e: Entry, style: Style)
    ensures Separated(entries + [e], style) == Separated(entries, style) + PrintEntry(e, style) + [style.sep]
  {
    if entries == [] {
      assert entries + [e] == [e] && [e][1..] == [];
    } else {
      assert (entries + [e])[1..] == entries[1..] + [e];
      SeparatedAppend(entries[1..], e, style);
    }
  }

  lemma {:induction false} InsertAppend(m: map<Text, Text>, entries: seq<Entry>, e: Entry)
    ensures Insert(m, entries + [e]) == Insert(m, entries)[e.0 := e.1]
    decreases |entries|
  {
    if entries == [] {
      assert entries + [e] == [e] && [e][1..] == [];
    } else {
      assert (entries + [e])[1..] == entries[1..] + [e];
      InsertAppend(m[entries[0].0 := entries[0].1], entries[1..], e);
    }
  }

  /** The trailing separator is removed. */
  lemma {:induction false} SeparatedIsPrinted(entries: seq<Entry>, style: Style)
    requires entries != []
    ensures Separated(entries, style) == Printed(entries, style) + [style.sep]
  {
    if |entries| == 1 {
      assert entries[1..] == [];
    } else {
      SeparatedIsPrinted(entries[1..], style);
    }
  }

  /** stringify. The original visits the keys in ascending order; here the order is arbitrary. */
  method Stringify(m: map<Text, Text>, style: Style) returns (ret: Text)
    ensures exists entries :: IsListing(entries, m) && ret == Printed(entries, style)
  {
    ret := [];
    ghost var entries := [];
    var keys := m.Keys;
    ghost var done: map<Text, Text> := map[];
    while keys != {}
      invariant keys <= m.Keys
      invariant done == map k | k in m && k !in keys :: m[k]
      invariant |entries| + |keys| == |m.Keys|
      invariant Insert(map[], entries) == done
      invariant ret == Separated(entries, style)
      decreases |keys|
    {
      var key :| key in keys;
      var value := m[key];
      ret := ret + (style.Print(key) + [style.eq] + style.Print(value) + [style.sep]);
      SeparatedAppend(entries, (key, value), style);
      InsertAppend(map[], entries, (key, value));
      entries := entries + [(key, value)];
      keys := keys - {key};
      done := done[key := value];
    }
    assert done == m;
    if m.Keys != {} {
      SeparatedIsPrinted(entries, style);
      ret := ret[..|ret| - 1];
    }
    assert IsListing(entries, m) && ret == Printed(entries, style);
  }

  // ---------- parsing

  /** indexOf: the first c from an index on, or -1. */
  function IndexOf(s: Text, c: Byte, from: nat): (r: int)
    ensures r == -1 || (from <= r < |s| && s[r] == c)
    decreases |s| - from
  {
    if from >= |s| then -1 else if s[from] == c then from else IndexOf(s, c, from + 1)
  }

  lemma {:induction false} FirstIndex(s: Text, c: Byte, from: nat, j: nat)
    requires from <= j <= |s| && (j < |s| ==> s[j] == c) && forall x :: from <= x < j ==> s[x] != c
    ensures IndexOf(s, c, from) == if j == |s| then -1 else j
    decreases j - from
  {
    if from < j {
      FirstIndex(s, c, from + 1, j);
    }
  }

  /** Ampersands are skipped whatever the separator is. */
  function SkipAmpersands(s: Text, i: nat): (r: nat)
    requires i <= |s|
    ensures i <= r <= |s|
    decreases |s| - i
  {
    if i < |s| && s[i] == AMPERSAND then SkipAmpersands(s, i + 1) else i
  }

  /** The field from i up to j. A key without assignment keeps the value it has; when the separator is the
      assignment character, the value reaches to the end of the string. */
  function AddField(m: map<Text, Text>, s: Text, i: nat, j: nat, style: Style): map<Text, Text>
    requires i <= j <= |s|
  {
    var k := IndexOf(s, style.eq, i);
    if k == -1 || k > j then
      var key := style.Read(s[i..j]);
      if i == j || key in m then m else m[key := []]
    else if k == i then m
    else m[style.Read(s[i..k]) := style.Read(if j - k - 1 < 0 then s[k + 1..] else s[k + 1..j])]
  }

  /** The fields from i on, the first of them up to j. */
  function ParseFields(m: map<Text, Text>, s: Text, i: nat, j: int, style: Style): map<Text, Text>
    requires i <= |s| && (j == -1 || i <= j < |s|)
    decreases |s| - i
  {
    if j == -1 then AddField(m, s, i, |s|, style)
    else ParseFields(AddField(m, s, i, j, style), s, j + 1, IndexOf(s, style.sep, j + 1), style)
  }

  function Parsed(s: Text, style: Style): map<Text, Text> {
    var i := SkipAmpersands(s, 0);
    ParseFields(map[], s, i, IndexOf(s, style.sep, i + 1), style)
  }

  method ReadField(m: map<Text, Text>, s: Text, i: nat, j: nat, style: Style) returns (ret: map<Text, Text>)
    requires i <= j <= |s|
    ensures ret == AddField(m, s, i, j, style)
  {
    ret := m;
    var k := IndexOf(s, style.eq, i);
    if k == -1 || k > j {
      var key := s[i..j];
      if |key| != 0 && style.Read(key) !in ret {
        ret := ret[style.Read(key) := []];
      }
    } else {
      var key := s[i..k];
      if |key| != 0 {
        var value := if j - k - 1 < 0 then s[k + 1..] else s[k + 1..j];
        ret := ret[style.Read(key) := style.Read(value)];
      }
    }
  }

  /** parse. */
  method Parse(s: Text, style: Style) returns (ret: map<Text, Text>)
    ensures ret == Parsed(s, style)
  {
    hide AddField;
    ret := map[];
    var i := 0;
    while i < |s| && s[i] == AMPERSAND
      invariant i <= |s| && SkipAmpersands(s, i) == SkipAmpersands(s, 0)
    {
      i := i + 1;
    }
    var j := IndexOf(s, style.sep, i + 1);
    while j != -1
      invariant i <= |s| && (j == -1 || i <= j < |s|)
      invariant ParseFields(ret, s, i, j, style) == Parsed(s, style)
      decreases |s| - i
    {
      ret := ReadField(ret, s, i, j, style);
      i := j + 1;
      j := IndexOf(s, style.sep, j + 1);
    }
    ret := ReadField(ret, s, i, |s|, style);
  }

  // ---------- what is read

  /** A field as it stands in a text: a key, or a key and a value. */
  datatype Raw = Bare(key: Text) | Assigned(key: Text, value: Text)

  /** The parts are where the separators cut. */
  predicate WellCut(r: Raw, style: Style) {
    style.sep !in r.key && style.eq !in r.key && (r.Assigned? ==> style.sep !in r.value)
  }

  predicate AllWellCut(fields: seq<Raw>, style: Style) { forall r :: r in fields ==> WellCut(r, style) }

  function RawText(r: Raw, style: Style): Text { if r.Bare? then r.key else r.key + [style.eq] + r.value }

  function JoinedText(fields: seq<Raw>, style: Style): Text {
    if fields == [] then []
    else if |fields| == 1 then RawText(fields[0], style)
    else RawText(fields[0], style) + [style.sep] + JoinedText(fields[1..], style)
  }

  /** What a field means: without a key nothing, without a value an entry that is there at least, otherwise the entry. */
  function Store(m: map<Text, Text>, r: Raw, style: Style): map<Text, Text> {
    if r.key == [] then m
    else
      match r
      case Bare(key) => if style.Read(key) in m then m else m[style.Read(key) := []]
      case Assigned(key, value) => m[style.Read(key) := style.Read(value)]
  }

  function StoreAll(m: map<Text, Text>, fields: seq<Raw>, style: Style): map<Text, Text>
    decreases |fields|
  {
    if fields == [] then m else StoreAll(Store(m, fields[0], style), fields[1..], style)
  }

  lemma Parts(s: Text, i: nat, j: nat, key: Text, eq: Byte, value: Text)
    requires i <= j <= |s| && s[i..j] == key + [eq] + value
    ensures var k := i + |key|; k < j && s[i..k] == key && s[k] == eq && s[k + 1..j] == value
  {
    var k := i + |key|;
    assert s[k] == s[i..j][|key|] == eq;
    assert s[i..k] == s[i..j][..|key|] == key;
    assert s[k + 1..j] == s[i..j][|key| + 1..] == value;
  }

  lemma KeyEnds(s: Text, i: nat, key: Text, eq: Byte)
    requires i + |key| < |s| && s[i..i + |key|] == key && s[i + |key|] == eq && eq !in key
    ensures IndexOf(s, eq, i) == i + |key|
  {
    forall x | i <= x < i + |key| ensures s[x] != eq {
      assert s[x] == key[x - i] && key[x - i] in key;
    }
    FirstIndex(s, eq, i, i + |key|);
  }

  /** IndexOf finds nothing before j. */
  lemma {:induction false} NotBefore(s: Text, c: Byte, from: nat, j: nat)
    requires from <= j <= |s| && c !in s[from..j]
    ensures IndexOf(s, c, from) == -1 || IndexOf(s, c, from) >= j
    decreases j - from
  {
    if from < j {
      assert s[from] == s[from..j][0];
      assert s[from + 1..j] == s[from..j][1..];
      NotBefore(s, c, from + 1, j);
    }
  }

  /** A field at i is read up to its end j, where the text or a separator ends it. */
  lemma FieldIsRead(m: map<Text, Text>, s: Text, i: nat, j: nat, r: Raw, style: Style)
    requires style.sep != style.eq && WellCut(r, style)
    requires i <= j <= |s| && s[i..j] == RawText(r, style) && (j < |s| ==> s[j] == style.sep)
    ensures AddField(m, s, i, j, style) == Store(m, r, style)
  {
    match r
    case Bare(key) =>
      NotBefore(s, style.eq, i, j);
    case Assigned(key, value) =>
      Parts(s, i, j, key, style.eq, value);
      KeyEnds(s, i, key, style.eq);
  }

  /** The end of the first field of a text that starts at i. */
  function FieldEnd(fields: seq<Raw>, i: nat, style: Style): int
    requires fields != []
  {
    if |fields| == 1 then -1 else i + |RawText(fields[0], style)|
  }

  lemma SeparatorIsFound(s: Text, i: nat, fields: seq<Raw>, style: Style)
    requires fields != [] && WellCut(fields[0], style) && style.sep != style.eq
    requires i <= |s| && s[i..] == JoinedText(fields, style)
    ensures IndexOf(s, style.sep, i) == FieldEnd(fields, i, style)
  {
    var p := RawText(fields[0], style);
    forall x | i <= x < i + |p| ensures s[x] != style.sep {
      assert s[x] == s[i..][x - i] == p[x - i] && p[x - i] in p;
    }
    if |fields| > 1 {
      assert s[i + |p|] == s[i..][|p|] == style.sep;
    }
    FirstIndex(s, style.sep, i, i + |p|);
  }

  lemma PartsToTheEnd(s: Text, i: nat, p: Text, sep: Byte, rest: Text)
    requires i <= |s| && s[i..] == p + [sep] + rest
    ensures var j := i + |p|; j < |s| && s[i..j] == p && s[j] == sep && s[j + 1..] == rest
  {
    assert s[i..|s|] == s[i..];
    Parts(s, i, |s|, p, sep, rest);
    var j := i + |p|;
    assert s[j + 1..|s|] == s[j + 1..];
  }

  lemma FirstFieldEnds(s: Text, i: nat, fields: seq<Raw>, style: Style)
    requires |fields| > 1 && i <= |s| && s[i..] == JoinedText(fields, style)
    ensures var p := RawText(fields[0], style); var j := i + |p|;
            j < |s| && s[i..j] == p && s[j] == style.sep && s[j + 1..] == JoinedText(fields[1..], style)
  {
    PartsToTheEnd(s, i, RawText(fields[0], style), style.sep, JoinedText(fields[1..], style));
  }

  lemma LastFieldIsRead(m: map<Text, Text>, s: Text, i: nat, fields: seq<Raw>, style: Style)
    requires style.sep != style.eq && |fields| == 1 && AllWellCut(fields, style)
    requires i <= |s| && s[i..] == JoinedText(fields, style)
    ensures ParseFields(m, s, i, -1, style) == StoreAll(m, fields, style)
  {
    hide AddField, Store;
    assert fields[0] in fields && fields[1..] == [];
    assert s[i..|s|] == s[i..];
    FieldIsRead(m, s, i, |s|, fields[0], style);
  }

  lemma OneFieldLess(m: map<Text, Text>, s: Text, i: nat, j: nat, fields: seq<Raw>, style: Style)
    requires i <= j < |s| && fields != []
    ensures ParseFields(m, s, i, j, style) == ParseFields(AddField(m, s, i, j, style), s, j + 1, IndexOf(s, style.sep, j + 1), style)
    ensures StoreAll(m, fields, style) == StoreAll(Store(m, fields[0], style), fields[1..], style)
  {
  }

  lemma {:induction false} FieldsAreRead(m: map<Text, Text>, s: Text, i: nat, fields: seq<Raw>, style: Style)
    requires style.sep != style.eq && fields != [] && AllWellCut(fields, style)
    requires i <= |s| && s[i..] == JoinedText(fields, style)
    ensures ParseFields(m, s, i, FieldEnd(fields, i, style), style) == StoreAll(m, fields, style)
    decreases |fields|
  {
    hide AddField, ParseFields, Store, StoreAll, RawText, JoinedText, IndexOf, WellCut;
    if |fields| == 1 {
      LastFieldIsRead(m, s, i, fields, style);
    } else {
      var r, j := fields[0], i + |RawText(fields[0], style)|;
      assert r in fields && fields[1] in fields;
      FirstFieldEnds(s, i, fields, style);
      FieldIsRead(m, s, i, j, r, style);
      SeparatorIsFound(s, j + 1, fields[1..], style);
      FieldsAreRead(Store(m, r, style), s, j + 1, fields[1..], style);
      OneFieldLess(m, s, i, j, fields, style);
    }
  }

  lemma {:induction false} AmpersandsAreSkipped(s: Text, i: nat, n: nat)
    requires i <= n < |s| && s[n] != AMPERSAND && forall x :: i <= x < n ==> s[x] == AMPERSAND
    ensures SkipAmpersands(s, i) == n
    decreases n - i
  {
    if i < n {
      AmpersandsAreSkipped(s, i + 1, n);
    }
  }

  /** Every text of fields, the first of them not empty, with any number of ampersands before it: parse stores what its
      fields mean, from left to right, with or without percent encoding. */
  lemma FieldsAreParsed(ampersands: Text, fields: seq<Raw>, style: Style)
    requires style.sep != style.eq && fields != [] && AllWellCut(fields, style)
    requires RawText(fields[0], style) != [] && RawText(fields[0], style)[0] != AMPERSAND
    requires forall x :: 0 <= x < |ampersands| ==> ampersands[x] == AMPERSAND
    ensures Parsed(ampersands + JoinedText(fields, style), style) == StoreAll(map[], fields, style)
  {
    hide AddField, ParseFields, Parsed, Store, StoreAll, RawText, JoinedText, IndexOf, WellCut, SkipAmpersands, FieldEnd;
    var n := |ampersands|;
    var s := ampersands + JoinedText(fields, style);
    assert s[n..] == JoinedText(fields, style) && fields[0] in fields;
    FirstByte(fields, style);
    assert s[n] == JoinedText(fields, style)[0];
    AmpersandsAreSkipped(s, 0, n);
    SeparatorIsFound(s, n, fields, style);
    FieldsAreRead(map[], s, n, fields, style);
    ParsedFrom(s, n, style);
  }

  lemma FirstByte(fields: seq<Raw>, style: Style)
    requires style.sep != style.eq && fields != [] && WellCut(fields[0], style) && RawText(fields[0], style) != []
    ensures var s := JoinedText(fields, style); s != [] && s[0] == RawText(fields[0], style)[0] != style.sep
  {
    var p := RawText(fields[0], style);
    assert p[0] in p;
  }

  lemma ParsedFrom(s: Text, n: nat, style: Style)
    requires n < |s| && s[n] != style.sep && SkipAmpersands(s, 0) == n
    ensures Parsed(s, style) == ParseFields(map[], s, n, IndexOf(s, style.sep, n), style)
  {
    hide ParseFields;
  }

  // ---------- the round trip

  /** Distinct separators that the encoder never writes. */
  predicate Usable(style: Style) {
    && style.percentEncoding && style.sep != style.eq
    && !Unreserved(style.sep) && !Unreserved(style.eq) && !Unreserved(style.percent)
    && style.percent != style.sep && style.percent != style.eq
  }

  lemma HexRoundTrip(d: nat)
    requires d < 16
    ensures HexValue(HexDigit(d)) == d && Unreserved(HexDigit(d))
  {
  }

  lemma {:induction false} EncodeRoundTrip(s: Text, percent: Byte)
    requires !Unreserved(percent)
    ensures Decode(Encode(s, percent), percent) == s
    ensures forall c :: c in Encode(s, percent) ==> Unreserved(c) || c == percent
    ensures |Encode(s, percent)| >= |s|
  {
    if s != [] {
      EncodeRoundTrip(s[1..], percent);
      HexRoundTrip(s[0] / 16);
      HexRoundTrip(s[0] % 16);
      var head, rest := EncodeByte(s[0], percent), Encode(s[1..], percent);
      var all := head + rest;
      assert all[|head|..] == rest;
      assert s == [s[0]] + s[1..];
    }
  }

  lemma DecodeKeepsSome(s: Text, percent: Byte)
    ensures s != [] <==> Decode(s, percent) != []
  {
  }

  function RawOf(e: Entry, style: Style): Raw { Assigned(style.Print(e.0), style.Print(e.1)) }

  function RawsOf(entries: seq<Entry>, style: Style): (fields: seq<Raw>)
    ensures |fields| == |entries| && forall i :: 0 <= i < |entries| ==> fields[i] == RawOf(entries[i], style)
  {
    if entries == [] then [] else [RawOf(entries[0], style)] + RawsOf(entries[1..], style)
  }

  lemma {:induction false} PrintedIsJoined(entries: seq<Entry>, style: Style)
    ensures Printed(entries, style) == JoinedText(RawsOf(entries, style), style)
  {
    if entries != [] {
      PrintedIsJoined(entries[1..], style);
      assert RawsOf(entries, style)[1..] == RawsOf(entries[1..], style);
    }
  }

  /** What is printed for a key or a value is read back, and keeps apart from the separators. */
  predicate Survives(t: Text, key: bool, style: Style) {
    && style.Read(style.Print(t)) == t && (t != [] ==> style.Print(t) != [])
    && style.sep !in style.Print(t) && (key ==> style.eq !in style.Print(t))
  }

  predicate AllSurvive(entries: seq<Entry>, style: Style) {
    forall e :: e in entries ==> e.0 != [] && Survives(e.0, true, style) && Survives(e.1, false, style)
  }

  lemma {:induction false} StoredEntries(m: map<Text, Text>, entries: seq<Entry>, style: Style)
    requires AllSurvive(entries, style)
    ensures StoreAll(m, RawsOf(entries, style), style) == Insert(m, entries)
    ensures AllWellCut(RawsOf(entries, style), style)
    decreases |entries|
  {
    if entries != [] {
      var e := entries[0];
      assert e in entries;
      assert RawsOf(entries, style)[1..] == RawsOf(entries[1..], style);
      StoredEntries(m[e.0 := e.1], entries[1..], style);
      assert RawsOf(entries, style) == [RawOf(e, style)] + RawsOf(entries[1..], style);
    }
  }

  lemma PrintedIsParsed(entries: seq<Entry>, style: Style)
    requires style.sep != style.eq && AllSurvive(entries, style)
    requires entries != [] ==> style.Print(entries[0].0)[..1] != [AMPERSAND]
    ensures Parsed(Printed(entries, style), style) == Insert(map[], entries)
  {
    PrintedIsJoined(entries, style);
    if entries != [] {
      assert entries[0] in entries;
      StoredEntries(map[], entries, style);
      FieldsAreParsed([], RawsOf(entries, style), style);
      assert [] + JoinedText(RawsOf(entries, style), style) == Printed(entries, style);
    }
  }

  predicate KeysNonEmpty(entries: seq<Entry>) { forall e :: e in entries ==> e.0 != [] }

  lemma EncodedSurvives(t: Text, key: bool, style: Style)
    requires Usable(style)
    ensures Survives(t, key, style) && (style.percent != AMPERSAND ==> style.Print(t)[..if t == [] then 0 else 1] != [AMPERSAND])
  {
    EncodeRoundTrip(t, style.percent);
    if t != [] {
      assert style.Print(t)[0] in style.Print(t);
    }
  }

  lemma {:induction false} InsertKeys(m: map<Text, Text>, entries: seq<Entry>)
    ensures [] in Insert(m, entries) <==> [] in m || !KeysNonEmpty(entries)
    decreases |entries|
  {
    if entries != [] {
      InsertKeys(m[entries[0].0 := entries[0].1], entries[1..]);
      assert entries == [entries[0]] + entries[1..];
      assert KeysNonEmpty(entries) <==> entries[0].0 != [] && KeysNonEmpty(entries[1..]);
    }
  }

  /** No field has an empty key. */
  lemma FieldHasKey(m: map<Text, Text>, s: Text, i: nat, j: nat, style: Style)
    requires i <= j <= |s| && [] !in m
    ensures [] !in AddField(m, s, i, j, style)
  {
    var k := IndexOf(s, style.eq, i);
    DecodeKeepsSome(s[i..j], style.percent);
    if i <= k {
      DecodeKeepsSome(s[i..k], style.percent);
    }
  }

  lemma {:induction false} ParsedHasNoEmptyKey(m: map<Text, Text>, s: Text, i: nat, j: int, style: Style)
    requires i <= |s| && (j == -1 || i <= j < |s|) && [] !in m
    ensures [] !in ParseFields(m, s, i, j, style)
    decreases |s| - i
  {
    if j == -1 {
      FieldHasKey(m, s, i, |s|, style);
    } else {
      FieldHasKey(m, s, i, j, style);
      ParsedHasNoEmptyKey(AddField(m, s, i, j, style), s, j + 1, IndexOf(s, style.sep, j + 1), style);
    }
  }

  /** parse undoes stringify, whatever the order of the keys, exactly for the maps without an empty key. */
  lemma RoundTrip(m: map<Text, Text>, entries: seq<Entry>, style: Style)
    requires Usable(style) && style.percent != AMPERSAND && IsListing(entries, m)
    ensures Parsed(Printed(entries, style), style) == m <==> [] !in m
  {
    InsertKeys(map[], entries);
    if [] !in m {
      forall e | e in entries ensures Survives(e.0, true, style) && Survives(e.1, false, style) {
        EncodedSurvives(e.0, true, style);
        EncodedSurvives(e.1, false, style);
      }
      if entries != [] {
        assert entries[0] in entries;
        EncodedSurvives(entries[0].0, true, style);
      }
      PrintedIsParsed(entries, style);
    } else {
      var s := Printed(entries, style);
      var i := SkipAmpersands(s, 0);
      ParsedHasNoEmptyKey(map[], s, i, IndexOf(s, style.sep, i + 1), style);
    }
  }

  /** Without percent encoding parse undoes stringify as long as no separator stands in a key and no field separator in
      a value, and the first key does not start with an ampersand. */
  lemma PlainRoundTrip(m: map<Text, Text>, entries: seq<Entry>, style: Style)
    requires !style.percentEncoding && style.sep != style.eq && IsListing(entries, m) && KeysNonEmpty(entries)
    requires forall e :: e in entries ==> style.sep !in e.0 && style.eq !in e.0 && style.sep !in e.1
    requires entries != [] ==> entries[0].0[..1] != [AMPERSAND]
    ensures Parsed(Printed(entries, style), style) == m
  {
    if entries != [] {
      assert entries[0] in entries;
    }
    PrintedIsParsed(entries, style);
  }

  ghost predicate RoundTrips(style: Style) {
    forall m, entries :: IsListing(entries, m) && [] !in m ==> Parsed(Printed(entries, style), style) == m
  }

  /** Among the usable styles, exactly those round-trip whose percent sign is not the ampersand, which parse skips
      at the start. */
  lemma RoundTripExactly(style: Style)
    requires Usable(style)
    ensures RoundTrips(style) <==> style.percent != AMPERSAND
  {
    if style.percent != AMPERSAND {
      forall m, entries | IsListing(entries, m) && [] !in m ensures Parsed(Printed(entries, style), style) == m {
        RoundTrip(m, entries, style);
      }
    } else {
      AmpersandIsSkipped(style);
    }
  }

  /** A space as the first key is printed as &20, and comes back as 20. */
  lemma AmpersandIsSkipped(style: Style)
    requires Usable(style) && style.percent == AMPERSAND
    ensures !RoundTrips(style)
  {
    var e: Entry := ([32], []);
    var m := map[[32] := []];
    assert [e][1..] == [];
    assert Insert(map[], [e]) == m && IsListing([e], m);
    SpaceIsPrinted(style);
    EscapeIsCut(PrintEntry(e, style), style);
    assert [50, 48] !in m;
  }

  lemma SpaceIsPrinted(style: Style)
    requires Usable(style) && style.percent == AMPERSAND
    ensures PrintEntry(([32], []), style) == [AMPERSAND, 50, 48, style.eq]
  {
    assert [32][1..] == [];
    assert EncodeByte(32, AMPERSAND) == [AMPERSAND, 50, 48];
  }

  lemma EscapeIsCut(s: Text, style: Style)
    requires Usable(style) && style.percent == AMPERSAND && s == [AMPERSAND, 50, 48, style.eq]
    ensures [50, 48] in Parsed(s, style)
  {
    var r := Assigned([50, 48], []);
    assert RawText(r, style) == [50, 48, style.eq];
    assert [AMPERSAND] + JoinedText([r], style) == s;
    FieldsAreParsed([AMPERSAND], [r], style);
    assert [r][1..] == [];
    assert [50, 48][1..] == [48] && [48][1..] == [];
    assert Decode([48], AMPERSAND) == [48];
    assert Decode([50, 48], AMPERSAND) == [50, 48];
  }
}
