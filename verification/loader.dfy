/** The load steps of `verifyFile`: a CSV text becomes a trimmed header and parsed rows; a
    parsed JSON value becomes the list of plain objects, the union of their keys and rows
    padded to that header. */
module Loader {
  import opened Wrappers
  import opened Seqs
  import opened Text
  import opened JsonValue
  import opened CsvCodec

  datatype LoadError =
    | NoFileSelected                  // 'No file selected'
    | NoSchemaSet                     // 'Please set table schema first'
    | Unsupported                     // 'Only CSV and JSON files are supported'
    | EmptyCsv                        // 'CSV file is empty'
    | InvalidJson                     // 'Invalid JSON: could not parse file'
    | NoObjects                       // 'JSON must be an object or an array of objects'
    | NoKeys(objects: seq<Json>)      // 'JSON has no keys to preview'; the objects are kept

  /** What a successful load leaves in `csvHeader`, `csvRows` and `jsonObjects`. */
  datatype Loaded = Loaded(header: seq<string>, rows: seq<seq<Json>>, jsonObjects: Option<seq<Json>>)

  // ---------------------------------------------------------------- CSV

  /** `text.replace(/\r\n/g, '\n')`. */
  function ReplaceCrLf(s: string): (r: string)
    ensures '\r' !in s ==> r == s
    decreases |s|
  {
    if s == [] then []
    else if |s| >= 2 && s[0] == '\r' && s[1] == '\n' then "\n" + ReplaceCrLf(s[2..])
    else [s[0]] + ReplaceCrLf(s[1..])
  }

  /** A carriage return at the end of `a` and a line feed at the start of `b` would form a
      pair across the boundary. */
  predicate Splices(a: string, b: string)
  {
    |a| > 0 && a[|a| - 1] == '\r' && |b| > 0 && b[0] == '\n'
  }

  /** Unless a pair straddles the boundary, the replacement works piece by piece. */
  lemma {:induction false} ReplaceCrLfAppend(a: string, b: string)
    requires !Splices(a, b)
    ensures ReplaceCrLf(a + b) == ReplaceCrLf(a) + ReplaceCrLf(b)
    decreases |a|, 1
  {
    if a == [] {
      assert a + b == b;
    } else if |a| >= 2 && a[0] == '\r' && a[1] == '\n' {
      ReplaceCrLfAppendPair(a, b);
    } else {
      ReplaceCrLfAppendOne(a, b);
    }
  }

  lemma {:induction false} ReplaceCrLfAppendPair(a: string, b: string)
    requires !Splices(a, b)
    requires |a| >= 2 && a[0] == '\r' && a[1] == '\n'
    ensures ReplaceCrLf(a + b) == ReplaceCrLf(a) + ReplaceCrLf(b)
    decreases |a|, 0
  {
    var ab := a + b;
    assert ab[0] == '\r' && ab[1] == '\n';
    assert ab[2..] == a[2..] + b;
    assert !Splices(a[2..], b) by {
      if |a| >= 3 { assert a[2..][|a| - 3] == a[|a| - 1]; }
    }
    ReplaceCrLfAppend(a[2..], b);
  }

  lemma {:induction false} ReplaceCrLfAppendOne(a: string, b: string)
    requires !Splices(a, b)
    requires a != [] && !(|a| >= 2 && a[0] == '\r' && a[1] == '\n')
    ensures ReplaceCrLf(a + b) == ReplaceCrLf(a) + ReplaceCrLf(b)
    decreases |a|, 0
  {
    var ab := a + b;
    assert ab[0] == a[0];
    assert !(|ab| >= 2 && ab[0] == '\r' && ab[1] == '\n') by {
      if |a| >= 2 { assert ab[1] == a[1]; }
      else if |b| > 0 { assert ab[1] == b[0] && a[|a| - 1] == a[0]; }
    }
    assert ab[1..] == a[1..] + b;
    assert !Splices(a[1..], b) by {
      if |a| >= 2 { assert a[1..][|a| - 2] == a[|a| - 1]; }
    }
    ReplaceCrLfAppend(a[1..], b);
    assert ReplaceCrLf(ab) == [a[0]] + ReplaceCrLf(a[1..] + b);
    assert ReplaceCrLf(a) == [a[0]] + ReplaceCrLf(a[1..]);
    AppendAssoc([a[0]], ReplaceCrLf(a[1..]), ReplaceCrLf(b));
  }

  /** A carriage return that is not followed by a line feed stays; a pair becomes one line
      feed. */
  lemma ReplaceCrLfUnits()
    ensures ReplaceCrLf("\r") == "\r"
    ensures ReplaceCrLf("\r\n") == "\n"
  {
    assert "\r\n"[2..] == [];
  }

  /** Both replacements of `verifyFile`: every line ending becomes a line feed. */
  function NormalizeNewlines(text: string): (r: string)
    ensures '\r' !in r
  {
    ReplaceAll(ReplaceCrLf(text), '\r', "\n")
  }

  /** A text with no carriage return is left as it is. */
  lemma NormalizeKeeps(text: string)
    requires '\r' !in text
    ensures NormalizeNewlines(text) == text
  {
    ReplaceAllAbsent(text, '\r', "\n");
  }

  /** Unless a pair straddles the boundary, normalising works piece by piece. */
  lemma NormalizeAppend(a: string, b: string)
    requires !Splices(a, b)
    ensures NormalizeNewlines(a + b) == NormalizeNewlines(a) + NormalizeNewlines(b)
  {
    ReplaceCrLfAppend(a, b);
    ReplaceAllAppend(ReplaceCrLf(a), ReplaceCrLf(b), '\r', "\n");
  }

  /** The three line endings a CSV file may use. */
  predicate LineEnding(e: string)
  {
    e == "\n" || e == "\r\n" || e == "\r"
  }

  /** Each of the three line endings becomes one line feed. */
  lemma NormalizeEnding(e: string)
    requires LineEnding(e)
    ensures NormalizeNewlines(e) == "\n"
  {
    ReplaceCrLfUnits();
  }

  predicate SingleLine(l: string)
  {
    '\n' !in l && '\r' !in l
  }

  /** One line, its line ending and the rest: the ending becomes a line feed. */
  lemma NormalizeLineStep(line: string, e: string, rest: string)
    requires SingleLine(line) && LineEnding(e)
    requires e == "\r" ==> '\n' !in rest
    ensures NormalizeNewlines(line + e + rest) == line + "\n" + NormalizeNewlines(rest)
  {
    assert line + e + rest == line + (e + rest);
    assert !Splices(line, e + rest) by {
      if |line| > 0 { assert line[|line| - 1] in line; }
    }
    NormalizeKeeps(line);
    NormalizeAppend(line, e + rest);
    NormalizeEndingStep(e, rest);
    AppendAssoc(line, "\n", NormalizeNewlines(rest));
  }

  /** A line ending followed by the rest of the text. */
  lemma NormalizeEndingStep(e: string, rest: string)
    requires LineEnding(e)
    requires e == "\r" ==> '\n' !in rest
    ensures NormalizeNewlines(e + rest) == "\n" + NormalizeNewlines(rest)
  {
    assert !Splices(e, rest) by {
      if e == "\r" && |rest| > 0 { assert rest[0] in rest; }
    }
    NormalizeAppend(e, rest);
    NormalizeEnding(e);
  }

  /** Lines joined with any one of the line endings normalise to the same lines joined with
      line feeds. */
  lemma {:induction false} NormalizeJoin(ls: seq<string>, e: string)
    requires LineEnding(e)
    requires forall i :: 0 <= i < |ls| ==> SingleLine(ls[i])
    ensures NormalizeNewlines(JoinWith(ls, e)) == Join(ls, '\n')
    decreases |ls|
  {
    if |ls| == 0 {
      assert JoinWith(ls, e) == "";
    } else if |ls| == 1 {
      NormalizeKeeps(ls[0]);
    } else {
      var rest := JoinWith(ls[1..], e);
      NormalizeJoin(ls[1..], e);
      if e == "\r" {
        JoinWithAbsent(ls[1..], e, '\n');
      }
      NormalizeLineStep(ls[0], e, rest);
    }
  }

  predicate NonEmpty(l: string)
  {
    |l| > 0
  }

  /** The non-empty lines of the text. */
  function CsvLines(text: string): (r: seq<string>)
    ensures forall i :: 0 <= i < |r| ==> |r[i]| > 0 && '\n' !in r[i] && '\r' !in r[i]
  {
    var pieces := Split(NormalizeNewlines(text), '\n');
    var r := Filter(pieces, NonEmpty);
    assert forall i :: 0 <= i < |r| ==> '\r' !in r[i] by {
      forall i | 0 <= i < |r| ensures '\r' !in r[i] {
        SplitSubset(NormalizeNewlines(text), '\n', r[i]);
      }
    }
    r
  }

  /** The lines of a file written with any one of the line endings are its non-empty lines. */
  lemma CsvLinesJoin(ls: seq<string>, e: string)
    requires LineEnding(e)
    requires forall i :: 0 <= i < |ls| ==> SingleLine(ls[i])
    ensures CsvLines(JoinWith(ls, e)) == Filter(ls, NonEmpty)
  {
    NormalizeJoin(ls, e);
    if ls == [] {
      assert Split("", '\n') == [""];
      assert Filter([""], NonEmpty) == Filter([""][1..], NonEmpty);
    } else {
      SplitJoin(ls, '\n');
    }
  }

  /** A piece produced by `Split` holds only characters of the split text. */
  lemma {:induction false} SplitSubset(s: string, sep: char, piece: string)
    requires piece in Split(s, sep)
    ensures forall c :: c in piece ==> c in s
    decreases |s|
  {
    if s != [] {
      var rest := Split(s[1..], sep);
      if s[0] == sep {
        if piece != "" { SplitSubset(s[1..], sep, piece); }
      } else {
        assert Split(s, sep) == [[s[0]] + rest[0]] + rest[1..];
        if piece == [s[0]] + rest[0] {
          SplitSubset(s[1..], sep, rest[0]);
        } else {
          assert piece in rest;
          SplitSubset(s[1..], sep, piece);
        }
      }
    }
  }

  function TrimAll(fields: seq<string>): (r: seq<string>)
    ensures |r| == |fields|
    ensures forall i :: 0 <= i < |fields| ==> r[i] == JsTrim(fields[i])
  {
    seq(|fields|, i requires 0 <= i < |fields| => JsTrim(fields[i]))
  }

  /** `parseCsvLine(line).map(s => s.trim()).filter(Boolean)`. */
  function CsvHeader(line: string): (r: seq<string>)
    ensures forall i :: 0 <= i < |r| ==> r[i] != "" && !IsJsSpace(r[i][0]) && !IsJsSpace(r[i][|r[i]| - 1])
  {
    Filter(TrimAll(ParseLine(line)), NonEmpty)
  }

  /** The header line of fields that are already trimmed gives back the non-empty ones. */
  lemma CsvHeaderOfFields(fields: seq<string>)
    requires |fields| >= 1
    requires forall i :: 0 <= i < |fields| ==> JsTrim(fields[i]) == fields[i]
    ensures CsvHeader(EscapedLine(fields)) == Filter(fields, NonEmpty)
  {
    RoundTrip(fields);
    assert TrimAll(fields) == fields;
  }

  /** The cells of a CSV row are strings. */
  function Cells(fields: seq<string>): (r: seq<Json>)
    ensures |r| == |fields|
    ensures forall i :: 0 <= i < |fields| ==> r[i] == JStr(fields[i])
  {
    seq(|fields|, i requires 0 <= i < |fields| => JStr(fields[i]))
  }

  /** `lines.slice(1).map(parseCsvLine)`. */
  function CsvRows(lines: seq<string>): (r: seq<seq<Json>>)
    ensures |r| == |lines|
    ensures forall i :: 0 <= i < |lines| ==> r[i] == Cells(ParseLine(lines[i]))
  {
    seq(|lines|, i requires 0 <= i < |lines| => Cells(ParseLine(lines[i])))
  }

  /** The CSV branch of `verifyFile`. */
  function LoadCsv(text: string): (r: Result<Loaded, LoadError>)
    ensures r.Err? <==> CsvLines(text) == []
    ensures r.Err? ==> r.error == EmptyCsv
    ensures r.Ok? ==>
      var lines := CsvLines(text);
      && r.value.header == CsvHeader(lines[0])
      && |r.value.rows| == |lines| - 1
      && (forall i :: 0 < i < |lines| ==> r.value.rows[i - 1] == Cells(ParseLine(lines[i])))
      && r.value.jsonObjects == None
  {
    var lines := CsvLines(text);
    if |lines| == 0 then Err(EmptyCsv)
    else Ok(Loaded(CsvHeader(lines[0]), CsvRows(lines[1..]), None))
  }

  /** Each record written as one CSV line. */
  function EscapedLines(records: seq<seq<string>>): (r: seq<string>)
    ensures |r| == |records|
    ensures forall i :: 0 <= i < |records| ==> r[i] == EscapedLine(records[i])
  {
    seq(|records|, i requires 0 <= i < |records| => EscapedLine(records[i]))
  }

  /** No line ending in a field means none in its escaped line. */
  lemma EscapedLineSingle(fields: seq<string>)
    requires forall i :: 0 <= i < |fields| ==> SingleLine(fields[i])
    ensures SingleLine(EscapedLine(fields))
  {
    var esc := EscapeAll(fields);
    forall i | 0 <= i < |esc| ensures SingleLine(esc[i]) {
      CsvEscapeChars(fields[i]);
    }
    JoinIsJoinWith(esc, ',');
    JoinWithAbsent(esc, ",", '\n');
    JoinWithAbsent(esc, ",", '\r');
  }

  /** The lines of a CSV file written from a header and records. */
  function FileLines(header: seq<string>, records: seq<seq<string>>): (r: seq<string>)
    ensures |r| == |records| + 1
  {
    [EscapedLine(header)] + EscapedLines(records)
  }

  /** Header and records free of line endings give single, non-empty lines. */
  lemma FileLinesSingle(header: seq<string>, records: seq<seq<string>>)
    requires EscapedLine(header) != ""
    requires forall i :: 0 <= i < |header| ==> SingleLine(header[i])
    requires forall k :: 0 <= k < |records| ==> EscapedLine(records[k]) != ""
    requires forall k, i :: 0 <= k < |records| && 0 <= i < |records[k]| ==> SingleLine(records[k][i])
    ensures forall i :: 0 <= i < |FileLines(header, records)| ==>
              SingleLine(FileLines(header, records)[i]) && NonEmpty(FileLines(header, records)[i])
  {
    var lines := FileLines(header, records);
    forall i | 0 <= i < |lines| ensures SingleLine(lines[i]) && NonEmpty(lines[i]) {
      if i == 0 {
        EscapedLineSingle(header);
      } else {
        EscapedLineSingle(records[i - 1]);
      }
    }
  }

  /** Each escaped record parses back to its fields. */
  lemma RecordsRoundTrip(records: seq<seq<string>>)
    requires forall k :: 0 <= k < |records| ==> |records[k]| >= 1
    ensures forall k :: 0 <= k < |records| ==> CsvRows(EscapedLines(records))[k] == Cells(records[k])
  {
    forall k | 0 <= k < |records| ensures CsvRows(EscapedLines(records))[k] == Cells(records[k]) {
      RoundTrip(records[k]);
    }
  }

  /** A CSV file written from a header and records, fields free of line endings and the
      header trimmed, loads back to the non-empty header names and to the records as rows of
      strings, whichever line ending it uses. */
  lemma LoadCsvRoundTrip(header: seq<string>, records: seq<seq<string>>, e: string)
    requires LineEnding(e)
    requires |header| >= 1 && EscapedLine(header) != ""
    requires forall i :: 0 <= i < |header| ==> SingleLine(header[i]) && JsTrim(header[i]) == header[i]
    requires forall k :: 0 <= k < |records| ==> |records[k]| >= 1 && EscapedLine(records[k]) != ""
    requires forall k, i :: 0 <= k < |records| && 0 <= i < |records[k]| ==> SingleLine(records[k][i])
    ensures LoadCsv(JoinWith(FileLines(header, records), e)).Ok?
    ensures var l := LoadCsv(JoinWith(FileLines(header, records), e)).value;
      && l.header == Filter(header, NonEmpty)
      && |l.rows| == |records|
      && (forall k :: 0 <= k < |records| ==> l.rows[k] == Cells(records[k]))
      && l.jsonObjects == None
  {
    var lines := FileLines(header, records);
    FileLinesSingle(header, records);
    CsvLinesJoin(lines, e);
    FilterAll(lines, NonEmpty);
    CsvHeaderOfFields(header);
    assert lines[1..] == EscapedLines(records);
    RecordsRoundTrip(records);
  }

  // ---------------------------------------------------------------- JSON

  /** `x && typeof x === 'object' && !Array.isArray(x)`. */
  predicate IsPlainObject(x: Json)
  {
    x.JObj?
  }

  /** A parsed value that is not an array is treated as a one-element array; only the
      plain objects are kept. */
  function JsonObjects(parsed: Json): (r: seq<Json>)
    ensures forall i :: 0 <= i < |r| ==> r[i].JObj?
    ensures parsed.JArr? ==> forall i :: 0 <= i < |parsed.items| && parsed.items[i].JObj? ==> parsed.items[i] in r
    ensures parsed.JArr? ==> forall i :: 0 <= i < |r| ==> r[i] in parsed.items
    ensures !parsed.JArr? ==> r == if parsed.JObj? then [parsed] else []
  {
    Filter(if parsed.JArr? then parsed.items else [parsed], IsPlainObject)
  }

  /** The objects of two arrays laid end to end are those of the first followed by those
      of the second: the order of the array is kept. */
  lemma JsonObjectsAppend(xs: seq<Json>, ys: seq<Json>)
    ensures JsonObjects(JArr(xs + ys)) == JsonObjects(JArr(xs)) + JsonObjects(JArr(ys))
  {
    FilterAppend(xs, ys, IsPlainObject);
  }

  /** An array of objects only is kept whole. */
  lemma JsonObjectsAll(xs: seq<Json>)
    requires forall i :: 0 <= i < |xs| ==> xs[i].JObj?
    ensures JsonObjects(JArr(xs)) == xs
  {
    FilterAll(xs, IsPlainObject);
  }

  /** `Object.keys(row)` for the rows `getJsonKeySet` looks at, empty for the others. */
  function KeysOf(row: Json): seq<string>
  {
    if row.JObj? then Keys(row.fields) else []
  }

  /** Every key of every row, in row order, duplicates included. */
  function AllKeys(rows: seq<Json>): seq<string>
    decreases |rows|
  {
    if rows == [] then [] else AllKeys(rows[..|rows| - 1]) + KeysOf(rows[|rows| - 1])
  }

  /** The elements of `s` in order of first occurrence, each once: what adding them one by
      one to a JavaScript `Set` and reading it back gives. */
  function Dedup(s: seq<string>): seq<string>
    decreases |s|
  {
    if s == [] then []
    else
      var d := Dedup(s[..|s| - 1]);
      if s[|s| - 1] in d then d else d + [s[|s| - 1]]
  }

  /** The position of the first occurrence. */
  function FirstIndex(s: seq<string>, x: string): (r: nat)
    requires x in s
    ensures r < |s| && s[r] == x && x !in s[..r]
    decreases |s|
  {
    if s[0] == x then 0
    else
      var r := 1 + FirstIndex(s[1..], x);
      assert s[..r] == [s[0]] + s[1..][..r - 1];
      r
  }

  lemma {:induction false} FirstIndexExtend(s: seq<string>, x: string, y: string)
    requires y in s
    ensures FirstIndex(s + [x], y) == FirstIndex(s, y)
    decreases |s|
  {
    if s[0] != y {
      assert s == [s[0]] + s[1..];
      assert (s + [x])[1..] == s[1..] + [x];
      FirstIndexExtend(s[1..], x, y);
    }
  }

  /** Adding one more element to the set. */
  lemma DedupSnoc(s: seq<string>, k: string)
    ensures Dedup(s + [k]) == if k in Dedup(s) then Dedup(s) else Dedup(s) + [k]
  {
    assert (s + [k])[..|s|] == s;
  }

  lemma AllKeysSnoc(rows: seq<Json>, i: nat)
    requires i < |rows|
    ensures AllKeys(rows[..i + 1]) == AllKeys(rows[..i]) + KeysOf(rows[i])
  {
    assert rows[..i + 1][..i] == rows[..i];
  }

  /** The key union has no duplicates, holds exactly the keys that occur, and lists them in
      the order in which they first occur. */
  lemma {:induction false} DedupProperties(s: seq<string>)
    ensures Distinct(Dedup(s))
    ensures forall x :: x in Dedup(s) <==> x in s
    ensures forall i, j :: 0 <= i < j < |Dedup(s)| ==> FirstIndex(s, Dedup(s)[i]) < FirstIndex(s, Dedup(s)[j])
    decreases |s|
  {
    if s != [] {
      var p := s[..|s| - 1];
      var x := s[|s| - 1];
      assert s == p + [x];
      DedupProperties(p);
      var d := Dedup(p);
      forall y | y in p ensures FirstIndex(s, y) == FirstIndex(p, y) {
        FirstIndexExtend(p, x, y);
      }
      if x !in d {
        assert x !in p;
        assert FirstIndex(s, x) == |p|;
      }
    }
  }

  /** `getJsonKeySet(rows)` as a value. */
  function KeyUnion(rows: seq<Json>): seq<string>
  {
    Dedup(AllKeys(rows))
  }

  lemma {:induction false} AllKeysMembers(rows: seq<Json>, k: string)
    ensures k in AllKeys(rows) <==> exists i :: 0 <= i < |rows| && k in KeysOf(rows[i])
    decreases |rows|
  {
    if rows != [] {
      var p := rows[..|rows| - 1];
      AllKeysMembers(p, k);
      if k in AllKeys(rows) && k !in KeysOf(rows[|rows| - 1]) {
        var i :| 0 <= i < |p| && k in KeysOf(p[i]);
        assert rows[i] == p[i];
      }
      if exists i :: 0 <= i < |rows| && k in KeysOf(rows[i]) {
        var i :| 0 <= i < |rows| && k in KeysOf(rows[i]);
        if i < |p| { assert p[i] == rows[i]; }
      }
    }
  }

  /** `getJsonKeySet`: every key of every object row, once each, in first-seen order. */
  lemma KeyUnionProperties(rows: seq<Json>)
    ensures Distinct(KeyUnion(rows))
    ensures forall k :: k in KeyUnion(rows) ==> k in AllKeys(rows)
    ensures forall k :: k in KeyUnion(rows) <==> exists i :: 0 <= i < |rows| && k in KeysOf(rows[i])
    ensures forall i, j :: 0 <= i < j < |KeyUnion(rows)| ==>
      FirstIndex(AllKeys(rows), KeyUnion(rows)[i]) < FirstIndex(AllKeys(rows), KeyUnion(rows)[j])
  {
    DedupProperties(AllKeys(rows));
    forall k ensures k in KeyUnion(rows) <==> exists i :: 0 <= i < |rows| && k in KeysOf(rows[i]) {
      AllKeysMembers(rows, k);
    }
  }

  /** `Object.keys(row).forEach(k => keys.add(k))`: the inner loop of `getJsonKeySet`. */
  method AddKeys(keys0: seq<string>, ks: seq<string>, ghost seen: seq<string>) returns (keys: seq<string>)
    requires keys0 == Dedup(seen)
    ensures keys == Dedup(seen + ks)
  {
    keys := keys0;
    assert seen + ks[..0] == seen;
    var j := 0;
    while j < |ks|
      invariant 0 <= j <= |ks|
      invariant keys == Dedup(seen + ks[..j])
    {
      ghost var before := seen + ks[..j];
      assert seen + ks[..j + 1] == before + [ks[j]] by {
        assert ks[..j + 1] == ks[..j] + [ks[j]];
        AppendAssoc(seen, ks[..j], [ks[j]]);
      }
      DedupSnoc(before, ks[j]);
      if ks[j] !in keys {
        keys := keys + [ks[j]];
      }
      j := j + 1;
    }
    assert ks[..j] == ks;
  }

  /** `getJsonKeySet`: the loop over the rows, adding each key of each plain object to a set. */
  method GetJsonKeySet(rows: seq<Json>) returns (keys: seq<string>)
    ensures keys == KeyUnion(rows)
  {
    keys := [];
    var i := 0;
    while i < |rows|
      invariant 0 <= i <= |rows|
      invariant keys == Dedup(AllKeys(rows[..i]))
    {
      AllKeysSnoc(rows, i);
      if rows[i].JObj? {
        keys := AddKeys(keys, Keys(rows[i].fields), AllKeys(rows[..i]));
      } else {
        assert AllKeys(rows[..i]) + KeysOf(rows[i]) == AllKeys(rows[..i]);
      }
      i := i + 1;
    }
    assert rows[..i] == rows;
  }

  /** `o?.[k] ?? ''`. */
  function Pad(v: Option<Json>): (r: Json)
    ensures !r.JNull?
    ensures v.Some? && !v.value.JNull? ==> r == v.value
  {
    if v.None? || v.value.JNull? then JStr("") else v.value
  }

  function CellOf(o: Json, k: string): Json
  {
    if o.JObj? then Pad(Get(o.fields, k)) else JStr("")
  }

  /** `objs.map(o => csvHeader.map(k => o?.[k] ?? ''))`. */
  function JsonRows(objs: seq<Json>, header: seq<string>): (r: seq<seq<Json>>)
    ensures |r| == |objs|
    ensures forall i :: 0 <= i < |objs| ==> |r[i]| == |header|
    ensures forall i, j :: 0 <= i < |objs| && 0 <= j < |header| ==> r[i][j] == CellOf(objs[i], header[j])
  {
    seq(|objs|, i requires 0 <= i < |objs| =>
      seq(|header|, j requires 0 <= j < |header| => CellOf(objs[i], header[j])))
  }

  /** The JSON branch of `verifyFile`; `None` stands for a text `JSON.parse` rejects. */
  function LoadJson(parsed: Option<Json>): (r: Result<Loaded, LoadError>)
    ensures parsed.None? ==> r == Err(InvalidJson)
    ensures parsed.Some? && JsonObjects(parsed.value) == [] ==> r == Err(NoObjects)
    ensures parsed.Some? && JsonObjects(parsed.value) != [] && KeyUnion(JsonObjects(parsed.value)) == [] ==>
      r == Err(NoKeys(JsonObjects(parsed.value)))
    ensures r.Ok? ==>
      var objs := JsonObjects(parsed.value);
      && r.value.jsonObjects == Some(objs)
      && r.value.header == KeyUnion(objs) != []
      && r.value.rows == JsonRows(objs, r.value.header)
  {
    if parsed.None? then Err(InvalidJson)
    else
      var objs := JsonObjects(parsed.value);
      if objs == [] then Err(NoObjects)
      else
        var header := KeyUnion(objs);
        if header == [] then Err(NoKeys(objs))
        else Ok(Loaded(header, JsonRows(objs, header), Some(objs)))
  }

  /** A loaded JSON preview: the header is the key union (distinct, and covering every key of
      every object), and each row holds, per header key, the object's value for that key or
      `''` when the key is absent or null. */
  lemma LoadJsonRows(parsed: Option<Json>)
    requires LoadJson(parsed).Ok?
    ensures var l := LoadJson(parsed).value;
      var objs := l.jsonObjects.value;
      && Distinct(l.header)
      && (forall i, k :: 0 <= i < |objs| && k in Keys(objs[i].fields) ==> k in l.header)
      && |l.rows| == |objs|
      && (forall i, j :: 0 <= i < |objs| && 0 <= j < |l.header| ==>
            |l.rows[i]| == |l.header| &&
            ((Get(objs[i].fields, l.header[j]).Some? && !Get(objs[i].fields, l.header[j]).value.JNull?)
               ==> l.rows[i][j] == Get(objs[i].fields, l.header[j]).value) &&
            ((Get(objs[i].fields, l.header[j]).None? || Get(objs[i].fields, l.header[j]).value.JNull?)
               ==> l.rows[i][j] == JStr("")))
  {
    var objs := JsonObjects(parsed.value);
    KeyUnionProperties(objs);
    forall i, k | 0 <= i < |objs| && k in Keys(objs[i].fields) ensures k in KeyUnion(objs) {
      assert k in KeysOf(objs[i]);
    }
  }

  lemma DedupEmpty(s: seq<string>)
    ensures Dedup(s) == [] <==> s == []
  {
  }

  lemma {:induction false} AllKeysEmpty(rows: seq<Json>)
    ensures AllKeys(rows) == [] <==> forall i :: 0 <= i < |rows| ==> KeysOf(rows[i]) == []
    decreases |rows|
  {
    if rows != [] {
      var n := |rows| - 1;
      var p := rows[..n];
      AllKeysEmpty(p);
      assert AllKeys(rows) == AllKeys(p) + KeysOf(rows[n]);
      assert forall i :: 0 <= i < n ==> p[i] == rows[i];
    }
  }

  /** The no-keys error happens exactly when every object is empty. */
  lemma NoKeysWhenAllEmpty(objs: seq<Json>)
    requires forall i :: 0 <= i < |objs| ==> objs[i].JObj?
    ensures KeyUnion(objs) == [] <==> forall i :: 0 <= i < |objs| ==> objs[i].fields == []
  {
    DedupEmpty(AllKeys(objs));
    AllKeysEmpty(objs);
    assert forall i :: 0 <= i < |objs| ==> |KeysOf(objs[i])| == |objs[i].fields|;
  }
}
