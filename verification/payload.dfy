/** The payload `uploadFile` builds from the verified preview: a CSV text over the included
    attributes, or a JSON array of objects holding only those attributes, together with the
    `columns` and `primary_key` form fields. */
module Payload {
  import opened Wrappers
  import opened Seqs
  import opened Text
  import opened JsonValue
  import opened CsvCodec
  import opened Mapping
  import Base64

  // ---------------------------------------------------------------- exported rows

  /** The selected indices below `n`, in ascending order. */
  function Ascending(selected: set<nat>, n: nat): (r: seq<nat>)
    ensures forall k :: 0 <= k < |r| ==> r[k] < n
    decreases n
  {
    if n == 0 then []
    else Ascending(selected, n - 1) + (if n - 1 in selected then [n - 1] else [])
  }

  lemma {:induction false} AscendingProperties(selected: set<nat>, n: nat)
    ensures StrictlyIncreasing(Ascending(selected, n))
    ensures forall i :: i in Ascending(selected, n) <==> i < n && i in selected
    decreases n
  {
    if n > 0 {
      AscendingProperties(selected, n - 1);
    }
  }

  /** `selectedRows.size > 0 ? Array.from(selectedRows).sort((a, b) => a - b) : all rows`. */
  function ExportIndices(selected: set<nat>, n: nat): (r: seq<nat>)
    ensures forall k :: 0 <= k < |r| ==> r[k] < n
  {
    if |selected| > 0 then Ascending(selected, n) else Range(n)
  }

  /** The exported rows are the selected ones in ascending order when any is selected, and
      every row, in order, otherwise. */
  lemma ExportIndicesProperties(selected: set<nat>, n: nat)
    requires forall i :: i in selected ==> i < n
    ensures StrictlyIncreasing(ExportIndices(selected, n))
    ensures selected != {} ==> forall i :: i in ExportIndices(selected, n) <==> i in selected
    ensures selected == {} ==> ExportIndices(selected, n) == Range(n)
  {
    if selected != {} {
      AscendingProperties(selected, n);
    }
  }

  // ---------------------------------------------------------------- CSV payload

  /** The text `csvEscape` starts from: `value == null ? '' : String(value)`. */
  function FieldText(v: Json): string
  {
    if v.JNull? then "" else JsString(v)
  }

  /** `row[idxByCsv[mapped]] ?? ''`, where `idxByCsv` maps each header name to its last
      position; a name missing from the header, or a short row, gives `''`. */
  function CellFor(row: seq<Json>, header: seq<string>, mapped: string): (r: Json)
    ensures mapped !in header ==> r == JStr("")
    ensures r != JStr("") ==> exists c :: 0 <= c < |header| && c < |row| && header[c] == mapped && r == row[c]
  {
    var idx := LastIndexOf(header, mapped);
    if idx < 0 || idx >= |row| || row[idx].JNull? then JStr("") else row[idx]
  }

  /** The unescaped fields of one output row: for each output attribute, the text of the
      cell its mapped field points at. */
  function RowFields(row: seq<Json>, header: seq<string>, m: ColumnMapping, outHeader: seq<string>): (r: seq<string>)
    requires forall a :: a in outHeader ==> a in m
    ensures |r| == |outHeader|
    ensures forall j :: 0 <= j < |outHeader| ==> r[j] == FieldText(CellFor(row, header, m[outHeader[j]]))
  {
    seq(|outHeader|, j requires 0 <= j < |outHeader| => FieldText(CellFor(row, header, m[outHeader[j]])))
  }

  /** The output lines: the escaped header, then one escaped line per exported row. */
  function CsvPayloadLines(rows: seq<seq<Json>>, header: seq<string>, m: ColumnMapping,
                           outHeader: seq<string>, selected: set<nat>): (r: seq<string>)
    requires forall a :: a in outHeader ==> a in m
    ensures |r| == 1 + |ExportIndices(selected, |rows|)|
    ensures r[0] == EscapedLine(outHeader)
    ensures forall k :: 0 <= k < |ExportIndices(selected, |rows|)| ==>
      r[k + 1] == EscapedLine(RowFields(rows[ExportIndices(selected, |rows|)[k]], header, m, outHeader))
  {
    var ex := ExportIndices(selected, |rows|);
    [EscapedLine(outHeader)] +
      seq(|ex|, k requires 0 <= k < |ex| => EscapedLine(RowFields(rows[ex[k]], header, m, outHeader)))
  }

  /** `outLines.join('\n')`. */
  function CsvPayload(rows: seq<seq<Json>>, header: seq<string>, m: ColumnMapping,
                      outHeader: seq<string>, selected: set<nat>): string
    requires forall a :: a in outHeader ==> a in m
  {
    Join(CsvPayloadLines(rows, header, m, outHeader, selected), '\n')
  }

  /** The CSV branch of `uploadFile`: push the header line, then one line per exported row. */
  method BuildCsvPayload(rows: seq<seq<Json>>, header: seq<string>, m: ColumnMapping,
                         outHeader: seq<string>, selected: set<nat>) returns (text: string)
    requires forall a :: a in outHeader ==> a in m
    ensures text == CsvPayload(rows, header, m, outHeader, selected)
  {
    var outLines := [EscapedLine(outHeader)];
    var rowsToProcess := ExportIndices(selected, |rows|);
    ghost var spec := CsvPayloadLines(rows, header, m, outHeader, selected);
    var k := 0;
    while k < |rowsToProcess|
      invariant 0 <= k <= |rowsToProcess|
      invariant outLines == spec[..k + 1]
    {
      var outRow := RowFields(rows[rowsToProcess[k]], header, m, outHeader);
      outLines := outLines + [EscapedLine(outRow)];
      k := k + 1;
    }
    assert outLines == spec;
    text := Join(outLines, '\n');
  }

  /** The header line parses back to the output attributes and each row line to the fields
      of its exported row. */
  lemma CsvPayloadParses(rows: seq<seq<Json>>, header: seq<string>, m: ColumnMapping,
                         outHeader: seq<string>, selected: set<nat>)
    requires forall a :: a in outHeader ==> a in m
    requires |outHeader| >= 1
    ensures var lines := CsvPayloadLines(rows, header, m, outHeader, selected);
      var ex := ExportIndices(selected, |rows|);
      && ParseLine(lines[0]) == outHeader
      && forall k :: 0 <= k < |ex| ==> ParseLine(lines[k + 1]) == RowFields(rows[ex[k]], header, m, outHeader)
  {
    var ex := ExportIndices(selected, |rows|);
    RoundTrip(outHeader);
    forall k | 0 <= k < |ex|
      ensures ParseLine(EscapedLine(RowFields(rows[ex[k]], header, m, outHeader))) == RowFields(rows[ex[k]], header, m, outHeader)
    {
      RoundTrip(RowFields(rows[ex[k]], header, m, outHeader));
    }
  }

  lemma {:induction false} JoinNoSep(parts: seq<string>, sep: char)
    requires forall i :: 0 <= i < |parts| ==> sep !in parts[i]
    ensures sep !in Join(parts, sep) || |parts| >= 2
    decreases |parts|
  {
  }

  lemma EscapeAllNoChar(fields: seq<string>, c: char)
    requires c == '\n' || c == '\r'
    requires forall i :: 0 <= i < |fields| ==> c !in fields[i]
    ensures forall i :: 0 <= i < |EscapeAll(fields)| ==> c !in EscapeAll(fields)[i]
  {
  }

  lemma {:induction false} JoinKeepsOut(parts: seq<string>, sep: char, c: char)
    requires c != sep
    requires forall i :: 0 <= i < |parts| ==> c !in parts[i]
    ensures c !in Join(parts, sep)
    decreases |parts|
  {
    if |parts| >= 2 {
      JoinKeepsOut(parts[1..], sep, c);
    }
  }

  /** Without a line break in any name or field, splitting the payload at line feeds gives
      back exactly its lines. */
  lemma CsvPayloadSplits(rows: seq<seq<Json>>, header: seq<string>, m: ColumnMapping,
                         outHeader: seq<string>, selected: set<nat>)
    requires forall a :: a in outHeader ==> a in m
    requires forall j :: 0 <= j < |outHeader| ==> '\n' !in outHeader[j]
    requires forall r, j :: 0 <= r < |rows| && 0 <= j < |rows[r]| ==> '\n' !in FieldText(rows[r][j])
    ensures Split(CsvPayload(rows, header, m, outHeader, selected), '\n') ==
            CsvPayloadLines(rows, header, m, outHeader, selected)
  {
    var lines := CsvPayloadLines(rows, header, m, outHeader, selected);
    var ex := ExportIndices(selected, |rows|);
    forall i | 0 <= i < |lines| ensures '\n' !in lines[i] {
      var fields := if i == 0 then outHeader else RowFields(rows[ex[i - 1]], header, m, outHeader);
      assert lines[i] == EscapedLine(fields);
      forall j | 0 <= j < |fields| ensures '\n' !in fields[j] {
        if i > 0 {
          var cell := CellFor(rows[ex[i - 1]], header, m[outHeader[j]]);
          assert cell == JStr("") || cell in rows[ex[i - 1]];
        }
      }
      EscapeAllNoChar(fields, '\n');
      JoinKeepsOut(EscapeAll(fields), ',', '\n');
    }
    SplitJoin(lines, '\n');
  }

  // ---------------------------------------------------------------- JSON payload

  /** The value written for one attribute, from `rawVal = obj?.[mapped]`: `''` for null or
      undefined; for an object or array, the base64 text of a buffer-like object when that
      text is non-empty and the JSON text otherwise; a primitive unchanged. */
  function JsonCell(raw: Option<Json>, stringify: Json -> string): (r: Json)
    ensures raw.None? || raw == Some(JNull) ==> r == JStr("")
    ensures raw.Some? && (raw.value.JBool? || raw.value.JNum? || raw.value.JStr?) ==> r == raw.value
    ensures raw.Some? && IsObjectLike(raw.value) ==> r.JStr?
    ensures raw.Some? && IsObjectLike(raw.value) && !IsBufferLike(raw.value) ==> r == JStr(stringify(raw.value))
  {
    if raw.None? || raw.value.JNull? then JStr("")
    else if IsObjectLike(raw.value) then
      if IsBufferLike(raw.value) && Base64.Encode(BufferBytes(raw.value)) != "" then
        JStr(Base64.Encode(BufferBytes(raw.value)))
      else JStr(stringify(raw.value))
    else raw.value
  }

  /** A buffer-like value with at least one byte travels as base64 text that decodes to
      exactly its bytes; an empty buffer travels as its JSON text. */
  lemma JsonCellBuffer(v: Json, stringify: Json -> string)
    requires IsBufferLike(v)
    ensures BufferBytes(v) != [] ==> Base64.Decode(JsonCell(Some(v), stringify).s) == BufferBytes(v)
    ensures BufferBytes(v) == [] ==> JsonCell(Some(v), stringify) == JStr(stringify(v))
  {
    Base64.DecodeEncode(BufferBytes(v));
  }

  /** `obj?.[key]`. */
  function Lookup(obj: Json, key: string): Option<Json>
  {
    if obj.JObj? then Get(obj.fields, key) else None
  }

  /** The members of the output object after the loop has seen `attrs`. */
  function OutFields(obj: Json, attrs: seq<string>, m: ColumnMapping, stringify: Json -> string): seq<(string, Json)>
    decreases |attrs|
  {
    if attrs == [] then []
    else
      var fields := OutFields(obj, attrs[..|attrs| - 1], m, stringify);
      var a := attrs[|attrs| - 1];
      if Included(m, a) then Put(fields, a, JsonCell(Lookup(obj, m[a]), stringify)) else fields
  }

  /** The output object holds exactly the included attributes, each with the value derived
      from the field it is mapped to. */
  lemma {:induction false} OutFieldsProperties(obj: Json, attrs: seq<string>, m: ColumnMapping, stringify: Json -> string)
    ensures forall k :: Get(OutFields(obj, attrs, m, stringify), k).Some? <==> k in attrs && Included(m, k)
    ensures forall k :: k in attrs && Included(m, k) ==>
      Get(OutFields(obj, attrs, m, stringify), k) == Some(JsonCell(Lookup(obj, m[k]), stringify))
    decreases |attrs|
  {
    if attrs != [] {
      var p := attrs[..|attrs| - 1];
      OutFieldsProperties(obj, p, m, stringify);
      assert attrs == p + [attrs[|attrs| - 1]];
    }
  }

  /** The per-object loop of `rowsToProcess.map(obj => { const out = {}; for (...) ... })`. */
  method ConvertObject(obj: Json, attrs: seq<string>, m: ColumnMapping, stringify: Json -> string)
    returns (out: seq<(string, Json)>)
    ensures out == OutFields(obj, attrs, m, stringify)
  {
    out := [];
    var i := 0;
    while i < |attrs|
      invariant 0 <= i <= |attrs|
      invariant out == OutFields(obj, attrs[..i], m, stringify)
    {
      assert attrs[..i + 1][..i] == attrs[..i];
      var attr := attrs[i];
      if attr in m && m[attr] != "" && m[attr] != AUTO {
        out := Put(out, attr, JsonCell(Lookup(obj, m[attr]), stringify));
      }
      i := i + 1;
    }
    assert attrs[..i] == attrs;
  }

  /** The objects of the JSON payload, one per exported object. */
  function JsonPayloadObjects(objs: seq<Json>, selected: set<nat>, attrs: seq<string>,
                              m: ColumnMapping, stringify: Json -> string): (r: seq<Json>)
    ensures |r| == |ExportIndices(selected, |objs|)|
    ensures forall k :: 0 <= k < |r| ==>
      r[k] == JObj(OutFields(objs[ExportIndices(selected, |objs|)[k]], attrs, m, stringify))
  {
    var ex := ExportIndices(selected, |objs|);
    seq(|ex|, k requires 0 <= k < |ex| => JObj(OutFields(objs[ex[k]], attrs, m, stringify)))
  }

  // ---------------------------------------------------------------- the upload form

  /** The loaded table schema, as `fetchTableSchema` stores it. */
  datatype Schema = Schema(table: string, attributes: seq<string>, primaryKey: seq<string>)

  /** A selected file: its name and its text. */
  datatype FileData = FileData(name: string, text: string)

  /** How `uploadFile` treats the file: `isCsv` and `isJson` test the lower-cased name. */
  datatype FileKind = CsvKind | JsonKind | OtherKind

  function KindOf(name: string): FileKind
  {
    var lower := Lower(name);
    if |name| >= 4 && lower[|name| - 4..] == ".csv" then CsvKind
    else if |name| >= 5 && lower[|name| - 5..] == ".json" then JsonKind
    else OtherKind
  }

  /** Why `uploadFile` stops before sending anything. */
  datatype UploadError =
    | NoFile            // 'No file selected'
    | NoSchema          // 'Please set table schema first'
    | NoAttributes      // 'Table attributes not loaded'
    | NoPrimaryKey      // 'Table primary key not loaded'
    | NotVerified       // 'Click Verify to load preview and mapping first'
    | NothingMapped     // 'Please map at least one attribute (or use Raw preview)'
    | JsonNotVerified   // 'JSON not verified. Click Verify first'

  /** The multipart form posted to `/upload-data`. */
  datatype Form = Form(file: FileData, table: string, columns: string, primaryKey: string)

  /** The text sent as the file: the rebuilt CSV, the JSON text of the rebuilt objects, or the
      file itself for any other name. */
  function PayloadText(file: FileData, header: seq<string>, rows: seq<seq<Json>>, objs: seq<Json>,
                       m: ColumnMapping, included: seq<string>, selected: set<nat>,
                       stringify: Json -> string): string
    requires forall a :: a in included ==> a in m
  {
    match KindOf(file.name)
    case CsvKind => CsvPayload(rows, header, m, included, selected)
    case JsonKind => stringify(JArr(JsonPayloadObjects(objs, selected, included, m, stringify)))
    case OtherKind => file.text
  }

  /** The schema is loaded with its attributes and its primary key. */
  predicate SchemaReady(schema: Option<Schema>)
  {
    schema.Some? && schema.value.attributes != [] && schema.value.primaryKey != []
  }

  /** The guards and the payload construction of `uploadFile`. */
  function PrepareUpload(file: Option<FileData>, schema: Option<Schema>, header: seq<string>,
                         rows: seq<seq<Json>>, jsonObjects: Option<seq<Json>>, m: ColumnMapping,
                         selected: set<nat>, stringify: Json -> string): (r: Result<Form, UploadError>)
    ensures file.None? ==> r == Err(NoFile)
    ensures file.Some? && schema.None? ==> r == Err(NoSchema)
    ensures file.Some? && schema.Some? && schema.value.attributes == [] ==> r == Err(NoAttributes)
    ensures file.Some? && schema.Some? && schema.value.attributes != [] && schema.value.primaryKey == [] ==>
              r == Err(NoPrimaryKey)
    ensures file.Some? && SchemaReady(schema) && header == [] ==> r == Err(NotVerified)
    ensures file.Some? && SchemaReady(schema) && header != [] && IncludedOf(schema.value.attributes, m) == [] ==>
              r == Err(NothingMapped)
    ensures file.Some? && SchemaReady(schema) && header != [] && IncludedOf(schema.value.attributes, m) != []
            && KindOf(file.value.name) == JsonKind && (jsonObjects.None? || jsonObjects.value == []) ==>
              r == Err(JsonNotVerified)
    ensures r.Ok? <==> file.Some? && SchemaReady(schema) && header != [] && IncludedOf(schema.value.attributes, m) != []
                       && (KindOf(file.value.name) == JsonKind ==> jsonObjects.Some? && jsonObjects.value != [])
    ensures r.Err? && r.error == NothingMapped ==> IncludedOf(schema.value.attributes, m) == []
    ensures r.Ok? ==>
      && schema.Some? && schema.value.attributes != [] && schema.value.primaryKey != []
      && header != [] && IncludedOf(schema.value.attributes, m) != []
      && r.value.table == schema.value.table
      && r.value.columns == Join(IncludedOf(schema.value.attributes, m), ',')
      && r.value.primaryKey == Join(IncludedOf(schema.value.primaryKey, m), ',')
      && r.value.file.name == file.value.name
      && (KindOf(file.value.name) == JsonKind ==> jsonObjects.Some? && jsonObjects.value != [])
      && r.value.file.text == PayloadText(file.value, header, rows, if jsonObjects.Some? then jsonObjects.value else [],
                                          m, IncludedOf(schema.value.attributes, m), selected, stringify)
  {
    if file.None? then Err(NoFile)
    else if schema.None? then Err(NoSchema)
    else if schema.value.attributes == [] then Err(NoAttributes)
    else if schema.value.primaryKey == [] then Err(NoPrimaryKey)
    else if header == [] then Err(NotVerified)
    else
      var included := IncludedOf(schema.value.attributes, m);
      if included == [] then Err(NothingMapped)
      else if KindOf(file.value.name) == JsonKind && (jsonObjects.None? || jsonObjects.value == []) then
        Err(JsonNotVerified)
      else
        var objs := if jsonObjects.Some? then jsonObjects.value else [];
        var text := PayloadText(file.value, header, rows, objs, m, included, selected, stringify);
        Ok(Form(FileData(file.value.name, text), schema.value.table, Join(included, ','),
                Join(IncludedOf(schema.value.primaryKey, m), ',')))
  }
}

module HeaderGap {
  import opened Seqs
  import opened Text
  import opened JsonValue
  import opened CsvCodec
  import opened Loader
  import opened Payload

  lemma ParseGapLine()
    ensures ParseLine("a,,b") == ["a", "", "b"]
  {
    var l := "a,,b";
    assert l[1..] == ",,b" && l[1..][1..] == ",b" && l[1..][1..][1..] == "b";
    assert "b"[1..] == "" && "" + ['b'] == "b";
    assert Scan("b", false, "", ["a", ""]) == Scan("", false, "b", ["a", ""]);
    assert Scan(",b", false, "", ["a"]) == Scan("b", false, "", ["a", ""]);
    assert Scan(",,b", false, "a", []) == Scan(",b", false, "", ["a"]);
    assert "" + ['a'] == "a";
    assert Scan(l, false, "", []) == Scan(",,b", false, "a", []);
  }

  lemma ParseRowLine()
    ensures ParseLine("1,2,3") == ["1", "2", "3"]
  {
    var l := "1,2,3";
    assert l[1..] == ",2,3" && l[2..] == "2,3" && l[3..] == ",3" && l[4..] == "3";
    assert "3"[1..] == "" && "" + ['3'] == "3" && "2,3"[1..] == ",3" && "" + ['2'] == "2" && "" + ['1'] == "1";
    assert Scan("3", false, "", ["1", "2"]) == Scan("", false, "3", ["1", "2"]);
    assert Scan(",3", false, "2", ["1"]) == Scan("3", false, "", ["1", "2"]);
    assert Scan("2,3", false, "", ["1"]) == Scan(",3", false, "2", ["1"]);
    assert Scan(",2,3", false, "1", []) == Scan("2,3", false, "", ["1"]);
    assert Scan(l, false, "", []) == Scan(",2,3", false, "1", []);
  }

  lemma TrimGapNames()
    ensures TrimAll(["a", "", "b"]) == ["a", "", "b"]
  {
    assert JsTrim("a") == "a" by { StripKeeps("a", IsJsSpace); }
    assert JsTrim("") == "" by { StripKeeps("", IsJsSpace); }
    assert JsTrim("b") == "b" by { StripKeeps("b", IsJsSpace); }
    var t := TrimAll(["a", "", "b"]);
    assert |t| == 3 && t[0] == "a" && t[1] == "" && t[2] == "b";
  }

  lemma FilterGapNames()
    ensures Filter(["a", "", "b"], NonEmpty) == ["a", "b"]
  {
    var t := ["a", "", "b"];
    assert t[1..] == ["", "b"] && t[1..][1..] == ["b"] && t[1..][1..][1..] == [];
    assert Filter(["b"], NonEmpty) == ["b"];
    assert Filter(["", "b"], NonEmpty) == ["b"];
  }

  lemma GapHeader()
    ensures CsvHeader("a,,b") == ["a", "b"]
  {
    ParseGapLine();
    TrimGapNames();
    FilterGapNames();
  }

  /** As written, the preview header drops empty names, so the position of a name in the
      header is no longer the position of its column in the rows: with the header line
      `a,,b` and the row `1,2,3`, the attribute mapped to `b` receives `2`. */
  lemma HeaderGapShiftsColumns()
    ensures CsvHeader("a,,b") == ["a", "b"]
    ensures ParseLine("1,2,3") == ["1", "2", "3"]
    ensures CellFor(Cells(ParseLine("1,2,3")), CsvHeader("a,,b"), "b") == JStr("2")
  {
    GapHeader();
    ParseRowLine();
    var row := Cells(["1", "2", "3"]);
    assert row[1] == JStr("2");
    CellForColumn(row, ["a", "b"], 1);
  }

  /** A name that occurs in column `c` of the header and in no later column selects the
      cell of column `c`, when that cell is present. */
  lemma CellForColumn(row: seq<Json>, header: seq<string>, c: nat)
    requires c < |header| && c < |row| && !row[c].JNull?
    requires header[c] !in header[c + 1..]
    ensures CellFor(row, header, header[c]) == row[c]
  {
    var idx := LastIndexOf(header, header[c]);
    assert idx == c by {
      assert forall j :: c < j < |header| ==> header[j] == header[c + 1..][j - c - 1];
    }
  }

  /** The header with every name kept at its column, empty names included; only the
      non-empty names are offered in the mapping. */
  function HeaderColumns(line: string): (r: seq<string>)
    ensures |r| == |ParseLine(line)|
  {
    TrimAll(ParseLine(line))
  }

  /** The cell for a mapped name, looked up by column position. */
  function CorrectedCell(row: seq<Json>, headerLine: string, mapped: string): Json
  {
    CellFor(row, HeaderColumns(headerLine), mapped)
  }

  /** Looked up by column, a name written in column `c` of the header line (and in no later
      column) selects the value written in column `c` of the row line, whatever empty names
      the header holds. */
  lemma CorrectedCellPicksColumn(names: seq<string>, fields: seq<string>, c: nat)
    requires |names| >= 1 && |fields| == |names| && c < |names|
    requires forall i :: 0 <= i < |names| ==> JsTrim(names[i]) == names[i]
    requires names[c] !in names[c + 1..]
    ensures CorrectedCell(Cells(ParseLine(EscapedLine(fields))), EscapedLine(names), names[c]) == JStr(fields[c])
  {
    RoundTrip(fields);
    HeaderColumnsRoundTrip(names);
    CellForColumn(Cells(fields), names, c);
  }

  /** A header line written from trimmed names gives back those names, column by column. */
  lemma HeaderColumnsRoundTrip(names: seq<string>)
    requires |names| >= 1
    requires forall i :: 0 <= i < |names| ==> JsTrim(names[i]) == names[i]
    ensures HeaderColumns(EscapedLine(names)) == names
  {
    RoundTrip(names);
    assert TrimAll(names) == names;
  }
}
