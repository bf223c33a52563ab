/** The request checks of the server (`app.py`) that need no database: identifier validation,
    comma-separated list parsing, the read-only query guard, the CREATE TABLE prefix check, the
    fold of the schema query's rows, the validation of an upload request, the CSV column check
    of the upload job and the JSON serialisation of query results. */
module ServerGuards {
  import opened Wrappers
  import opened Seqs
  import opened Text
  import Base64
  import Mapping

  // ---------------------------------------------------------------- identifiers

  predicate IsIdentStart(c: char)
  {
    ('a' <= c <= 'z') || ('A' <= c <= 'Z') || c == '_'
  }

  predicate IsIdentChar(c: char)
  {
    IsIdentStart(c) || ('0' <= c <= '9')
  }

  /** The whole string is `[a-zA-Z_][a-zA-Z0-9_]*`. */
  predicate IsIdentifier(s: string)
  {
    |s| >= 1 && IsIdentStart(s[0]) && forall i :: 1 <= i < |s| ==> IsIdentChar(s[i])
  }

  /** `IDENT_RE.match(s)` with the pattern `^[a-zA-Z_][a-zA-Z0-9_]*$`. Python's `$` matches at
      the end of the string and also just before a newline that ends it, so one trailing `\n`
      gets through. */
  predicate IdentReMatch(s: string)
  {
    IsIdentifier(s) || (|s| >= 2 && s[|s| - 1] == '\n' && IsIdentifier(s[..|s| - 1]))
  }

  /** The pattern as written lets a name with a line break through. */
  lemma IdentReMatchAcceptsNewline()
    ensures IdentReMatch("users\n")
    ensures !IsIdentifier("users\n")
    ensures '\n' in "users\n"
  {
    assert "users\n"[..5] == "users";
    assert "users\n"[5] == '\n';
  }

  /** What an identifier cannot contain: no separator of `parse_list`, no white space, no line
      break. */
  lemma IdentifierShape(s: string)
    requires IsIdentifier(s)
    ensures s != "" && ',' !in s && '\n' !in s
    ensures PyStrip(s) == s
  {
    assert !IsPySpace(s[0]) && !IsPySpace(s[|s| - 1]);
    StripKeeps(s, IsPySpace);
    forall i | 0 <= i < |s|
      ensures s[i] != ',' && s[i] != '\n'
    {
      assert IsIdentChar(s[i]);
    }
  }

  /** `validate_identifiers(items)` against the pattern `matches`: `None` when every item
      matches, otherwise the first item that does not, which the `ValueError` names. */
  function ValidateIdentifiers(items: seq<string>, matches: string -> bool): (r: Option<string>)
    ensures r.None? <==> forall i :: 0 <= i < |items| ==> matches(items[i])
    ensures r.Some? ==> exists i :: 0 <= i < |items| && items[i] == r.value && !matches(r.value)
                                    && forall j :: 0 <= j < i ==> matches(items[j])
    decreases |items|
  {
    if |items| == 0 then None
    else if !matches(items[0]) then Some(items[0])
    else
      var r := ValidateIdentifiers(items[1..], matches);
      assert forall i :: 1 <= i < |items| ==> items[i] == items[1..][i - 1];
      assert r.Some? ==> exists i :: 1 <= i < |items| && items[i] == r.value && !matches(r.value)
                                     && forall j :: 0 <= j < i ==> matches(items[j]) by {
        if r.Some? {
          var k :| 0 <= k < |items[1..]| && items[1..][k] == r.value && !matches(r.value)
                   && forall j :: 0 <= j < k ==> matches(items[1..][j]);
          assert items[k + 1] == r.value;
        }
      }
      r
  }

  // ---------------------------------------------------------------- parse_list

  predicate NotBlank(c: string)
  {
    c != ""
  }

  function StripAll(parts: seq<string>): (r: seq<string>)
    ensures |r| == |parts|
    ensures forall i :: 0 <= i < |parts| ==> r[i] == PyStrip(parts[i])
  {
    seq(|parts|, i requires 0 <= i < |parts| => PyStrip(parts[i]))
  }

  /** `parse_list(raw)`: the comma-separated pieces, stripped, with the empty ones dropped. */
  function ParseList(raw: string): (r: seq<string>)
    ensures forall i :: 0 <= i < |r| ==> r[i] != "" && ',' !in r[i] && PyStrip(r[i]) == r[i]
    ensures forall p :: p in Split(raw, ',') && PyStrip(p) != "" ==> PyStrip(p) in r
    ensures forall i :: 0 <= i < |r| ==> r[i] in StripAll(Split(raw, ','))
  {
    var pieces := Split(raw, ',');
    StrippedPiecesClean(pieces);
    StrippedPiecesKept(pieces);
    Filter(StripAll(pieces), NotBlank)
  }

  /** Stripping pieces free of commas and dropping the empty ones leaves stripped,
      comma-free, non-empty names. */
  lemma StrippedPiecesClean(pieces: seq<string>)
    requires forall i :: 0 <= i < |pieces| ==> ',' !in pieces[i]
    ensures forall i :: 0 <= i < |Filter(StripAll(pieces), NotBlank)| ==>
              var name := Filter(StripAll(pieces), NotBlank)[i];
              name != "" && ',' !in name && PyStrip(name) == name
  {
    var stripped := StripAll(pieces);
    var r := Filter(stripped, NotBlank);
    forall i | 0 <= i < |r| ensures r[i] != "" && ',' !in r[i] && PyStrip(r[i]) == r[i] {
      var k :| 0 <= k < |stripped| && stripped[k] == r[i];
      StrippedPieceClean(pieces[k]);
    }
  }

  lemma StrippedPieceClean(piece: string)
    requires ',' !in piece
    ensures ',' !in PyStrip(piece) && PyStrip(PyStrip(piece)) == PyStrip(piece)
  {
    StripSubset(piece, IsPySpace);
    StripKeeps(PyStrip(piece), IsPySpace);
  }

  /** Every piece that is not blank once stripped survives, stripped. */
  lemma StrippedPiecesKept(pieces: seq<string>)
    ensures forall p :: p in pieces && PyStrip(p) != "" ==> PyStrip(p) in Filter(StripAll(pieces), NotBlank)
  {
    var stripped := StripAll(pieces);
    forall p | p in pieces && PyStrip(p) != "" ensures PyStrip(p) in Filter(stripped, NotBlank) {
      var k :| 0 <= k < |pieces| && pieces[k] == p;
      assert NotBlank(stripped[k]);
    }
  }

  /** The names of one comma-free piece: the piece stripped, unless that leaves it empty. */
  function PieceNames(piece: string): seq<string>
  {
    if PyStrip(piece) == "" then [] else [PyStrip(piece)]
  }

  /** A comma-free piece on its own parses to its stripped self, or to nothing when blank. */
  lemma ParseListPiece(piece: string)
    requires ',' !in piece
    ensures ParseList(piece) == PieceNames(piece)
  {
    SplitPiece(piece, ',');
    assert StripAll([piece]) == [PyStrip(piece)];
  }

  /** The names of `piece + "," + rest` are those of the first piece followed by those of
      the rest, so the names keep the order of their pieces. */
  lemma ParseListComma(piece: string, rest: string)
    requires ',' !in piece
    ensures ParseList(piece + [','] + rest) == PieceNames(piece) + ParseList(rest)
  {
    var pieces := Split(rest, ',');
    SplitAfterPiece(piece, rest, ',');
    var stripped := StripAll([piece] + pieces);
    assert stripped == [PyStrip(piece)] + StripAll(pieces);
    FilterAppend([PyStrip(piece)], StripAll(pieces), NotBlank);
  }

  /** Pieces that are stripped, non-empty and free of commas survive joining with `,` and
      parsing back. */
  lemma ParseListJoin(xs: seq<string>)
    requires forall i :: 0 <= i < |xs| ==> xs[i] != "" && ',' !in xs[i] && PyStrip(xs[i]) == xs[i]
    ensures ParseList(Join(xs, ',')) == xs
  {
    if xs == [] {
      ParseListEmpty();
    } else {
      var raw := Join(xs, ',');
      assert Split(raw, ',') == xs by {
        SplitJoin(xs, ',');
      }
      assert StripAll(xs) == xs;
      assert Filter(xs, NotBlank) == xs by {
        FilterAll(xs, NotBlank);
      }
      assert ParseList(raw) == Filter(StripAll(xs), NotBlank);
    }
  }

  lemma ParseListEmpty()
    ensures ParseList("") == []
  {
    var stripped := StripAll(Split("", ','));
    assert |PyStrip("")| == 0;
    assert stripped == [""];
    assert Filter(stripped, NotBlank) == Filter(stripped[1..], NotBlank);
  }

  /** The `columns` and `primary_key` fields the client joins with `,` parse back, on the
      server, into exactly the attributes the client included, when the names are identifiers. */
  lemma ClientListParses(attrs: seq<string>, m: Mapping.ColumnMapping)
    requires forall i :: 0 <= i < |attrs| ==> IsIdentifier(attrs[i])
    ensures ParseList(Join(Mapping.IncludedOf(attrs, m), ',')) == Mapping.IncludedOf(attrs, m)
  {
    var inc := Mapping.IncludedOf(attrs, m);
    forall i | 0 <= i < |inc| ensures inc[i] != "" && ',' !in inc[i] && PyStrip(inc[i]) == inc[i] {
      assert inc[i] in attrs;
      IdentifierShape(inc[i]);
    }
    ParseListJoin(inc);
  }

  // ---------------------------------------------------------------- execute_query guard

  const ForbiddenKeywords: seq<string> :=
    ["INSERT", "UPDATE", "DELETE", "DROP", "CREATE", "ALTER", "TRUNCATE", "EXEC", "EXECUTE"]

  const ForbiddenPrefix: string := "Query contains forbidden keyword: "

  /** The position, from `from` on, of the first keyword that occurs in `text`. */
  function FirstOccurring(text: string, keywords: seq<string>, from: nat): (r: Option<nat>)
    requires from <= |keywords|
    ensures r.Some? ==> from <= r.value < |keywords| && Contains(text, keywords[r.value])
                        && forall j :: from <= j < r.value ==> !Contains(text, keywords[j])
    ensures r.None? ==> forall j :: from <= j < |keywords| ==> !Contains(text, keywords[j])
    decreases |keywords| - from
  {
    if from == |keywords| then None
    else if Contains(text, keywords[from]) then Some(from)
    else FirstOccurring(text, keywords, from + 1)
  }

  /** The text the guard inspects: `query.strip().upper()`. */
  function Normalized(query: string): string
  {
    Upper(PyStrip(query))
  }

  /** The guard of `execute_query`: `Ok` lets the query run, `Err` carries the detail of the
      400 response. */
  function QueryGuard(query: string): (r: Result<(), string>)
    ensures query == "" ==> r == Err("query is required")
    ensures r.Ok? <==> (query != "" && StartsWith(Normalized(query), "SELECT")
                        && forall k :: k in ForbiddenKeywords ==> !Contains(Normalized(query), k))
    ensures query != "" && !StartsWith(Normalized(query), "SELECT") ==>
              r == Err("Only SELECT queries are allowed")
    ensures query != "" && StartsWith(Normalized(query), "SELECT") && r.Err? ==>
              && FirstOccurring(Normalized(query), ForbiddenKeywords, 0).Some?
              && r.error == ForbiddenPrefix + ForbiddenKeywords[FirstOccurring(Normalized(query), ForbiddenKeywords, 0).value]
  {
    if query == "" then Err("query is required")
    else
      var text := Normalized(query);
      if !StartsWith(text, "SELECT") then Err("Only SELECT queries are allowed")
      else
        match FirstOccurring(text, ForbiddenKeywords, 0)
        case Some(i) =>
          assert ForbiddenKeywords[i] in ForbiddenKeywords;
          Err(ForbiddenPrefix + ForbiddenKeywords[i])
        case None => Ok(())
  }

  lemma {:induction false} ContainsShorter(s: string, n: string, m: string)
    requires Contains(s, n) && StartsWith(n, m)
    ensures Contains(s, m)
    decreases |s|
  {
    if StartsWith(s, n) {
      assert s[..|m|] == n[..|m|];
    } else {
      ContainsShorter(s[1..], n, m);
    }
  }

  lemma {:induction false} ContainsAt(s: string, i: nat, n: string)
    requires i + |n| <= |s| && s[i..i + |n|] == n
    ensures Contains(s, n)
    decreases i
  {
    if i > 0 {
      assert s[1..][i - 1..i - 1 + |n|] == n;
      ContainsAt(s[1..], i - 1, n);
    }
  }

  /** `EXECUTE` is never the keyword reported: `EXEC`, earlier in the list, occurs in it. */
  lemma ExecuteNeverReported(query: string)
    ensures QueryGuard(query) != Err(ForbiddenPrefix + "EXECUTE")
  {
    var text := Normalized(query);
    var first := FirstOccurring(text, ForbiddenKeywords, 0);
    if query != "" && StartsWith(text, "SELECT") && first.Some? {
      ExecuteNeverFirst(text);
      KeywordMessageNotExecute(first.value);
    } else {
      MessagesNotExecute();
    }
  }

  /** The messages naming the first eight keywords differ from the one naming `EXECUTE`. */
  lemma KeywordMessageNotExecute(i: nat)
    requires i < 8
    ensures ForbiddenPrefix + ForbiddenKeywords[i] != ForbiddenPrefix + "EXECUTE"
  {
    assert |ForbiddenKeywords[i]| != 7;
    assert |ForbiddenPrefix + ForbiddenKeywords[i]| != |ForbiddenPrefix + "EXECUTE"|;
  }

  lemma MessagesNotExecute()
    ensures "query is required" != ForbiddenPrefix + "EXECUTE"
    ensures "Only SELECT queries are allowed" != ForbiddenPrefix + "EXECUTE"
  {
    assert |ForbiddenPrefix + "EXECUTE"| == 41;
  }

  /** `EXECUTE`, last in the list, is never the first keyword found: `EXEC` comes before it. */
  lemma ExecuteNeverFirst(text: string)
    ensures FirstOccurring(text, ForbiddenKeywords, 0) != Some(8)
  {
    if FirstOccurring(text, ForbiddenKeywords, 0) == Some(8) {
      assert ForbiddenKeywords[7] == "EXEC" && ForbiddenKeywords[8] == "EXECUTE";
      ContainsShorter(text, "EXECUTE", "EXEC");
      assert false;
    }
  }

  /** Any forbidden keyword in the normalized text rejects the query. */
  lemma ForbiddenKeywordRejects(query: string, k: string)
    requires k in ForbiddenKeywords && Contains(Normalized(query), k)
    ensures QueryGuard(query).Err?
  {
  }

  lemma NormalizedKeepsSpaceFree(query: string)
    requires query != [] && !IsPySpace(query[0]) && !IsPySpace(query[|query| - 1])
    ensures Normalized(query) == Upper(query)
  {
    StripKeeps(query, IsPySpace);
  }

  lemma UpperUpdate()
    ensures Upper("update") == "UPDATE"
  {
  }

  /** A keyword found inside a column name rejects the query: a read of `updated_at` is
      refused because it contains `UPDATE`. */
  lemma UpdatedColumnRejected()
    ensures QueryGuard("SELECT updated_at FROM t").Err?
  {
    var q := "SELECT updated_at FROM t";
    assert q[7..13] == "update";
    UpperUpdate();
    KeywordAnyCaseRejected(q, 7, "UPDATE");
  }

  /** Every keyword is a non-empty word of capital letters. */
  lemma KeywordLetters(k: string)
    requires k in ForbiddenKeywords
    ensures k != "" && forall j :: 0 <= j < |k| ==> 'A' <= k[j] <= 'Z'
  {
  }

  /** A stretch of the query that begins and ends with a character other than white space
      survives stripping unchanged. */
  lemma StripKeepsWord(query: string, i: nat, n: nat) returns (off: nat)
    requires n >= 1 && i + n <= |query|
    requires !IsPySpace(query[i]) && !IsPySpace(query[i + n - 1])
    ensures off + n <= |PyStrip(query)| && PyStrip(query)[off..off + n] == query[i..i + n]
  {
    var start, end := StripBounds(query, IsPySpace);
    assert start <= i;
    assert i + n <= end;
    off := i - start;
    StrippedSlice(query, start, end, i, n);
  }

  lemma StrippedSlice(query: string, start: nat, end: nat, i: nat, n: nat)
    requires start <= i && i + n <= end <= |query|
    requires Strip(query, IsPySpace) == query[start..end]
    ensures PyStrip(query)[i - start..i - start + n] == query[i..i + n]
  {
    SliceOfSlice(query, start, end, i - start, i - start + n);
  }

  lemma UpperSlice(s: string, a: nat, n: nat)
    requires a + n <= |s|
    ensures Upper(s)[a..a + n] == Upper(s[a..a + n])
  {
  }

  /** A character that upper-cases to a capital letter is not white space. */
  lemma UpperLetterNotSpace(c: char)
    requires 'A' <= UpperChar(c) <= 'Z'
    ensures !IsPySpace(c)
  {
  }

  /** A forbidden keyword written in any letter case anywhere in the query rejects it,
      whatever white space surrounds the query: stripping removes only white space, which
      the letters of a keyword are not, and upper-casing turns them into the keyword. */
  lemma KeywordAnyCaseRejected(query: string, i: nat, k: string)
    requires k in ForbiddenKeywords
    requires i + |k| <= |query| && Upper(query[i..i + |k|]) == k
    ensures QueryGuard(query).Err?
  {
    var n := |k|;
    KeywordEnds(query, i, k);
    var off := StripKeepsWord(query, i, n);
    var text := Normalized(query);
    assert text[off..off + n] == k by {
      UpperSlice(PyStrip(query), off, n);
    }
    ContainsAt(text, off, k);
    ForbiddenKeywordRejects(query, k);
  }

  /** The first and the last character of a keyword written in any case are not white space. */
  lemma KeywordEnds(query: string, i: nat, k: string)
    requires k in ForbiddenKeywords
    requires i + |k| <= |query| && Upper(query[i..i + |k|]) == k
    ensures |k| >= 1 && !IsPySpace(query[i]) && !IsPySpace(query[i + |k| - 1])
  {
    var n := |k|;
    var w := query[i..i + n];
    KeywordLetters(k);
    assert !IsPySpace(query[i]) by {
      assert Upper(w)[0] == UpperChar(w[0]) && w[0] == query[i];
      UpperLetterNotSpace(query[i]);
    }
    assert !IsPySpace(query[i + n - 1]) by {
      assert Upper(w)[n - 1] == UpperChar(w[n - 1]) && w[n - 1] == query[i + n - 1];
      UpperLetterNotSpace(query[i + n - 1]);
    }
  }

  // ---------------------------------------------------------------- create_table_api

  /** `create_table_api` up to running the statement: `Ok` when it may run, `Err` with the
      detail of the 400 response otherwise. */
  function CreateTableGuard(createSql: string): (r: Result<(), string>)
    ensures r.Ok? <==> createSql != "" && StartsWith(Lower(PyStrip(createSql)), "create table")
    ensures createSql == "" ==> r == Err("create_sql is required")
    ensures createSql != "" && r.Err? ==> r.error == "Only CREATE TABLE statements are allowed"
  {
    if createSql == "" then Err("create_sql is required")
    else if !StartsWith(Lower(PyStrip(createSql)), "create table") then
      Err("Only CREATE TABLE statements are allowed")
    else Ok(())
  }

  lemma UpperCharSpace(c: char)
    ensures IsPySpace(UpperChar(c)) == IsPySpace(c)
  {
    if 'a' <= c <= 'z' {
      assert 'A' <= UpperChar(c) <= 'Z';
    }
  }

  lemma {:induction false} TrimStartUpper(s: string)
    ensures TrimStart(Upper(s), IsPySpace) == Upper(TrimStart(s, IsPySpace))
    decreases |s|
  {
    if |s| > 0 {
      var u := Upper(s);
      assert IsPySpace(u[0]) == IsPySpace(s[0]) by {
        UpperCharSpace(s[0]);
      }
      if IsPySpace(s[0]) {
        assert u[1..] == Upper(s[1..]);
        TrimStartUpper(s[1..]);
      }
    }
  }

  lemma {:induction false} TrimEndUpper(s: string)
    ensures TrimEnd(Upper(s), IsPySpace) == Upper(TrimEnd(s, IsPySpace))
    decreases |s|
  {
    var u := Upper(s);
    if |s| == 0 {
      assert u == s;
    } else {
      var n := |s| - 1;
      assert IsPySpace(u[n]) == IsPySpace(s[n]) by {
        UpperCharSpace(s[n]);
      }
      if IsPySpace(s[n]) {
        assert u[..n] == Upper(s[..n]);
        assert TrimEnd(u, IsPySpace) == TrimEnd(u[..n], IsPySpace);
        assert TrimEnd(s, IsPySpace) == TrimEnd(s[..n], IsPySpace);
        TrimEndUpper(s[..n]);
      } else {
        assert TrimEnd(u, IsPySpace) == u;
        assert TrimEnd(s, IsPySpace) == s;
      }
    }
  }

  /** The prefix check ignores letter case: an upper-cased statement gets the same answer. */
  lemma CreateTableIgnoresCase(createSql: string)
    ensures CreateTableGuard(Upper(createSql)) == CreateTableGuard(createSql)
  {
    var t := TrimStart(createSql, IsPySpace);
    TrimStartUpper(createSql);
    TrimEndUpper(t);
    var p := PyStrip(createSql);
    assert PyStrip(Upper(createSql)) == Upper(p);
    LowerUpper(p);
    assert Lower(PyStrip(Upper(createSql))) == Lower(p);
    assert |Upper(createSql)| == |createSql|;
  }

  lemma LowerUpper(s: string)
    ensures Lower(Upper(s)) == Lower(s)
  {
    var u := Upper(s);
    forall i | 0 <= i < |s|
      ensures Lower(u)[i] == Lower(s)[i]
    {
      var c := s[i];
      assert u[i] == UpperChar(c);
      assert LowerChar(UpperChar(c)) == LowerChar(c);
    }
  }

  // ---------------------------------------------------------------- get_table_schema

  /** A table's columns in column order, and its primary key columns. */
  datatype TableSchema = TableSchema(attributes: seq<string>, primaryKey: seq<string>)

  /** The schema read from the rows of the schema query, one `(column, constraint type)` pair
      per row, `None` for a column under no constraint. */
  function SchemaOf(rows: seq<(string, Option<string>)>): TableSchema
  {
    if |rows| == 0 then TableSchema([], [])
    else
      var s := SchemaOf(rows[..|rows| - 1]);
      var row := rows[|rows| - 1];
      TableSchema(s.attributes + [row.0],
                  if row.1 == Some("PRIMARY KEY") then s.primaryKey + [row.0] else s.primaryKey)
  }

  /** The loop of `get_table_schema` that fills `attributes` and `pk`. */
  method FoldSchemaRows(rows: seq<(string, Option<string>)>) returns (attributes: seq<string>, pk: seq<string>)
    ensures TableSchema(attributes, pk) == SchemaOf(rows)
  {
    attributes, pk := [], [];
    for i := 0 to |rows|
      invariant TableSchema(attributes, pk) == SchemaOf(rows[..i])
    {
      assert rows[..i + 1][..i] == rows[..i];
      var (col, constraint) := rows[i];
      attributes := attributes + [col];
      if constraint == Some("PRIMARY KEY") {
        pk := pk + [col];
      }
    }
    assert rows[..|rows|] == rows;
  }

  /** Every row gives one attribute, in row order; the key columns are exactly the columns of
      the `PRIMARY KEY` rows, and each of them is an attribute. */
  lemma {:induction false} SchemaOfProperties(rows: seq<(string, Option<string>)>)
    ensures |SchemaOf(rows).attributes| == |rows|
    ensures forall i :: 0 <= i < |rows| ==> SchemaOf(rows).attributes[i] == rows[i].0
    ensures forall c :: c in SchemaOf(rows).primaryKey <==>
                          exists i :: 0 <= i < |rows| && rows[i] == (c, Some("PRIMARY KEY"))
    ensures forall c :: c in SchemaOf(rows).primaryKey ==> c in SchemaOf(rows).attributes
    decreases |rows|
  {
    if |rows| > 0 {
      var init := rows[..|rows| - 1];
      SchemaOfProperties(init);
      assert forall i :: 0 <= i < |init| ==> init[i] == rows[i];
    }
  }

  // ---------------------------------------------------------------- upload_data validation

  /** An HTTP error response: its status code and its `detail`. */
  datatype Rejection = Rejection(status: int, detail: string)

  /** What an accepted upload request is processed with. */
  datatype UploadPlan = UploadPlan(table: string, columns: seq<string>, primaryKey: seq<string>)

  function ToSet(s: seq<string>): set<string>
  {
    set x | x in s
  }

  /** The names `upload_data` validates, in the order it validates them. */
  function Names(table: string, columns: string, primaryKey: string): seq<string>
  {
    [table] + ParseList(columns) + ParseList(primaryKey)
  }

  /** The names of `xs` that are not among `ys`, in the order of `xs`. */
  function Missing(xs: seq<string>, ys: seq<string>): (r: seq<string>)
    ensures |r| <= |xs|
    ensures forall c :: c in r <==> c in xs && c !in ys
  {
    Filter(xs, c => c !in ys)
  }

  const InvalidColumnsPrefix: string := "Invalid column(s) for table: "
  const KeyMismatchPrefix: string := "primary_key does not match table primary key. Expected: "
  const KeyNotInColumnsPrefix: string := "primary_key must be included in columns: "

  /** The checks of `upload_data` that follow identifier validation, on the parsed lists;
      `schema` is what the schema query returns for `table`. */
  function CheckLists(table: string, cols: seq<string>, pk: seq<string>, schema: TableSchema)
    : (r: Result<UploadPlan, Rejection>)
    ensures r.Ok? ==>
      && r.value == UploadPlan(table, cols, pk)
      && cols != [] && schema.attributes != []
      && (forall c :: c in cols ==> c in schema.attributes)
      && (pk != [] ==> ToSet(pk) == ToSet(schema.primaryKey))
      && (forall c :: c in pk ==> c in cols)
    ensures r.Ok? <==> (cols != [] && schema.attributes != [] && (forall c :: c in cols ==> c in schema.attributes)
                        && (pk != [] ==> ToSet(pk) == ToSet(schema.primaryKey))
                        && (forall c :: c in pk ==> c in cols))
    ensures cols == [] ==> r == Err(Rejection(400, "columns is required"))
    ensures cols != [] && schema.attributes == [] ==> r == Err(Rejection(404, "table not found"))
    ensures cols != [] && schema.attributes != [] && Missing(cols, schema.attributes) != [] ==>
              r == Err(Rejection(400, InvalidColumnsPrefix + JoinWith(Missing(cols, schema.attributes), ", ")))
    ensures cols != [] && schema.attributes != [] && Missing(cols, schema.attributes) == []
            && pk != [] && ToSet(pk) != ToSet(schema.primaryKey) ==>
              r == Err(Rejection(400, KeyMismatchPrefix
                                      + (if schema.primaryKey != [] then JoinWith(schema.primaryKey, ", ") else "None")))
    ensures cols != [] && schema.attributes != [] && Missing(cols, schema.attributes) == []
            && pk != [] && ToSet(pk) == ToSet(schema.primaryKey) && Missing(pk, cols) != [] ==>
              r == Err(Rejection(400, KeyNotInColumnsPrefix + JoinWith(Missing(pk, cols), ", ")))
    ensures r.Err? ==> r.error.status == 400 || r.error.status == 404
  {
    if cols == [] then Err(Rejection(400, "columns is required"))
    else if schema.attributes == [] then Err(Rejection(404, "table not found"))
    else
      var badCols := Missing(cols, schema.attributes);
      if badCols != [] then Err(Rejection(400, InvalidColumnsPrefix + JoinWith(badCols, ", ")))
      else if pk != [] then
        if ToSet(pk) != ToSet(schema.primaryKey) then
          Err(Rejection(400, KeyMismatchPrefix
                             + (if schema.primaryKey != [] then JoinWith(schema.primaryKey, ", ") else "None")))
        else
          var missing := Missing(pk, cols);
          if missing != [] then Err(Rejection(400, KeyNotInColumnsPrefix + JoinWith(missing, ", ")))
          else Ok(UploadPlan(table, cols, pk))
      else Ok(UploadPlan(table, cols, pk))
  }

  /** The checks of `upload_data` before the primary key is detected, with the identifier
      pattern `matches`; a name that fails it raises a `ValueError`, answered with status 500. */
  function CheckRequest(table: string, columns: string, primaryKey: string, schema: TableSchema,
                        matches: string -> bool): (r: Result<UploadPlan, Rejection>)
    ensures ValidateIdentifiers(Names(table, columns, primaryKey), matches).Some? ==> r.Err? && r.error.status == 500
    ensures ValidateIdentifiers(Names(table, columns, primaryKey), matches).None? ==>
              r == CheckLists(table, ParseList(columns), ParseList(primaryKey), schema)
  {
    match ValidateIdentifiers(Names(table, columns, primaryKey), matches)
    case Some(bad) => Err(Rejection(500, "Invalid SQL identifier: " + bad))
    case None => CheckLists(table, ParseList(columns), ParseList(primaryKey), schema)
  }

  /** A request that passes has a table name, columns and key columns that all pass the
      identifier test. */
  lemma CheckRequestNames(table: string, columns: string, primaryKey: string, schema: TableSchema,
                          matches: string -> bool)
    requires CheckRequest(table, columns, primaryKey, schema, matches).Ok?
    ensures matches(table)
    ensures forall c :: c in ParseList(columns) ==> matches(c)
    ensures forall c :: c in ParseList(primaryKey) ==> matches(c)
  {
    var cols := ParseList(columns);
    var pk := ParseList(primaryKey);
    var names := Names(table, columns, primaryKey);
    assert names == [table] + cols + pk;
    assert forall i :: 0 <= i < |names| ==> matches(names[i]);
    assert names[0] == table;
    forall c | c in cols + pk ensures matches(c) {
      assert c in names;
    }
  }

  /** `upload_data` up to the creation of the job, as written: names are checked with
      `IDENT_RE.match`, and an empty primary key is replaced by the table's key whenever the
      table has one. */
  function ValidateUpload(table: string, columns: string, primaryKey: string, schema: TableSchema)
    : (r: Result<UploadPlan, Rejection>)
    ensures r.Err? <==> CheckRequest(table, columns, primaryKey, schema, IdentReMatch).Err?
    ensures r.Err? ==> r == CheckRequest(table, columns, primaryKey, schema, IdentReMatch)
    ensures r.Ok? ==> r.value.table == table && r.value.columns == ParseList(columns)
                      && r.value.columns != [] && IdentReMatch(table)
                      && forall c :: c in r.value.columns ==> c in schema.attributes
    ensures r.Ok? && ParseList(primaryKey) != [] ==>
              r.value.primaryKey == ParseList(primaryKey)
              && ToSet(r.value.primaryKey) == ToSet(schema.primaryKey)
              && forall c :: c in r.value.primaryKey ==> c in r.value.columns
    ensures r.Ok? && ParseList(primaryKey) == [] ==> r.value.primaryKey == schema.primaryKey
  {
    match CheckRequest(table, columns, primaryKey, schema, IdentReMatch)
    case Err(e) => Err(e)
    case Ok(plan) =>
      CheckRequestNames(table, columns, primaryKey, schema, IdentReMatch);
      if plan.primaryKey == [] && schema.primaryKey != [] then Ok(plan.(primaryKey := schema.primaryKey))
      else Ok(plan)
  }

  /** `upload_data` with both corrections: names must match the whole identifier pattern, and
      an empty primary key takes the table's key only when every key column is uploaded. */
  function ValidateUploadCorrected(table: string, columns: string, primaryKey: string, schema: TableSchema)
    : (r: Result<UploadPlan, Rejection>)
    ensures r.Err? <==> CheckRequest(table, columns, primaryKey, schema, IsIdentifier).Err?
    ensures r.Ok? ==> r.value.table == table && r.value.columns == ParseList(columns)
                      && IsIdentifier(table) && '\n' !in table
                      && (forall c :: c in r.value.columns ==> IsIdentifier(c) && c in schema.attributes)
                      && (forall c :: c in r.value.primaryKey ==> c in r.value.columns)
    ensures (r.Ok? && ParseList(primaryKey) == [] && forall c :: c in schema.primaryKey ==> c in ParseList(columns))
              ==> r.value.primaryKey == schema.primaryKey
  {
    match CheckRequest(table, columns, primaryKey, schema, IsIdentifier)
    case Err(e) => Err(e)
    case Ok(plan) =>
      CheckRequestNames(table, columns, primaryKey, schema, IsIdentifier);
      IdentifierShape(table);
      if plan.primaryKey == [] && forall c :: c in schema.primaryKey ==> c in plan.columns then
        Ok(plan.(primaryKey := schema.primaryKey))
      else Ok(plan)
  }

  // ---------------------------------------------------------------- process_upload, CSV columns

  /** `effective_columns`: the CSV header columns, in header order, that were requested. */
  function EffectiveColumns(csvColumns: seq<string>, requested: seq<string>): (r: seq<string>)
    ensures |r| <= |csvColumns|
    ensures forall c :: c in r <==> c in csvColumns && c in requested
  {
    Filter(csvColumns, c => c in requested)
  }

  /** With every header column requested, the effective columns are the header itself. */
  lemma EffectiveColumnsAllRequested(csvColumns: seq<string>, requested: seq<string>)
    requires forall c :: c in csvColumns ==> c in requested
    ensures EffectiveColumns(csvColumns, requested) == csvColumns
  {
    FilterAll(csvColumns, c => c in requested);
  }

  const MissingKeyPrefix: string := "CSV is missing primary key column(s): "

  /** The column step of `process_upload` for a `.csv` file: the columns to copy, or the message
      of the `ValueError` that fails the job. */
  function CsvColumnCheck(csvColumns: seq<string>, plan: UploadPlan): (r: Result<seq<string>, string>)
    ensures r.Ok? <==> forall c :: c in plan.primaryKey ==> c in csvColumns && c in plan.columns
    ensures r.Ok? ==> r.value == EffectiveColumns(csvColumns, plan.columns)
    ensures r.Err? ==> StartsWith(r.error, MissingKeyPrefix)
    ensures r.Err? ==>
              var missing := Missing(plan.primaryKey, EffectiveColumns(csvColumns, plan.columns));
              missing != [] && r.error == MissingKeyPrefix + JoinWith(missing, ", ")
  {
    var effective := EffectiveColumns(csvColumns, plan.columns);
    if plan.primaryKey != [] then
      var missing := Missing(plan.primaryKey, effective);
      if missing != [] then Err(MissingKeyPrefix + JoinWith(missing, ", "))
      else Ok(effective)
    else Ok(effective)
  }

  /** As written, leaving the key unmapped makes every CSV upload fail: the client sends an
      empty `primary_key`, the server substitutes the table's key, and a key column that was
      not uploaded is missing from the CSV. */
  lemma AutoPrimaryKeyFailsCsv(table: string, columns: string, schema: TableSchema, csvColumns: seq<string>,
                               key: string)
    requires ValidateUpload(table, columns, "", schema).Ok?
    requires key in schema.primaryKey && key !in ParseList(columns)
    ensures ValidateUpload(table, columns, "", schema).value.primaryKey == schema.primaryKey
    ensures CsvColumnCheck(csvColumns, ValidateUpload(table, columns, "", schema).value).Err?
  {
    ParseListEmpty();
  }

  /** A one-column upload to a table that has the column passes the request checks. */
  lemma SingleColumnAccepted(table: string, col: string, schema: TableSchema)
    requires IsIdentifier(table) && IsIdentifier(col) && col in schema.attributes
    ensures CheckRequest(table, col, "", schema, IdentReMatch) == Ok(UploadPlan(table, [col], []))
  {
    ParseListSingle(col);
    ParseListEmpty();
    SingleColumnNames(table, col);
    assert CheckLists(table, [col], [], schema).Ok?;
  }

  lemma ParseListSingle(col: string)
    requires IsIdentifier(col)
    ensures ParseList(col) == [col]
  {
    IdentifierShape(col);
    ParseListJoin([col]);
    assert Join([col], ',') == col;
  }

  lemma SingleColumnNames(table: string, col: string)
    requires IsIdentifier(table) && IsIdentifier(col) && ParseList(col) == [col] && ParseList("") == []
    ensures ValidateIdentifiers(Names(table, col, ""), IdentReMatch).None?
  {
    assert Names(table, col, "") == [table, col];
  }

  /** The input that shows it: table `items(id, name)` keyed by `id`, only `name` mapped. */
  lemma AutoPrimaryKeyExample()
    ensures ValidateUpload("items", "name", "", TableSchema(["id", "name"], ["id"])).Ok?
    ensures CsvColumnCheck(["name"], ValidateUpload("items", "name", "", TableSchema(["id", "name"], ["id"])).value).Err?
  {
    ExampleNamesAreIdentifiers();
    SingleColumnWithoutKeyFails("items", "name", "id", ["name"]);
  }

  /** A one-column upload to a table keyed by another column is accepted, and its job fails
      on a CSV that has only the uploaded column. */
  lemma SingleColumnWithoutKeyFails(table: string, col: string, key: string, csvColumns: seq<string>)
    requires IsIdentifier(table) && IsIdentifier(col) && col != key && key !in csvColumns
    ensures ValidateUpload(table, col, "", TableSchema([key, col], [key])).Ok?
    ensures CsvColumnCheck(csvColumns, ValidateUpload(table, col, "", TableSchema([key, col], [key])).value).Err?
  {
    var schema := TableSchema([key, col], [key]);
    var plan := UploadPlan(table, [col], [key]);
    assert ValidateUpload(table, col, "", schema) == Ok(plan) by {
      SingleColumnAccepted(table, col, schema);
    }
    assert CsvColumnCheck(csvColumns, plan).Err? by {
      assert key in plan.primaryKey && key !in csvColumns;
    }
  }

  lemma ExampleNamesAreIdentifiers()
    ensures IsIdentifier("items") && IsIdentifier("name")
  {
  }

  /** With the corrected validation, a CSV whose header holds every requested column always
      passes the key check of the job. */
  lemma CorrectedPlanPassesCsvCheck(table: string, columns: string, primaryKey: string,
                                    schema: TableSchema, csvColumns: seq<string>)
    requires ValidateUploadCorrected(table, columns, primaryKey, schema).Ok?
    requires forall c :: c in ParseList(columns) ==> c in csvColumns
    ensures CsvColumnCheck(csvColumns, ValidateUploadCorrected(table, columns, primaryKey, schema).value).Ok?
  {
  }

  // ---------------------------------------------------------------- serialize_value

  /** A value of a result row as the database driver hands it over. Dictionary keys are
      strings; any other type (dates, decimals, …) is `PyOther`. */
  datatype PyValue =
    | PyNone
    | PyBool(b: bool)
    | PyInt(i: int)
    | PyStr(s: string)
    | PyBytes(bytes: seq<Base64.Byte>)
    | PyList(items: seq<PyValue>)
    | PyTuple(items: seq<PyValue>)
    | PyDict(entries: seq<(string, PyValue)>)
    | PyOther(repr: string)

  /** No bytes and no tuples anywhere inside. */
  predicate JsonReady(v: PyValue)
    decreases v
  {
    match v
    case PyNone => true
    case PyBool(_) => true
    case PyInt(_) => true
    case PyStr(_) => true
    case PyBytes(_) => false
    case PyList(items) => forall i :: 0 <= i < |items| ==> JsonReady(items[i])
    case PyTuple(_) => false
    case PyDict(entries) => forall i :: 0 <= i < |entries| ==> JsonReady(entries[i].1)
    case PyOther(_) => true
  }

  const Base64Tag: string := "base64:"

  /** `serialize_value(val)`. */
  function Serialize(v: PyValue): (r: PyValue)
    ensures JsonReady(r)
    ensures JsonReady(v) ==> r == v
    ensures r.PyNone? <==> v.PyNone?
    ensures v.PyBytes? ==> r.PyStr? && StartsWith(r.s, Base64Tag)
                           && Base64.Decode(r.s[|Base64Tag|..]) == v.bytes
    ensures v.PyList? || v.PyTuple? ==> r.PyList? && |r.items| == |v.items|
    ensures v.PyDict? ==> r.PyDict? && |r.entries| == |v.entries|
                          && forall i :: 0 <= i < |v.entries| ==> r.entries[i].0 == v.entries[i].0
    decreases v
  {
    match v
    case PyNone => PyNone
    case PyBytes(b) =>
      Base64.DecodeEncode(b);
      var s := Base64Tag + Base64.Encode(b);
      assert s[|Base64Tag|..] == Base64.Encode(b);
      PyStr(s)
    case PyList(items) =>
      var r := seq(|items|, i requires 0 <= i < |items| => Serialize(items[i]));
      assert JsonReady(v) ==> r == items;
      PyList(r)
    case PyTuple(items) =>
      PyList(seq(|items|, i requires 0 <= i < |items| => Serialize(items[i])))
    case PyDict(entries) =>
      var r := seq(|entries|, i requires 0 <= i < |entries| => (entries[i].0, Serialize(entries[i].1)));
      assert JsonReady(v) ==> r == entries;
      PyDict(r)
    case PyBool(_) => v
    case PyInt(_) => v
    case PyStr(_) => v
    case PyOther(_) => v
  }
}
