/** The client's single-line CSV codec: the quote-aware tokenizer `parseCsvLine` and the
    field quoting `csvEscape`, in the style of section 2 of RFC 4180 (one record per line). */
module CsvCodec {
  import opened Seqs

  /** The tokenizer as a state machine over the unread text `rest`: `inQuotes` is the quoting
      state, `cur` the field being read and `out` the fields already finished. */
  function Scan(rest: string, inQuotes: bool, cur: string, out: seq<string>): (r: seq<string>)
    ensures |r| > |out|
    ensures r[..|out|] == out
    decreases |rest|
  {
    if rest == [] then out + [cur]
    else if inQuotes then
      if rest[0] == '"' then
        if |rest| > 1 && rest[1] == '"' then Scan(rest[2..], true, cur + ['"'], out)
        else Scan(rest[1..], false, cur, out)
      else Scan(rest[1..], true, cur + [rest[0]], out)
    else if rest[0] == ',' then
      var r := Scan(rest[1..], false, "", out + [cur]);
      assert r[..|out|] == (out + [cur])[..|out|];
      r
    else if rest[0] == '"' then Scan(rest[1..], true, cur, out)
    else Scan(rest[1..], false, cur + [rest[0]], out)
  }

  /** The fields of one line. */
  function ParseLine(line: string): (r: seq<string>)
    ensures |r| >= 1
  {
    Scan(line, false, "", [])
  }

  /** Commas read while not inside quotes, with the tokenizer's rules for entering and
      leaving quotes (a doubled quote inside quotes stays inside). */
  function UnquotedCommas(rest: string, inQuotes: bool): nat
    decreases |rest|
  {
    if rest == [] then 0
    else if inQuotes then
      if rest[0] == '"' then
        if |rest| > 1 && rest[1] == '"' then UnquotedCommas(rest[2..], true)
        else UnquotedCommas(rest[1..], false)
      else UnquotedCommas(rest[1..], true)
    else if rest[0] == ',' then 1 + UnquotedCommas(rest[1..], false)
    else if rest[0] == '"' then UnquotedCommas(rest[1..], true)
    else UnquotedCommas(rest[1..], false)
  }

  lemma {:induction false} ScanCount(rest: string, inQuotes: bool, cur: string, out: seq<string>)
    ensures |Scan(rest, inQuotes, cur, out)| == |out| + 1 + UnquotedCommas(rest, inQuotes)
    decreases |rest|
  {
    if rest != [] {
      if inQuotes {
        if rest[0] == '"' {
          if |rest| > 1 && rest[1] == '"' { ScanCount(rest[2..], true, cur + ['"'], out); }
          else { ScanCount(rest[1..], false, cur, out); }
        } else { ScanCount(rest[1..], true, cur + [rest[0]], out); }
      } else if rest[0] == ',' { ScanCount(rest[1..], false, "", out + [cur]); }
      else if rest[0] == '"' { ScanCount(rest[1..], true, cur, out); }
      else { ScanCount(rest[1..], false, cur + [rest[0]], out); }
    }
  }

  /** A line yields exactly one more field than it has commas outside quotes. */
  lemma FieldCount(line: string)
    ensures |ParseLine(line)| == 1 + UnquotedCommas(line, false)
  {
    ScanCount(line, false, "", []);
  }

  /** `parseCsvLine`: one pass over the line, updating `cur`, `inQuotes` and `out`. */
  method ParseCsvLine(line: string) returns (out: seq<string>)
    ensures out == ParseLine(line)
  {
    out := [];
    var cur := "";
    var inQuotes := false;
    var i := 0;
    while i < |line|
      invariant 0 <= i <= |line|
      invariant Scan(line[i..], inQuotes, cur, out) == ParseLine(line)
    {
      var ch := line[i];
      if inQuotes {
        if ch == '"' {
          if i + 1 < |line| && line[i + 1] == '"' {
            cur := cur + ['"'];
            assert line[i..][2..] == line[i + 2..];
            i := i + 1;
          } else {
            inQuotes := false;
          }
        } else {
          cur := cur + [ch];
        }
      } else {
        if ch == ',' {
          out := out + [cur];
          cur := "";
        } else if ch == '"' {
          inQuotes := true;
        } else {
          cur := cur + [ch];
        }
      }
      assert line[i..][1..] == line[i + 1..];
      i := i + 1;
    }
    out := out + [cur];
  }

  /** A value must be quoted when it holds a quote, a comma, a line feed or a carriage return. */
  predicate NeedsQuoting(v: string)
  {
    '"' in v || ',' in v || '\n' in v || '\r' in v
  }

  /** `v.replaceAll('"', '""')`. */
  function DoubleQuotes(v: string): (r: string)
    ensures |r| >= |v|
    ensures forall c :: c in r && c != '"' ==> c in v
    decreases |v|
  {
    if v == [] then []
    else (if v[0] == '"' then "\"\"" else [v[0]]) + DoubleQuotes(v[1..])
  }

  /** `csvEscape` on a string value: wrapped in quotes with inner quotes doubled exactly
      when it needs quoting, otherwise unchanged. */
  function CsvEscape(v: string): (r: string)
    ensures !NeedsQuoting(v) ==> r == v
    ensures (|r| > 0 && r[0] == '"') <==> NeedsQuoting(v)
    ensures '\n' in r ==> '\n' in v
  {
    if NeedsQuoting(v) then "\"" + DoubleQuotes(v) + "\"" else v
  }

  /** Escaping adds only quotes. */
  lemma CsvEscapeChars(v: string)
    ensures forall c :: c in CsvEscape(v) && c != '"' ==> c in v
  {
  }

  function EscapeAll(fields: seq<string>): (r: seq<string>)
    ensures |r| == |fields|
    ensures forall i :: 0 <= i < |fields| ==> r[i] == CsvEscape(fields[i])
  {
    seq(|fields|, i requires 0 <= i < |fields| => CsvEscape(fields[i]))
  }

  /** `fields.map(csvEscape).join(',')`. */
  function EscapedLine(fields: seq<string>): string
  {
    Join(EscapeAll(fields), ',')
  }

  lemma {:induction false} ScanPlain(f: string, rest: string, cur: string, out: seq<string>)
    requires '"' !in f && ',' !in f
    ensures Scan(f + rest, false, cur, out) == Scan(rest, false, cur + f, out)
    decreases |f|
  {
    if f == [] {
      assert f + rest == rest && cur + f == cur;
    } else {
      assert (f + rest)[1..] == f[1..] + rest;
      ScanPlain(f[1..], rest, cur + [f[0]], out);
      assert cur + [f[0]] + f[1..] == cur + f;
    }
  }

  lemma {:induction false} ScanQuoted(f: string, rest: string, cur: string, out: seq<string>)
    requires rest == [] || rest[0] == ','
    ensures Scan(DoubleQuotes(f) + "\"" + rest, true, cur, out) == Scan(rest, false, cur + f, out)
    decreases |f|
  {
    if f == [] {
      assert DoubleQuotes(f) + "\"" + rest == "\"" + rest;
      assert ("\"" + rest)[1..] == rest;
      assert cur + f == cur;
    } else {
      var inner := DoubleQuotes(f[1..]);
      var t := inner + "\"" + rest;
      var head := if f[0] == '"' then "\"\"" else [f[0]];
      assert DoubleQuotes(f) == head + inner;
      AppendAssoc(head, inner, "\"");
      AppendAssoc(head, inner + "\"", rest);
      assert DoubleQuotes(f) + "\"" + rest == head + t;
      assert (head + t)[|head|..] == t;
      ScanQuoted(f[1..], rest, cur + [f[0]], out);
      AppendAssoc(cur, [f[0]], f[1..]);
      assert [f[0]] + f[1..] == f;
    }
  }

  /** Reading an escaped field followed by the end of the line or a comma yields the field. */
  lemma ScanEscaped(f: string, rest: string, cur: string, out: seq<string>)
    requires rest == [] || rest[0] == ','
    ensures Scan(CsvEscape(f) + rest, false, cur, out) == Scan(rest, false, cur + f, out)
  {
    if NeedsQuoting(f) {
      var t := DoubleQuotes(f) + "\"" + rest;
      assert CsvEscape(f) + rest == "\"" + t by {
        AppendAssoc("\"", DoubleQuotes(f) + "\"", rest);
      }
      assert Scan("\"" + t, false, cur, out) == Scan(t, true, cur, out) by {
        assert ("\"" + t)[0] == '"' && ("\"" + t)[1..] == t;
      }
      ScanQuoted(f, rest, cur, out);
    } else {
      ScanPlain(f, rest, cur, out);
    }
  }

  lemma {:induction false} ScanLine(fields: seq<string>, out: seq<string>)
    requires |fields| >= 1
    ensures Scan(EscapedLine(fields), false, "", out) == out + fields
    decreases |fields|
  {
    if |fields| == 1 {
      assert EscapedLine(fields) == CsvEscape(fields[0]) + "";
      ScanEscaped(fields[0], "", "", out);
      assert "" + fields[0] == fields[0];
      assert fields == [fields[0]];
    } else {
      var tail := EscapedLine(fields[1..]);
      EscapedLineCons(fields);
      ScanEscaped(fields[0], [','] + tail, "", out);
      assert ([','] + tail)[1..] == tail;
      assert "" + fields[0] == fields[0];
      ScanLine(fields[1..], out + [fields[0]]);
      AppendAssoc(out, [fields[0]], fields[1..]);
      assert [fields[0]] + fields[1..] == fields;
    }
  }

  lemma EscapedLineCons(fields: seq<string>)
    requires |fields| >= 2
    ensures EscapedLine(fields) == CsvEscape(fields[0]) + ([','] + EscapedLine(fields[1..]))
  {
    var tail := EscapedLine(fields[1..]);
    assert EscapeAll(fields)[1..] == EscapeAll(fields[1..]);
    assert EscapedLine(fields) == CsvEscape(fields[0]) + [','] + tail;
    AppendAssoc(CsvEscape(fields[0]), [','], tail);
  }

  /** Round trip: escaping every field, joining with commas and parsing the line gives the
      fields back, for any non-empty list of strings (quotes, commas and line breaks included).
      The empty list cannot come back: an empty line parses as one empty field. */
  lemma RoundTrip(fields: seq<string>)
    requires |fields| >= 1
    ensures ParseLine(EscapedLine(fields)) == fields
  {
    ScanLine(fields, []);
  }
}
