/** Text helpers of the client that prepare values for display: HTML escaping, preview
    truncation and the rendering of an error `detail` from the server. */
module Display {
  import opened Wrappers
  import opened Text
  import opened JsonValue
  import Base64

  /** `escapeHtml` on a string: the five replacements in source order, `&` first so that
      the entities introduced later are not escaped again. */
  function EscapeHtml(s: string): (r: string)
    ensures '<' !in r && '>' !in r && '"' !in r && '\'' !in r
  {
    var s1 := ReplaceAll(s, '&', "&amp;");
    var s2 := ReplaceAll(s1, '<', "&lt;");
    var s3 := ReplaceAll(s2, '>', "&gt;");
    var s4 := ReplaceAll(s3, '"', "&quot;");
    ReplaceAll(s4, '\'', "&#39;")
  }

  /** The entity a single character becomes. */
  function EscapeChar(c: char): string
  {
    if c == '&' then "&amp;"
    else if c == '<' then "&lt;"
    else if c == '>' then "&gt;"
    else if c == '"' then "&quot;"
    else if c == '\'' then "&#39;"
    else [c]
  }

  /** Character-by-character reference definition of the escaping. */
  function EscapeEach(s: string): string
    decreases |s|
  {
    if s == [] then [] else EscapeChar(s[0]) + EscapeEach(s[1..])
  }

  lemma EscapeHtmlChar(c: char)
    ensures EscapeHtml([c]) == EscapeChar(c)
  {
    var s1 := ReplaceAll([c], '&', "&amp;");
    if c == '&' {
      assert s1 == "&amp;" by { ReplaceSingle(c, '&', "&amp;"); }
      LaterStepsKeep(s1);
    } else {
      assert s1 == [c] by { ReplaceSingle(c, '&', "&amp;"); }
      EscapeAfterAmp(c);
    }
  }

  /** The replacements after the one of `&`, on a character other than `&`. */
  lemma EscapeAfterAmp(c: char)
    requires c != '&'
    ensures ReplaceAll(ReplaceAll(ReplaceAll(ReplaceAll([c], '<', "&lt;"), '>', "&gt;"), '"', "&quot;"), '\'', "&#39;")
            == EscapeChar(c)
  {
    var s2 := ReplaceAll([c], '<', "&lt;");
    if c == '<' {
      assert s2 == "&lt;" by { ReplaceSingle(c, '<', "&lt;"); }
      LaterStepsKeep(s2);
    } else {
      assert s2 == [c] by { ReplaceSingle(c, '<', "&lt;"); }
      EscapeAfterLt(c);
    }
  }

  lemma EscapeAfterLt(c: char)
    requires c != '&' && c != '<'
    ensures ReplaceAll(ReplaceAll(ReplaceAll([c], '>', "&gt;"), '"', "&quot;"), '\'', "&#39;") == EscapeChar(c)
  {
    var s3 := ReplaceAll([c], '>', "&gt;");
    if c == '>' {
      assert s3 == "&gt;" by { ReplaceSingle(c, '>', "&gt;"); }
      LaterStepsKeep(s3);
    } else {
      assert s3 == [c] by { ReplaceSingle(c, '>', "&gt;"); }
      EscapeAfterGt(c);
    }
  }

  lemma EscapeAfterGt(c: char)
    requires c != '&' && c != '<' && c != '>'
    ensures ReplaceAll(ReplaceAll([c], '"', "&quot;"), '\'', "&#39;") == EscapeChar(c)
  {
    var s4 := ReplaceAll([c], '"', "&quot;");
    if c == '"' {
      assert s4 == "&quot;" by { ReplaceSingle(c, '"', "&quot;"); }
      ReplaceAllAbsent(s4, '\'', "&#39;");
    } else {
      assert s4 == [c] by { ReplaceSingle(c, '"', "&quot;"); }
      ReplaceSingle(c, '\'', "&#39;");
    }
  }

  lemma ReplaceSingle(c: char, x: char, rep: string)
    ensures ReplaceAll([c], x, rep) == if c == x then rep else [c]
  {
    assert [c][1..] == [];
  }

  /** An entity holds none of the characters replaced after `&`, so the later replacements
      leave it as it is. */
  lemma LaterStepsKeep(e: string)
    requires '<' !in e && '>' !in e && '"' !in e && '\'' !in e
    ensures ReplaceAll(ReplaceAll(e, '"', "&quot;"), '\'', "&#39;") == e
    ensures ReplaceAll(ReplaceAll(ReplaceAll(e, '>', "&gt;"), '"', "&quot;"), '\'', "&#39;") == e
    ensures ReplaceAll(ReplaceAll(ReplaceAll(ReplaceAll(e, '<', "&lt;"), '>', "&gt;"), '"', "&quot;"), '\'', "&#39;") == e
  {
    ReplaceAllAbsent(e, '<', "&lt;");
    ReplaceAllAbsent(e, '>', "&gt;");
    ReplaceAllAbsent(e, '"', "&quot;");
    ReplaceAllAbsent(e, '\'', "&#39;");
  }

  lemma EscapeHtmlAppend(a: string, b: string)
    ensures EscapeHtml(a + b) == EscapeHtml(a) + EscapeHtml(b)
  {
    ReplaceAllAppend(a, b, '&', "&amp;");
    var a1, b1 := ReplaceAll(a, '&', "&amp;"), ReplaceAll(b, '&', "&amp;");
    ReplaceAllAppend(a1, b1, '<', "&lt;");
    var a2, b2 := ReplaceAll(a1, '<', "&lt;"), ReplaceAll(b1, '<', "&lt;");
    ReplaceAllAppend(a2, b2, '>', "&gt;");
    var a3, b3 := ReplaceAll(a2, '>', "&gt;"), ReplaceAll(b2, '>', "&gt;");
    ReplaceAllAppend(a3, b3, '"', "&quot;");
    var a4, b4 := ReplaceAll(a3, '"', "&quot;"), ReplaceAll(b3, '"', "&quot;");
    ReplaceAllAppend(a4, b4, '\'', "&#39;");
  }

  /** The chain of replacements escapes each character independently. */
  lemma {:induction false} EscapeHtmlEach(s: string)
    ensures EscapeHtml(s) == EscapeEach(s)
    decreases |s|
  {
    if s == [] {
    } else {
      assert s == [s[0]] + s[1..];
      EscapeHtmlAppend([s[0]], s[1..]);
      EscapeHtmlChar(s[0]);
      EscapeHtmlEach(s[1..]);
    }
  }

  /** Decoding of the five entities, the partner of the escaping. */
  function Unescape(s: string): string
    decreases |s|
  {
    if s == [] then []
    else if StartsWith(s, "&amp;") then "&" + Unescape(s[5..])
    else if StartsWith(s, "&lt;") then "<" + Unescape(s[4..])
    else if StartsWith(s, "&gt;") then ">" + Unescape(s[4..])
    else if StartsWith(s, "&quot;") then "\"" + Unescape(s[6..])
    else if StartsWith(s, "&#39;") then "'" + Unescape(s[5..])
    else [s[0]] + Unescape(s[1..])
  }

  lemma UnescapeEntity(c: char, t: string)
    requires c in "&<>\"'"
    ensures Unescape(EscapeChar(c) + t) == [c] + Unescape(t)
  {
    if c == '&' {
      UnescapeAmp(t);
    } else if c == '<' {
      UnescapeLt(t);
    } else if c == '>' {
      UnescapeGt(t);
    } else if c == '"' {
      UnescapeQuot(t);
    } else {
      UnescapeApos(t);
    }
  }

  lemma UnescapeAmp(t: string)
    ensures Unescape("&amp;" + t) == "&" + Unescape(t)
  {
    var s := "&amp;" + t;
    assert s[..5] == "&amp;" && s[5..] == t;
  }

  lemma UnescapeLt(t: string)
    ensures Unescape("&lt;" + t) == "<" + Unescape(t)
  {
    var s := "&lt;" + t;
    assert s[..4] == "&lt;" && s[4..] == t;
    assert s[1] == 'l';
  }

  lemma UnescapeGt(t: string)
    ensures Unescape("&gt;" + t) == ">" + Unescape(t)
  {
    var s := "&gt;" + t;
    assert s[..4] == "&gt;" && s[4..] == t;
    assert s[1] == 'g';
  }

  lemma UnescapeQuot(t: string)
    ensures Unescape("&quot;" + t) == "\"" + Unescape(t)
  {
    var s := "&quot;" + t;
    assert s[..6] == "&quot;" && s[6..] == t;
    assert s[1] == 'q';
  }

  lemma UnescapeApos(t: string)
    ensures Unescape("&#39;" + t) == "'" + Unescape(t)
  {
    var s := "&#39;" + t;
    assert s[..5] == "&#39;" && s[5..] == t;
    assert s[1] == '#';
  }

  lemma UnescapeChar(c: char, t: string)
    ensures Unescape(EscapeChar(c) + t) == [c] + Unescape(t)
  {
    if c in "&<>\"'" {
      UnescapeEntity(c, t);
    } else {
      var s := [c] + t;
      assert s[0] == c && s[1..] == t;
      assert !StartsWith(s, "&amp;") && !StartsWith(s, "&lt;") && !StartsWith(s, "&gt;")
             && !StartsWith(s, "&quot;") && !StartsWith(s, "&#39;");
    }
  }

  lemma {:induction false} UnescapeEach(s: string)
    ensures Unescape(EscapeEach(s)) == s
    decreases |s|
  {
    if s != [] {
      UnescapeChar(s[0], EscapeEach(s[1..]));
      UnescapeEach(s[1..]);
      assert [s[0]] + s[1..] == s;
    }
  }

  /** Escaping loses nothing: the entities decode back to the original text. */
  lemma EscapeHtmlRoundTrip(s: string)
    ensures Unescape(EscapeHtml(s)) == s
  {
    EscapeHtmlEach(s);
    UnescapeEach(s);
  }

  /** The marker appended to truncated previews. The source file holds the UTF-8 bytes of
      a horizontal ellipsis (E2 80 A6) read back as Mac Roman, so the literal is these three
      characters (U+201A, U+00C4, U+00B6) rather than a single U+2026. */
  const TruncationMarker: string := "\U{201A}\U{C4}\U{B6}"

  const PreviewLimit: nat := 500

  /** `s.length > 500 ? s.slice(0, 500) + marker : s`. */
  function Truncate(s: string): (r: string)
    ensures |s| <= PreviewLimit ==> r == s
    ensures |s| > PreviewLimit ==>
      |r| == PreviewLimit + |TruncationMarker| && r[..PreviewLimit] == s[..PreviewLimit] && r[PreviewLimit..] == TruncationMarker
    ensures |r| <= PreviewLimit + |TruncationMarker|
  {
    if |s| > PreviewLimit then s[..PreviewLimit] + TruncationMarker else s
  }

  /** Truncating a preview again changes nothing. */
  lemma TruncateIdempotent(s: string)
    ensures Truncate(Truncate(s)) == Truncate(s)
  {
    if |s| > PreviewLimit {
      var r := Truncate(s);
      assert r[..PreviewLimit] == s[..PreviewLimit];
    }
  }

  /** `formatPreviewValue(v)`; `None` is `undefined`. The JSON text of objects comes from
      `stringify`, which stands for `JSON.stringify`. */
  function FormatPreviewValue(v: Option<Json>, stringify: Json -> string): (r: string)
    ensures v == None || v == Some(JNull) ==> r == ""
    ensures v.Some? && v.value.JStr? ==> r == Truncate(v.value.s)
    ensures v.Some? && (v.value.JNum? || v.value.JBool?) ==> r == JsString(v.value)
    ensures v.Some? && IsBufferLike(v.value) && Base64.Encode(BufferBytes(v.value)) != "" ==>
              r == "base64:" + Truncate(Base64.Encode(BufferBytes(v.value)))
    ensures v.Some? && IsObjectLike(v.value) && !(IsBufferLike(v.value) && Base64.Encode(BufferBytes(v.value)) != "") ==>
              r == Truncate(stringify(v.value))
    ensures |r| <= PreviewLimit + |TruncationMarker| + 7 || (v.Some? && (v.value.JNum? || v.value.JBool?))
  {
    if v.None? || v.value.JNull? then ""
    else if v.value.JStr? then Truncate(v.value.s)
    else if v.value.JNum? || v.value.JBool? then JsString(v.value)
    else if IsBufferLike(v.value) && Base64.Encode(BufferBytes(v.value)) != "" then
      "base64:" + Truncate(Base64.Encode(BufferBytes(v.value)))
    else Truncate(stringify(v.value))
  }

  /** The preview of a number reads back, as `Number` reads text, as that number. */
  lemma PreviewNumberReadsBack(n: int, stringify: Json -> string)
    ensures DecimalToInteger(FormatPreviewValue(Some(JNum(n)), stringify)) == Some(n)
  {
    IntTextReadsBack(n);
  }

  /** A non-empty buffer is previewed as `base64:` and its encoding; when that encoding is at
      most 500 characters the preview decodes back to the buffer's bytes. */
  lemma PreviewBuffer(v: Json, stringify: Json -> string)
    requires IsBufferLike(v) && BufferBytes(v) != []
    ensures var r := FormatPreviewValue(Some(v), stringify);
      && |r| >= 7 && r[..7] == "base64:"
      && (|Base64.Encode(BufferBytes(v))| <= PreviewLimit ==> Base64.Decode(r[7..]) == BufferBytes(v))
  {
    var b64 := Base64.Encode(BufferBytes(v));
    assert b64 != "";
    var r := FormatPreviewValue(Some(v), stringify);
    assert r == "base64:" + Truncate(b64);
    if |b64| <= PreviewLimit {
      assert r[7..] == b64;
      Base64.DecodeEncode(BufferBytes(v));
    }
  }

  /** `errorToString(detail)` for a parsed `detail`: a string is shown as is, an object with
      a truthy `error` member shows that member (as text), anything else its JSON text. */
  function ErrorToString(detail: Json, stringify: Json -> string): (r: string)
    ensures detail.JStr? ==> r == detail.s
    ensures forall e :: detail.JObj? && Get(detail.fields, "error") == Some(JStr(e)) && e != "" ==> r == e
    ensures !detail.JObj? && !detail.JStr? ==> r == stringify(detail)
    ensures detail.JObj? && Get(detail.fields, "error").Some? && Truthy(Get(detail.fields, "error").value) ==>
      r == JsString(Get(detail.fields, "error").value)
    ensures detail.JObj? && (Get(detail.fields, "error").None? || !Truthy(Get(detail.fields, "error").value)) ==>
      r == stringify(detail)
  {
    if detail.JStr? then detail.s
    else if detail.JObj? && Get(detail.fields, "error").Some? && Truthy(Get(detail.fields, "error").value)
    then JsString(Get(detail.fields, "error").value)
    else stringify(detail)
  }
}
