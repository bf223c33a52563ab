/** Character classes and string operations of the two host languages: JavaScript's
    `String.prototype.trim` (client) and Python's `str.strip`, `str.upper`, `str.lower`,
    `startswith` and `in` (server). */
module Text {

  /** White space removed by JavaScript's `trim` (WhiteSpace and LineTerminator code points). */
  predicate IsJsSpace(c: char)
  {
    c == '\t' || c == '\n' || c == '\U{B}' || c == '\U{C}' || c == '\r' || c == ' '
    || c == '\U{A0}' || c == '\U{1680}' || ('\U{2000}' <= c <= '\U{200A}')
    || c == '\U{2028}' || c == '\U{2029}' || c == '\U{202F}' || c == '\U{205F}'
    || c == '\U{3000}' || c == '\U{FEFF}'
  }

  /** Characters for which Python's `str.isspace` holds, i.e. what `str.strip()` removes. */
  predicate IsPySpace(c: char)
  {
    ('\t' <= c <= '\r') || ('\U{1C}' <= c <= ' ') || c == '\U{85}' || c == '\U{A0}'
    || c == '\U{1680}' || ('\U{2000}' <= c <= '\U{200A}') || c == '\U{2028}'
    || c == '\U{2029}' || c == '\U{202F}' || c == '\U{205F}' || c == '\U{3000}'
  }

  function TrimStart(s: string, isSpace: char -> bool): (r: string)
    ensures |r| <= |s| && r == s[|s| - |r|..]
    ensures r == "" || !isSpace(r[0])
    decreases |s|
  {
    if |s| > 0 && isSpace(s[0]) then TrimStart(s[1..], isSpace) else s
  }

  function TrimEnd(s: string, isSpace: char -> bool): (r: string)
    ensures |r| <= |s| && r == s[..|r|]
    ensures r == "" || !isSpace(r[|r| - 1])
    decreases |s|
  {
    if |s| > 0 && isSpace(s[|s| - 1]) then TrimEnd(s[..|s| - 1], isSpace) else s
  }

  /** Both ends stripped of the characters `isSpace` accepts. */
  function Strip(s: string, isSpace: char -> bool): (r: string)
    ensures |r| <= |s|
    ensures r == "" || (!isSpace(r[0]) && !isSpace(r[|r| - 1]))
  {
    TrimEnd(TrimStart(s, isSpace), isSpace)
  }

  /** Stripping only removes characters. */
  lemma StripSubset(s: string, isSpace: char -> bool)
    ensures forall c :: c in Strip(s, isSpace) ==> c in s
  {
    var t := TrimStart(s, isSpace);
    var r := TrimEnd(t, isSpace);
    assert forall c :: c in t ==> c in s by {
      assert t == s[|s| - |t|..];
    }
    assert forall c :: c in r ==> c in t by {
      assert r == t[..|r|];
    }
  }

  /** Stripping removes white space at the two ends and nothing else: the result is the
      slice of `s` from `start` to `end`, and everything outside that slice is white space. */
  lemma StripBounds(s: string, isSpace: char -> bool) returns (start: nat, end: nat)
    ensures start <= end <= |s| && Strip(s, isSpace) == s[start..end]
    ensures forall j :: 0 <= j < start ==> isSpace(s[j])
    ensures forall j :: end <= j < |s| ==> isSpace(s[j])
  {
    var t := TrimStart(s, isSpace);
    var r := TrimEnd(t, isSpace);
    start := |s| - |t|;
    end := start + |r|;
    TrimStartSpaces(s, isSpace);
    TrimEndSpaces(t, isSpace);
    assert t == s[start..];
    assert r == s[start..end] by {
      assert r == t[..|r|];
    }
    SuffixSpaces(s, start, |r|, isSpace);
  }

  /** White space at the end of a suffix of `s` is white space at the end of `s`. */
  lemma SuffixSpaces(s: string, start: nat, m: nat, isSpace: char -> bool)
    requires start <= |s|
    requires forall k :: m <= k < |s[start..]| ==> isSpace(s[start..][k])
    ensures forall j :: start + m <= j < |s| ==> isSpace(s[j])
  {
    forall j | start + m <= j < |s| ensures isSpace(s[j]) {
      assert s[j] == s[start..][j - start];
    }
  }

  /** What `TrimStart` removes is white space. */
  lemma {:induction false} TrimStartSpaces(s: string, isSpace: char -> bool)
    ensures forall j :: 0 <= j < |s| - |TrimStart(s, isSpace)| ==> isSpace(s[j])
    decreases |s|
  {
    if |s| > 0 && isSpace(s[0]) {
      TrimStartSpaces(s[1..], isSpace);
      forall j | 1 <= j < |s| - |TrimStart(s, isSpace)| ensures isSpace(s[j]) {
        assert s[j] == s[1..][j - 1];
      }
    }
  }

  /** What `TrimEnd` removes is white space. */
  lemma {:induction false} TrimEndSpaces(s: string, isSpace: char -> bool)
    ensures forall j :: |TrimEnd(s, isSpace)| <= j < |s| ==> isSpace(s[j])
    decreases |s|
  {
    if |s| > 0 && isSpace(s[|s| - 1]) {
      TrimEndSpaces(s[..|s| - 1], isSpace);
      forall j | |TrimEnd(s, isSpace)| <= j < |s| - 1 ensures isSpace(s[j]) {
        assert s[j] == s[..|s| - 1][j];
      }
    }
  }

  /** A string whose ends are not white space is left as it is. */
  lemma StripKeeps(s: string, isSpace: char -> bool)
    requires s == "" || (!isSpace(s[0]) && !isSpace(s[|s| - 1]))
    ensures Strip(s, isSpace) == s
  {
  }

  /** JavaScript `s.trim()`. */
  function JsTrim(s: string): string
  {
    Strip(s, IsJsSpace)
  }

  /** Python `s.strip()`. */
  function PyStrip(s: string): string
  {
    Strip(s, IsPySpace)
  }

  function UpperChar(c: char): char
  {
    if 'a' <= c <= 'z' then (c as int - 32) as char else c
  }

  function LowerChar(c: char): char
  {
    if 'A' <= c <= 'Z' then (c as int + 32) as char else c
  }

  /** `s.upper()` on ASCII letters. */
  function Upper(s: string): (r: string)
    ensures |r| == |s|
    ensures forall i :: 0 <= i < |s| ==> r[i] == UpperChar(s[i])
  {
    seq(|s|, i requires 0 <= i < |s| => UpperChar(s[i]))
  }

  /** `s.lower()` on ASCII letters. */
  function Lower(s: string): (r: string)
    ensures |r| == |s|
    ensures forall i :: 0 <= i < |s| ==> r[i] == LowerChar(s[i])
  {
    seq(|s|, i requires 0 <= i < |s| => LowerChar(s[i]))
  }

  predicate StartsWith(s: string, prefix: string)
  {
    |prefix| <= |s| && s[..|prefix|] == prefix
  }

  /** `s.endsWith(suffix)`. */
  predicate EndsWith(s: string, suffix: string)
  {
    |suffix| <= |s| && s[|s| - |suffix|..] == suffix
  }

  /** Python `needle in s` for strings: `needle` occurs at some position of `s`. */
  predicate Contains(s: string, needle: string)
    decreases |s|
  {
    StartsWith(s, needle) || (|s| > 0 && Contains(s[1..], needle))
  }

  /** `s.replaceAll(c, rep)`. */
  function ReplaceAll(s: string, c: char, rep: string): (r: string)
    ensures c !in rep ==> c !in r
    ensures forall d :: d in r ==> d in s || d in rep
    decreases |s|
  {
    if s == [] then []
    else (if s[0] == c then rep else [s[0]]) + ReplaceAll(s[1..], c, rep)
  }

  lemma {:induction false} ReplaceAllAppend(a: string, b: string, c: char, rep: string)
    ensures ReplaceAll(a + b, c, rep) == ReplaceAll(a, c, rep) + ReplaceAll(b, c, rep)
    decreases |a|
  {
    if a == [] {
      assert a + b == b;
    } else {
      assert (a + b)[1..] == a[1..] + b;
      ReplaceAllAppend(a[1..], b, c, rep);
    }
  }

  lemma {:induction false} ReplaceAllAbsent(s: string, c: char, rep: string)
    requires c !in s
    ensures ReplaceAll(s, c, rep) == s
    decreases |s|
  {
    if s != [] {
      ReplaceAllAbsent(s[1..], c, rep);
      assert [s[0]] + s[1..] == s;
    }
  }
}
