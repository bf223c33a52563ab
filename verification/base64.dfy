/** Base 64 encoding with the standard alphabet and `=` padding (section 4 of RFC 4648), as
    produced by the browser's `btoa` over a byte string and by Python's `base64.b64encode`.
    The decoder is not part of the system; it is the partner that shows no byte is lost. */
module Base64 {

  type Byte = x: int | 0 <= x < 256

  /** The character for a 6-bit value: `A`–`Z`, `a`–`z`, `0`–`9`, `+`, `/`. */
  function Sextet(x: int): (c: char)
    requires 0 <= x < 64
    ensures c != '='
  {
    if x < 26 then ('A' as int + x) as char
    else if x < 52 then ('a' as int + (x - 26)) as char
    else if x < 62 then ('0' as int + (x - 52)) as char
    else if x == 62 then '+'
    else '/'
  }

  /** The 6-bit value of an alphabet character (0 for anything else). */
  function SextetValue(c: char): (x: int)
    ensures 0 <= x < 64
  {
    if 'A' <= c <= 'Z' then c as int - 'A' as int
    else if 'a' <= c <= 'z' then c as int - 'a' as int + 26
    else if '0' <= c <= '9' then c as int - '0' as int + 52
    else if c == '+' then 62
    else if c == '/' then 63
    else 0
  }

  lemma SextetRoundTrip(x: int)
    requires 0 <= x < 64
    ensures SextetValue(Sextet(x)) == x
  {
  }

  /** Encodes three bytes per four characters (each character carries six of the 24 bits);
      a final one or two bytes are padded with `=`. */
  function Encode(b: seq<Byte>): (r: string)
    ensures |r| == 4 * ((|b| + 2) / 3)
    ensures r == "" <==> b == []
    decreases |b|
  {
    if |b| == 0 then ""
    else if |b| == 1 then
      [Sextet(b[0] / 4), Sextet((b[0] % 4) * 16), '=', '=']
    else if |b| == 2 then
      [Sextet(b[0] / 4), Sextet((b[0] % 4) * 16 + b[1] / 16), Sextet((b[1] % 16) * 4), '=']
    else
      [Sextet(b[0] / 4), Sextet((b[0] % 4) * 16 + b[1] / 16),
       Sextet((b[1] % 16) * 4 + b[2] / 64), Sextet(b[2] % 64)]
      + Encode(b[3..])
  }

  /** Inverse of `Encode` on its outputs. */
  function Decode(s: string): seq<Byte>
    decreases |s|
  {
    if |s| < 4 then []
    else
      var w, x, y, z := SextetValue(s[0]), SextetValue(s[1]), SextetValue(s[2]), SextetValue(s[3]);
      if s[2] == '=' then
        [w * 4 + x / 16]
      else if s[3] == '=' then
        [w * 4 + x / 16, (x % 16) * 16 + y / 4]
      else
        [w * 4 + x / 16, (x % 16) * 16 + y / 4, (y % 4) * 64 + z] + Decode(s[4..])
  }

  /** The bits of two neighbouring bytes, regrouped into sextets and back. */
  lemma Regroup(a: Byte, b: Byte)
    ensures (a / 4) * 4 + ((a % 4) * 16 + b / 16) / 16 == a
    ensures ((a % 4) * 16 + b / 16) % 16 == b / 16
  {
  }

  lemma RegroupLast(b: Byte, c: Byte)
    ensures (b / 16) * 16 + ((b % 16) * 4 + c / 64) / 4 == b
    ensures (((b % 16) * 4 + c / 64) % 4) * 64 + c % 64 == c
  {
  }

  /** A final single byte, padded with `==`, decodes back. */
  lemma DecodeOne(b: seq<Byte>)
    requires |b| == 1
    ensures Decode(Encode(b)) == b
  {
    SextetRoundTrip(b[0] / 4);
    SextetRoundTrip((b[0] % 4) * 16);
    Regroup(b[0], 0);
  }

  /** A final pair of bytes, padded with `=`, decodes back. */
  lemma DecodeTwo(b: seq<Byte>)
    requires |b| == 2
    ensures Decode(Encode(b)) == b
  {
    EncodeTwo(b);
    PairDecodes(b[0], b[1]);
    assert [b[0], b[1]] == b;
  }

  lemma EncodeTwo(b: seq<Byte>)
    requires |b| == 2
    ensures Encode(b) == [Sextet(b[0] / 4), Sextet((b[0] % 4) * 16 + b[1] / 16), Sextet((b[1] % 16) * 4), '=']
  {
  }

  /** The four characters of a final pair decode to its two bytes. */
  lemma PairDecodes(a: Byte, b: Byte)
    ensures Decode([Sextet(a / 4), Sextet((a % 4) * 16 + b / 16), Sextet((b % 16) * 4), '=']) == [a, b]
  {
    var w, x, y := Sextet(a / 4), Sextet((a % 4) * 16 + b / 16), Sextet((b % 16) * 4);
    DecodePair(w, x, y);
    PairBytes(a, b);
  }

  /** Decoding reads a group ending in one `=` as two bytes. */
  lemma DecodePair(w: char, x: char, y: char)
    requires y != '='
    ensures Decode([w, x, y, '=']) == [SextetValue(w) * 4 + SextetValue(x) / 16,
                                      (SextetValue(x) % 16) * 16 + SextetValue(y) / 4]
  {
  }

  /** The two bytes of a final pair come back from the values of its three characters. */
  lemma PairBytes(a: Byte, b: Byte)
    ensures SextetValue(Sextet(a / 4)) * 4 + SextetValue(Sextet((a % 4) * 16 + b / 16)) / 16 == a
    ensures (SextetValue(Sextet((a % 4) * 16 + b / 16)) % 16) * 16 + SextetValue(Sextet((b % 16) * 4)) / 4 == b
  {
    SextetRoundTrip(a / 4);
    SextetRoundTrip((a % 4) * 16 + b / 16);
    SextetRoundTrip((b % 16) * 4);
    Regroup(a, b);
    RegroupLast(b, 0);
  }

  /** A full group of three bytes decodes back, whatever follows it. */
  lemma {:induction false} DecodeThree(b: seq<Byte>)
    requires |b| >= 3
    ensures Decode(Encode(b)) == [b[0], b[1], b[2]] + Decode(Encode(b[3..]))
  {
    EncodeThree(b);
    GroupDecodes(b[0], b[1], b[2], Encode(b[3..]));
  }

  /** The four characters of a group decode to its three bytes, whatever follows them. */
  lemma GroupDecodes(a: Byte, b: Byte, c: Byte, rest: string)
    ensures Decode([Sextet(a / 4), Sextet((a % 4) * 16 + b / 16),
                    Sextet((b % 16) * 4 + c / 64), Sextet(c % 64)] + rest) == [a, b, c] + Decode(rest)
  {
    var g := [Sextet(a / 4), Sextet((a % 4) * 16 + b / 16), Sextet((b % 16) * 4 + c / 64), Sextet(c % 64)];
    DecodeGroup(g, rest);
    GroupBytes(a, b, c);
    assert [SextetValue(g[0]) * 4 + SextetValue(g[1]) / 16,
            (SextetValue(g[1]) % 16) * 16 + SextetValue(g[2]) / 4,
            (SextetValue(g[2]) % 4) * 64 + SextetValue(g[3])] == [a, b, c];
  }

  lemma EncodeThree(b: seq<Byte>)
    requires |b| >= 3
    ensures Encode(b) == [Sextet(b[0] / 4), Sextet((b[0] % 4) * 16 + b[1] / 16),
                          Sextet((b[1] % 16) * 4 + b[2] / 64), Sextet(b[2] % 64)] + Encode(b[3..])
  {
  }

  /** Decoding reads a group of four characters without padding as three bytes. */
  lemma DecodeGroup(g: string, rest: string)
    requires |g| == 4 && g[2] != '=' && g[3] != '='
    ensures Decode(g + rest) ==
              [SextetValue(g[0]) * 4 + SextetValue(g[1]) / 16,
               (SextetValue(g[1]) % 16) * 16 + SextetValue(g[2]) / 4,
               (SextetValue(g[2]) % 4) * 64 + SextetValue(g[3])] + Decode(rest)
  {
    var s := g + rest;
    assert s[0] == g[0] && s[1] == g[1] && s[2] == g[2] && s[3] == g[3];
    assert s[4..] == rest;
  }

  /** The three bytes of a group come back from the values of its four characters. */
  lemma GroupBytes(a: Byte, b: Byte, c: Byte)
    ensures SextetValue(Sextet(a / 4)) * 4 + SextetValue(Sextet((a % 4) * 16 + b / 16)) / 16 == a
    ensures (SextetValue(Sextet((a % 4) * 16 + b / 16)) % 16) * 16
            + SextetValue(Sextet((b % 16) * 4 + c / 64)) / 4 == b
    ensures (SextetValue(Sextet((b % 16) * 4 + c / 64)) % 4) * 64 + SextetValue(Sextet(c % 64)) == c
  {
    SextetRoundTrip(a / 4);
    SextetRoundTrip((a % 4) * 16 + b / 16);
    SextetRoundTrip((b % 16) * 4 + c / 64);
    SextetRoundTrip(c % 64);
    Regroup(a, b);
    RegroupLast(b, c);
  }

  /** Every byte sequence survives encoding: no truncation, for any length. */
  lemma {:induction false} DecodeEncode(b: seq<Byte>)
    ensures Decode(Encode(b)) == b
    decreases |b|
  {
    if |b| == 1 {
      DecodeOne(b);
    } else if |b| == 2 {
      DecodeTwo(b);
    } else if |b| >= 3 {
      DecodeThree(b);
      DecodeEncode(b[3..]);
      assert [b[0], b[1], b[2]] + b[3..] == b;
    }
  }
}
