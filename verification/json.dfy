/** Parsed JSON values as the browser holds them after `JSON.parse`, with the few JavaScript
    operations the client applies to them: property lookup, truthiness, `String(v)`, the
    "buffer-like object" test and the byte conversion of `new Uint8Array(v.data)`. */
module JsonValue {
  import opened Wrappers
  import opened Seqs
  import opened Text
  import Base64

  /** Numbers are integers here; object members keep their textual order. */
  datatype Json =
    | JNull
    | JBool(b: bool)
    | JNum(n: int)
    | JStr(s: string)
    | JArr(items: seq<Json>)
    | JObj(fields: seq<(string, Json)>)

  /** `obj[key]`: the value of the first member named `key`, `None` for `undefined`. */
  function Get(fields: seq<(string, Json)>, key: string): (r: Option<Json>)
    ensures r.Some? <==> exists i :: 0 <= i < |fields| && fields[i].0 == key
    ensures r.Some? ==> exists i :: 0 <= i < |fields| && fields[i] == (key, r.value)
    decreases |fields|
  {
    if |fields| == 0 then None
    else if fields[0].0 == key then Some(fields[0].1)
    else
      var r := Get(fields[1..], key);
      assert forall i :: 1 <= i < |fields| ==> fields[i] == fields[1..][i - 1];
      r
  }

  /** The member names of an object, in order. */
  function Keys(fields: seq<(string, Json)>): (r: seq<string>)
    ensures |r| == |fields|
    ensures forall i :: 0 <= i < |fields| ==> r[i] == fields[i].0
  {
    seq(|fields|, i requires 0 <= i < |fields| => fields[i].0)
  }

  /** `obj[key] = value`: replaces the member in place, or appends it when absent. */
  function Put(fields: seq<(string, Json)>, key: string, value: Json): (r: seq<(string, Json)>)
    ensures Get(r, key) == Some(value)
    ensures forall k :: k != key ==> Get(r, k) == Get(fields, k)
    ensures forall i :: 0 <= i < |r| ==> r[i].0 == key || Get(fields, r[i].0).Some?
    decreases |fields|
  {
    if |fields| == 0 then [(key, value)]
    else if fields[0].0 == key then [(key, value)] + fields[1..]
    else
      var rest := Put(fields[1..], key, value);
      var r := [fields[0]] + rest;
      assert forall i :: 1 <= i < |r| ==> r[i] == rest[i - 1];
      assert forall i :: 1 <= i < |fields| ==> fields[i] == fields[1..][i - 1];
      r
  }

  /** JavaScript truthiness (`if (v)`, `v ? a : b`). */
  predicate Truthy(v: Json)
  {
    match v
    case JNull => false
    case JBool(b) => b
    case JNum(n) => n != 0
    case JStr(s) => s != ""
    case _ => true
  }

  /** `typeof v === 'object'` for a non-null value (objects and arrays). */
  predicate IsObjectLike(v: Json)
  {
    v.JArr? || v.JObj?
  }

  /** `v && typeof v === 'object' && v.type === 'Buffer' && Array.isArray(v.data)`. */
  predicate IsBufferLike(v: Json)
  {
    && v.JObj?
    && Get(v.fields, "type") == Some(JStr("Buffer"))
    && Get(v.fields, "data").Some?
    && Get(v.fields, "data").value.JArr?
  }

  predicate IsDigit(c: char)
  {
    '0' <= c <= '9'
  }

  predicate AllDigits(s: string)
  {
    forall i :: 0 <= i < |s| ==> IsDigit(s[i])
  }

  /** The value of a run of decimal digits. */
  function DigitsValue(ds: string): nat
    requires AllDigits(ds)
    decreases |ds|
  {
    if ds == [] then 0 else DigitsValue(ds[..|ds| - 1]) * 10 + (ds[|ds| - 1] - '0') as nat
  }

  /** Unsigned decimal text: digits with an optional fraction, at least one digit in all,
      truncated to the digits before the point. */
  function UnsignedValue(body: string): (r: Option<nat>)
    ensures r.Some? ==> '.' in body || (body != "" && AllDigits(body))
  {
    var parts := Split(body, '.');
    if |parts| > 2 then None
    else
      var whole := parts[0];
      var fraction := if |parts| == 2 then parts[1] else "";
      if !AllDigits(whole) || !AllDigits(fraction) || (whole == "" && fraction == "") then None
      else
        assert '.' !in body ==> parts == [body] by {
          if '.' !in body { SplitPiece(body, '.'); }
        }
        Some(DigitsValue(whole))
  }

  /** Trimmed, non-blank text: an optional sign before unsigned decimal text. */
  function SignedValue(t: string): Option<int>
    requires t != ""
  {
    if t[0] == '-' then
      match UnsignedValue(t[1..])
      case Some(v) => Some(-(v as int))
      case None => None
    else if t[0] == '+' then
      match UnsignedValue(t[1..])
      case Some(v) => Some(v as int)
      case None => None
    else
      match UnsignedValue(t)
      case Some(v) => Some(v as int)
      case None => None
  }

  /** `Number(s)` for decimal text, truncated toward zero: white space around, an optional
      sign, then digits with an optional fraction. Blank text is 0; `None` stands for `NaN`. */
  function DecimalToInteger(s: string): (r: Option<int>)
    ensures JsTrim(s) == "" ==> r == Some(0)
  {
    var t := JsTrim(s);
    if t == "" then Some(0) else SignedValue(t)
  }

  /** Digits have no white space at either end and no decimal point. */
  lemma DigitsPlain(digits: string)
    requires digits != "" && AllDigits(digits)
    ensures !IsJsSpace(digits[0]) && !IsJsSpace(digits[|digits| - 1])
    ensures Split(digits, '.') == [digits]
  {
    assert forall i :: 0 <= i < |digits| ==> digits[i] != '.';
    SplitPiece(digits, '.');
  }

  /** Digits read as their value. */
  lemma UnsignedOfDigits(digits: string)
    requires digits != "" && AllDigits(digits)
    ensures UnsignedValue(digits) == Some(DigitsValue(digits))
  {
    DigitsPlain(digits);
  }

  /** Digits read as their value. */
  lemma DecimalOfDigits(digits: string)
    requires digits != "" && AllDigits(digits)
    ensures DecimalToInteger(digits) == Some(DigitsValue(digits))
  {
    DigitsPlain(digits);
    StripKeeps(digits, IsJsSpace);
    UnsignedOfDigits(digits);
    assert digits[0] != '-' && digits[0] != '+' by {
      assert IsDigit(digits[0]);
    }
  }

  /** A minus sign and digits read as the negated value. */
  lemma DecimalOfNegated(t: string, digits: string)
    requires digits != "" && AllDigits(digits)
    requires |t| == |digits| + 1 && t[0] == '-' && t[1..] == digits
    ensures DecimalToInteger(t) == Some(0 - DigitsValue(digits))
  {
    assert JsTrim(t) == t by {
      DigitsPlain(digits);
      assert t[|t| - 1] == digits[|digits| - 1];
      StripKeeps(t, IsJsSpace);
    }
    SignedOfNegated(t, digits);
  }

  lemma SignedOfNegated(t: string, digits: string)
    requires digits != "" && AllDigits(digits)
    requires |t| == |digits| + 1 && t[0] == '-' && t[1..] == digits
    ensures t != "" && SignedValue(t) == Some(0 - DigitsValue(digits))
  {
    UnsignedOfDigits(digits);
  }

  /** ToUint8 of `Number(s)`: `NaN` gives 0, anything else is taken modulo 256. */
  function TextToUint8(s: string): Base64.Byte
  {
    match DecimalToInteger(s)
    case Some(n) => n % 256
    case None => 0
  }

  /** One element of `new Uint8Array(array)`: ToNumber of the element modulo 256, where a
      string is read as a number, an array as the text `String(v)` gives it, `null` as 0 and
      an object as `NaN`. */
  function ToUint8(v: Json): Base64.Byte
  {
    match v
    case JNum(n) => n % 256
    case JBool(b) => if b then 1 else 0
    case JNull => 0
    case JStr(s) => TextToUint8(s)
    case JArr(_) => TextToUint8(JsString(v))
    case JObj(_) => 0
  }

  /** The bytes of a buffer-like object, `new Uint8Array(v.data)`. */
  function BufferBytes(v: Json): (r: seq<Base64.Byte>)
    requires IsBufferLike(v)
    ensures |r| == |Get(v.fields, "data").value.items|
  {
    var items := Get(v.fields, "data").value.items;
    seq(|items|, i requires 0 <= i < |items| => ToUint8(items[i]))
  }

  /** Decimal text of an integer, as `String(n)` writes it. */
  function IntToString(n: int): (r: string)
    ensures |r| >= 1
    decreases if n < 0 then -n + 1 else n
  {
    if n < 0 then "-" + IntToString(-n)
    else if n < 10 then ['0' + n as char]
    else IntToString(n / 10) + ['0' + (n % 10) as char]
  }

  /** The decimal text of a natural number is digits that read back as it. */
  lemma {:induction false} NatTextDigits(n: nat)
    ensures AllDigits(IntToString(n)) && DigitsValue(IntToString(n)) == n
    decreases n
  {
    if n >= 10 {
      var front := IntToString(n / 10);
      NatTextDigits(n / 10);
      var text := front + ['0' + (n % 10) as char];
      assert text[..|text| - 1] == front;
    }
  }

  /** `Number(String(n))` is `n`: the decimal text of an integer reads back as it. */
  lemma IntTextReadsBack(n: int)
    ensures DecimalToInteger(IntToString(n)) == Some(n)
  {
    if n < 0 {
      var digits := IntToString(-n);
      var t := IntToString(n);
      NatTextDigits(-n);
      assert t == "-" + digits;
      assert |t| == |digits| + 1 && t[0] == '-' && t[1..] == digits;
      DecimalOfNegated(t, digits);
    } else {
      NatTextDigits(n);
      DecimalOfDigits(IntToString(n));
    }
  }

  /** A number written as text, or as a one-element array, converts to the same byte as the
      number itself. */
  lemma ToUint8NumberText(n: int)
    ensures ToUint8(JStr(IntToString(n))) == ToUint8(JNum(n))
    ensures ToUint8(JArr([JNum(n)])) == ToUint8(JNum(n))
  {
    IntTextReadsBack(n);
    assert JsString(JArr([JNum(n)])) == IntToString(n);
  }

  /** `String(v)`; array elements that are null become empty, as in `Array.prototype.join`. */
  function JsString(v: Json): string
    decreases v
  {
    match v
    case JNull => "null"
    case JBool(b) => if b then "true" else "false"
    case JNum(n) => IntToString(n)
    case JStr(s) => s
    case JArr(items) =>
      Join(seq(|items|, i requires 0 <= i < |items| =>
                 if items[i].JNull? then "" else JsString(items[i])), ',')
    case JObj(_) => "[object Object]"
  }
}
