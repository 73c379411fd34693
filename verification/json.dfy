/** JSON values as `json.loads` produces them and the text `json.dumps`
    gives them back with its default settings: ASCII-only output, `", "`
    between items and `": "` after keys. Floating-point numbers are not
    modelled. */
module Json {

  datatype Json =
    | JNull
    | JBool(b: bool)
    | JInt(n: int)
    | JString(s: string)
    | JArray(items: seq<Json>)
    | JObject(members: seq<(string, Json)>)

  /** Every character is printable ASCII, space to tilde. */
  predicate Printable(s: string)
  {
    forall i :: 0 <= i < |s| ==> ' ' <= s[i] <= '~'
  }

  lemma PrintableConcat(a: string, b: string)
    requires Printable(a) && Printable(b)
    ensures Printable(a + b)
  {
    assert forall i :: |a| <= i < |a + b| ==> (a + b)[i] == b[i - |a|];
  }

  function DecimalDigit(d: int): (c: char)
    requires 0 <= d < 10
    ensures '0' <= c <= '9' && c as int - '0' as int == d
  {
    "0123456789"[d]
  }

  function HexDigit(d: int): (c: char)
    requires 0 <= d < 16
    ensures '0' <= c <= '9' || 'a' <= c <= 'f'
  {
    "0123456789abcdef"[d]
  }

  /** Python's `'{0:04x}'.format(n)` for a 16-bit `n`. */
  function Hex4(n: int): (r: string)
    requires 0 <= n < 0x1_0000
    ensures |r| == 4 && Printable(r)
  {
    [HexDigit(n / 0x1000), HexDigit(n / 0x100 % 16), HexDigit(n / 16 % 16), HexDigit(n % 16)]
  }

  /** Decimal digits of `n`, most significant first, without leading zeros. */
  function NatToDecimal(n: nat): (r: string)
    ensures |r| >= 1 && forall i :: 0 <= i < |r| ==> '0' <= r[i] <= '9'
    ensures |r| > 1 ==> r[0] != '0'
  {
    if n < 10 then [DecimalDigit(n)] else NatToDecimal(n / 10) + [DecimalDigit(n % 10)]
  }

  /** Reference reading of a string of decimal digits. */
  function DecimalValue(s: string): nat
    requires forall i :: 0 <= i < |s| ==> '0' <= s[i] <= '9'
  {
    if |s| == 0 then 0 else DecimalValue(s[..|s| - 1]) * 10 + (s[|s| - 1] as int - '0' as int)
  }

  /** Reading back the decimal text of a number gives the number. */
  lemma {:induction false} DecimalRoundTrip(n: nat)
    ensures DecimalValue(NatToDecimal(n)) == n
  {
    if n >= 10 {
      DecimalRoundTrip(n / 10);
      var r := NatToDecimal(n);
      assert r[..|r| - 1] == NatToDecimal(n / 10);
    }
  }

  /** The escape sequence `json.dumps` writes for one character of a string
      (`ensure_ascii`): two-character escapes for quote, backslash and the
      usual control characters, `\uXXXX` for anything outside printable
      ASCII, and a surrogate pair beyond the 16-bit range. */
  function EscapeChar(c: char): (r: string)
    ensures Printable(r)
    ensures ' ' <= c <= '~' && c != '"' && c != '\\' ==> r == [c]
  {
    if c == '"' then "\\\""
    else if c == '\\' then "\\\\"
    else if c == '\n' then "\\n"
    else if c == '\r' then "\\r"
    else if c == '\t' then "\\t"
    else if c as int == 8 then "\\b"
    else if c as int == 12 then "\\f"
    else if ' ' <= c <= '~' then [c]
    else if (c as int) < 0x1_0000 then "\\u" + Hex4(c as int)
    else
      var m := c as int - 0x1_0000;
      "\\u" + Hex4(0xD800 + m / 0x400) + "\\u" + Hex4(0xDC00 + m % 0x400)
  }

  /** The escaped body of a JSON string literal. */
  function EscapeAll(s: string): (r: string)
    ensures Printable(r)
  {
    if |s| == 0 then ""
    else
      PrintableConcat(EscapeChar(s[0]), EscapeAll(s[1..]));
      EscapeChar(s[0]) + EscapeAll(s[1..])
  }

  /** A JSON string literal for `s`. */
  function Quote(s: string): (r: string)
    ensures Printable(r)
    ensures |r| >= 2 && r[0] == '"' && r[|r| - 1] == '"'
  {
    PrintableConcat("\"", EscapeAll(s));
    PrintableConcat("\"" + EscapeAll(s), "\"");
    "\"" + EscapeAll(s) + "\""
  }

  /** Strings of printable ASCII other than quote and backslash are written
      verbatim between quotes. */
  lemma {:induction false} QuotePlain(s: string)
    requires forall i :: 0 <= i < |s| ==> ' ' <= s[i] <= '~' && s[i] != '"' && s[i] != '\\'
    ensures EscapeAll(s) == s
    ensures Quote(s) == "\"" + s + "\""
  {
    if |s| > 0 {
      QuotePlain(s[1..]);
      assert s == [s[0]] + s[1..];
    }
  }

  /** `sep.join(parts)` for strings. */
  function JoinStrings(parts: seq<string>, sep: string): string
  {
    if |parts| == 0 then ""
    else if |parts| == 1 then parts[0]
    else JoinStrings(parts[..|parts| - 1], sep) + sep + parts[|parts| - 1]
  }

  lemma {:induction false} JoinStringsPrintable(parts: seq<string>, sep: string)
    requires Printable(sep) && forall i :: 0 <= i < |parts| ==> Printable(parts[i])
    ensures Printable(JoinStrings(parts, sep))
  {
    if |parts| > 1 {
      var front := JoinStrings(parts[..|parts| - 1], sep);
      JoinStringsPrintable(parts[..|parts| - 1], sep);
      PrintableConcat(front, sep);
      PrintableConcat(front + sep, parts[|parts| - 1]);
    }
  }

  /** An integer in Python's `repr` form: an optional minus sign, then decimal digits. */
  function IntText(n: int): (r: string)
    ensures Printable(r)
  {
    if n < 0 then
      PrintableConcat("-", NatToDecimal(-n));
      "-" + NatToDecimal(-n)
    else NatToDecimal(n)
  }

  /** `open + body + close`, printable when the body is. */
  function Enclose(open: char, body: string, close: char): (r: string)
    requires ' ' <= open <= '~' && ' ' <= close <= '~'
    ensures Printable(body) ==> Printable(r)
  {
    if Printable(body) then
      PrintableConcat([open], body);
      PrintableConcat([open] + body, [close]);
      [open] + body + [close]
    else [open] + body + [close]
  }

  /** One `"key": value` member of an object. */
  function Member(key: string, value: string): (r: string)
    ensures Printable(value) ==> Printable(r)
  {
    PrintableConcat(Quote(key), ": ");
    if Printable(value) then
      PrintableConcat(Quote(key) + ": ", value);
      Quote(key) + ": " + value
    else Quote(key) + ": " + value
  }

  /** `json.dumps(v)` with default settings; its output is always printable ASCII. */
  function Dumps(v: Json): (r: string)
    ensures Printable(r)
    decreases v
  {
    match v
    case JNull => "null"
    case JBool(b) => if b then "true" else "false"
    case JInt(n) => IntText(n)
    case JString(s) => Quote(s)
    case JArray(items) =>
      var parts := seq(|items|, i requires 0 <= i < |items| => Dumps(items[i]));
      JoinStringsPrintable(parts, ", ");
      Enclose('[', JoinStrings(parts, ", "), ']')
    case JObject(members) =>
      var values := seq(|members|, i requires 0 <= i < |members| => Dumps(members[i].1));
      var parts := seq(|members|, i requires 0 <= i < |members| => Member(members[i].0, values[i]));
      JoinStringsPrintable(parts, ", ");
      Enclose('{', JoinStrings(parts, ", "), '}')
  }

  /** Scalars: a plain string keeps its characters inside the quotes and an
      integer reads back as itself. */
  lemma DumpsScalars(s: string, n: nat)
    requires forall i :: 0 <= i < |s| ==> ' ' <= s[i] <= '~' && s[i] != '"' && s[i] != '\\'
    ensures Dumps(JString(s)) == "\"" + s + "\""
    ensures DecimalValue(Dumps(JInt(n))) == n
    ensures n > 0 ==> Dumps(JInt(-(n as int))) == "-" + Dumps(JInt(n))
  {
    QuotePlain(s);
    DecimalRoundTrip(n);
  }
}
