/** The JSON text the storage layer writes with JSON.stringify and reads back
    with JSON.parse. Stringify produces the canonical text (no whitespace,
    integers in plain decimal, the escapes JSON.stringify uses); Decode accepts
    that text and the whitespace JSON allows between tokens, and rejects
    anything else, which the storage layer then treats as unparsable data.
    The main fact is the round trip Decode(Stringify(j)) == Some(j). */
module JsonText {

  import opened Wrappers
  import opened Json

  // ---------------------------------------------------------------- numbers

  predicate IsDigit(c: char) {
    '0' <= c <= '9'
  }

  predicate AllDigits(s: string) {
    forall i :: 0 <= i < |s| ==> IsDigit(s[i])
  }

  function DigitChar(d: nat): (c: char)
    requires d < 10
    ensures IsDigit(c)
  {
    ('0' as int + d) as char
  }

  function DigitValue(c: char): nat
    requires IsDigit(c)
  {
    c as int - '0' as int
  }

  /** Decimal digits of n, without leading zeros. */
  function NatToString(n: nat): (s: string)
    ensures |s| > 0 && AllDigits(s)
    ensures (s[0] == '0') == (n == 0)
    ensures n < 10 <==> |s| == 1
  {
    if n < 10 then [DigitChar(n)] else NatToString(n / 10) + [DigitChar(n % 10)]
  }

  /** String(n) for an integer n. */
  function IntToString(n: int): string {
    if n < 0 then "-" + NatToString(-n) else NatToString(n)
  }

  function DigitsValue(s: string): nat
    requires AllDigits(s)
  {
    if s == [] then 0 else DigitsValue(s[..|s| - 1]) * 10 + DigitValue(s[|s| - 1])
  }

  /** The number of leading decimal digits of s. */
  function DigitSpan(s: string): (k: nat)
    ensures k <= |s|
    ensures AllDigits(s[..k])
    ensures k < |s| ==> !IsDigit(s[k])
  {
    if s == [] || !IsDigit(s[0]) then 0
    else
      var k := 1 + DigitSpan(s[1..]);
      assert forall i :: 1 <= i < k ==> s[..k][i] == s[1..][..k - 1][i - 1];
      k
  }

  /** Leading digits of a JSON number without a leading zero, and the text
      after them. A fraction or exponent is rejected: the model's numbers are
      integers. */
  function ParseDigits(u: string): (r: Option<(nat, string)>)
    ensures r.Some? ==> |r.value.1| < |u|
  {
    var k := DigitSpan(u);
    if k == 0 then None
    else if k > 1 && u[0] == '0' then None
    else if k < |u| && (u[k] == '.' || u[k] == 'e' || u[k] == 'E') then None
    else Some((DigitsValue(u[..k]), u[k..]))
  }

  /** A JSON number token that denotes an integer: an optional minus sign and
      the digits. */
  function ParseNumber(t: string): (r: Option<(Json, string)>)
    ensures r.Some? ==> |r.value.1| < |t|
  {
    if t != [] && t[0] == '-' then
      match ParseDigits(t[1..])
      case None => None
      case Some((n, rest)) => Some((JNum(-(n as int)), rest))
    else
      match ParseDigits(t)
      case None => None
      case Some((n, rest)) => Some((JNum(n), rest))
  }

  // ---------------------------------------------------------------- strings

  predicate IsHex(c: char) {
    '0' <= c <= '9' || 'a' <= c <= 'f' || 'A' <= c <= 'F'
  }

  function HexValue(c: char): (v: nat)
    requires IsHex(c)
    ensures v < 16
  {
    if '0' <= c <= '9' then c as int - '0' as int
    else if 'a' <= c <= 'f' then c as int - 'a' as int + 10
    else c as int - 'A' as int + 10
  }

  /** Lower-case hexadecimal digit, as JSON.stringify writes it. */
  function HexDigit(d: nat): (c: char)
    requires d < 16
    ensures IsHex(c) && HexValue(c) == d
  {
    if d < 10 then ('0' as int + d) as char else ('a' as int + d - 10) as char
  }

  /** How JSON.stringify writes one character inside a string literal. */
  function EscapeChar(c: char): string {
    if c == '"' then ['\\', '"']
    else if c == '\\' then ['\\', '\\']
    else if c == '\U{8}' then ['\\', 'b']
    else if c == '\U{C}' then ['\\', 'f']
    else if c == '\n' then ['\\', 'n']
    else if c == '\r' then ['\\', 'r']
    else if c == '\t' then ['\\', 't']
    else if c < ' ' then ['\\', 'u', '0', '0', HexDigit(c as int / 16), HexDigit(c as int % 16)]
    else [c]
  }

  function EscapeAll(s: string): string {
    if s == [] then [] else EscapeChar(s[0]) + EscapeAll(s[1..])
  }

  /** A JSON string literal. */
  function Quote(s: string): string {
    "\"" + EscapeAll(s) + "\""
  }

  /** The character an escape sequence denotes; s starts after the backslash.
      A \u escape naming a UTF-16 surrogate is rejected. */
  function Unescape(s: string): (r: Option<(char, string)>)
    ensures r.Some? ==> |r.value.1| < |s|
  {
    if s == [] then None
    else if s[0] == '"' then Some(('"', s[1..]))
    else if s[0] == '\\' then Some(('\\', s[1..]))
    else if s[0] == '/' then Some(('/', s[1..]))
    else if s[0] == 'b' then Some(('\U{8}', s[1..]))
    else if s[0] == 'f' then Some(('\U{C}', s[1..]))
    else if s[0] == 'n' then Some(('\n', s[1..]))
    else if s[0] == 'r' then Some(('\r', s[1..]))
    else if s[0] == 't' then Some(('\t', s[1..]))
    else if s[0] == 'u' && |s| >= 5 && IsHex(s[1]) && IsHex(s[2]) && IsHex(s[3]) && IsHex(s[4]) then
      var v := HexValue(s[1]) * 4096 + HexValue(s[2]) * 256 + HexValue(s[3]) * 16 + HexValue(s[4]);
      if 0xD800 <= v <= 0xDFFF then None else Some((v as char, s[5..]))
    else None
  }

  /** The body of a string literal; s starts after the opening quote. Returns
      the decoded characters and the text after the closing quote. */
  function ParseStringBody(s: string): (r: Option<(string, string)>)
    ensures r.Some? ==> |r.value.1| < |s|
  {
    if s == [] then None
    else if s[0] == '"' then Some(([], s[1..]))
    else if s[0] == '\\' then
      match Unescape(s[1..])
      case None => None
      case Some((c, rest)) =>
        match ParseStringBody(rest)
        case None => None
        case Some((str, tail)) => Some(([c] + str, tail))
    else if s[0] < ' ' then None
    else
      match ParseStringBody(s[1..])
      case None => None
      case Some((str, tail)) => Some(([s[0]] + str, tail))
  }

  // ---------------------------------------------------------------- values

  predicate IsWs(c: char) {
    c == ' ' || c == '\t' || c == '\n' || c == '\r'
  }

  function SkipWs(s: string): (r: string)
    ensures |r| <= |s|
    ensures r == [] || !IsWs(r[0])
    ensures s != [] && !IsWs(s[0]) ==> r == s
  {
    if s != [] && IsWs(s[0]) then SkipWs(s[1..]) else s
  }

  function Stringify(j: Json): string {
    match j
    case JNull => "null"
    case JBool(b) => if b then "true" else "false"
    case JNum(n) => IntToString(n)
    case JStr(s) => Quote(s)
    case JArr(items) => "[" + StringifyItems(items) + "]"
    case JObj(fields) => "{" + StringifyMembers(fields) + "}"
  }

  function StringifyItems(items: seq<Json>): string {
    if items == [] then ""
    else if |items| == 1 then Stringify(items[0])
    else Stringify(items[0]) + "," + StringifyItems(items[1..])
  }

  function StringifyMembers(fields: seq<(string, Json)>): string {
    if fields == [] then ""
    else
      var (name, v) := fields[0];
      assert v < fields[0];
      var member := Quote(name) + ":" + Stringify(v);
      if |fields| == 1 then member else member + "," + StringifyMembers(fields[1..])
  }

  function ParseLiteral(t: string, word: string, v: Json): (r: Option<(Json, string)>)
    requires word != []
    ensures r.Some? ==> |r.value.1| < |t|
  {
    if |word| <= |t| && t[..|word|] == word then Some((v, t[|word|..])) else None
  }

  /** One JSON value after optional whitespace; returns it and the rest. */
  function ParseValue(s: string): (r: Option<(Json, string)>)
    decreases |s|, 2
    ensures r.Some? ==> |r.value.1| < |s|
  {
    ParseToken(SkipWs(s))
  }

  /** One JSON value starting right at the first character of t. */
  function ParseToken(t: string): (r: Option<(Json, string)>)
    decreases |t|, 1
    ensures r.Some? ==> |r.value.1| < |t|
  {
    if t == [] then None
    else if t[0] == 'n' then ParseLiteral(t, "null", JNull)
    else if t[0] == 't' then ParseLiteral(t, "true", JBool(true))
    else if t[0] == 'f' then ParseLiteral(t, "false", JBool(false))
    else if t[0] == '"' then ParseString(t[1..])
    else if t[0] == '[' then ParseArray(t[1..])
    else if t[0] == '{' then ParseObject(t[1..])
    else if t[0] == '-' || IsDigit(t[0]) then ParseNumber(t)
    else None
  }

  /** A string value; s starts after the opening quote. */
  function ParseString(s: string): (r: Option<(Json, string)>)
    ensures r.Some? ==> |r.value.1| < |s|
  {
    match ParseStringBody(s)
    case None => None
    case Some((str, rest)) => Some((JStr(str), rest))
  }

  /** An array value; s starts after the opening bracket. */
  function ParseArray(s: string): (r: Option<(Json, string)>)
    decreases |s|, 5
    ensures r.Some? ==> |r.value.1| < |s|
  {
    var u := SkipWs(s);
    if u != [] && u[0] == ']' then Some((JArr([]), u[1..]))
    else
      match ParseElements(s)
      case None => None
      case Some((items, rest)) => Some((JArr(items), rest))
  }

  /** An object value; s starts after the opening brace. */
  function ParseObject(s: string): (r: Option<(Json, string)>)
    decreases |s|, 5
    ensures r.Some? ==> |r.value.1| < |s|
  {
    var u := SkipWs(s);
    if u != [] && u[0] == '}' then Some((JObj([]), u[1..]))
    else
      match ParseMembers(s)
      case None => None
      case Some((fields, rest)) => Some((JObj(fields), rest))
  }

  /** The elements of a non-empty array and the text after its closing bracket. */
  function ParseElements(s: string): (r: Option<(seq<Json>, string)>)
    decreases |s|, 3
    ensures r.Some? ==> |r.value.1| < |s|
  {
    match ParseValue(s)
    case None => None
    case Some((v, r1)) =>
      var t := SkipWs(r1);
      if t != [] && t[0] == ',' then
        match ParseElements(t[1..])
        case None => None
        case Some((vs, r2)) => Some(([v] + vs, r2))
      else if t != [] && t[0] == ']' then Some(([v], t[1..]))
      else None
  }

  /** The members of a non-empty object and the text after its closing brace. */
  function ParseMembers(s: string): (r: Option<(seq<(string, Json)>, string)>)
    decreases |s|, 4
    ensures r.Some? ==> |r.value.1| < |s|
  {
    match ParseMember(s)
    case None => None
    case Some((m, r1)) =>
      var w := SkipWs(r1);
      if w != [] && w[0] == ',' then
        match ParseMembers(w[1..])
        case None => None
        case Some((fs, r2)) => Some(([m] + fs, r2))
      else if w != [] && w[0] == '}' then Some(([m], w[1..]))
      else None
  }

  /** One `"name": value` member of an object. */
  function ParseMember(s: string): (r: Option<((string, Json), string)>)
    decreases |s|, 3
    ensures r.Some? ==> |r.value.1| < |s|
  {
    var t := SkipWs(s);
    if t == [] || t[0] != '"' then None
    else
      match ParseStringBody(t[1..])
      case None => None
      case Some((name, r1)) =>
        var u := SkipWs(r1);
        if u == [] || u[0] != ':' then None
        else
          match ParseValue(u[1..])
          case None => None
          case Some((v, r2)) => Some(((name, v), r2))
  }

  /** JSON.parse: one value, optionally surrounded by whitespace, and nothing
      else. None stands for the SyntaxError it throws. */
  function Decode(s: string): Option<Json> {
    match ParseValue(s)
    case None => None
    case Some((j, rest)) => if SkipWs(rest) == [] then Some(j) else None
  }

  // ---------------------------------------------------------------- round trip

  /** What may follow a value inside the canonical text: nothing, a comma, or
      the bracket or brace that closes the enclosing array or object. */
  predicate Delimited(rest: string) {
    rest == [] || rest[0] == ',' || rest[0] == ']' || rest[0] == '}'
  }

  /** The characters a JSON value can start with. */
  predicate ValueStart(c: char) {
    c == 'n' || c == 't' || c == 'f' || c == '"' || c == '[' || c == '{' || c == '-' || IsDigit(c)
  }

  lemma {:induction false} NatRoundTrip(n: nat)
    ensures DigitsValue(NatToString(n)) == n
  {
    if n >= 10 {
      var s := NatToString(n);
      assert s[..|s| - 1] == NatToString(n / 10);
      NatRoundTrip(n / 10);
    }
  }

  lemma {:induction false} DigitSpanOfDigits(d: string, rest: string)
    requires AllDigits(d)
    requires rest == [] || !IsDigit(rest[0])
    ensures DigitSpan(d + rest) == |d|
  {
    if d != [] {
      assert (d + rest)[1..] == d[1..] + rest;
      DigitSpanOfDigits(d[1..], rest);
    }
  }

  lemma {:induction false} DigitsRoundTrip(m: nat, rest: string)
    requires Delimited(rest)
    ensures ParseDigits(NatToString(m) + rest) == Some((m, rest))
  {
    var d := NatToString(m);
    var u := d + rest;
    DigitSpanOfDigits(d, rest);
    assert u[..|d|] == d && u[|d|..] == rest;
    assert u[0] == d[0];
    NatRoundTrip(m);
  }

  lemma {:induction false} NumberRoundTrip(n: int, rest: string)
    requires Delimited(rest)
    ensures ParseNumber(IntToString(n) + rest) == Some((JNum(n), rest))
  {
    if n < 0 {
      NegativeRoundTrip(-n, rest);
    } else {
      NonNegativeRoundTrip(n, rest);
    }
  }

  lemma {:induction false} NonNegativeRoundTrip(m: nat, rest: string)
    requires Delimited(rest)
    ensures ParseNumber(NatToString(m) + rest) == Some((JNum(m), rest))
  {
    var d := NatToString(m);
    assert (d + rest)[0] == d[0];
    DigitsRoundTrip(m, rest);
  }

  lemma {:induction false} NegativeRoundTrip(m: nat, rest: string)
    requires m > 0 && Delimited(rest)
    ensures ParseNumber("-" + NatToString(m) + rest) == Some((JNum(-(m as int)), rest))
  {
    var u := NatToString(m) + rest;
    var t := "-" + NatToString(m) + rest;
    assert t == "-" + u && t[1..] == u;
    DigitsRoundTrip(m, rest);
  }

  /** Decoding an escaped character yields the character and continues after it. */
  lemma {:induction false} EscapeCharStep(c: char, u: string)
    ensures ParseStringBody(EscapeChar(c) + u) ==
      match ParseStringBody(u)
      case None => None
      case Some((str, tail)) => Some(([c] + str, tail))
  {
    if |EscapeChar(c)| == 2 {
      ShortEscapeStep(c, u);
    } else if |EscapeChar(c)| == 6 {
      UnicodeEscapeStep(c, u);
    } else {
      assert EscapeChar(c) + u == [c] + u;
      assert ([c] + u)[1..] == u;
    }
  }

  lemma {:induction false} ShortEscapeStep(c: char, u: string)
    requires |EscapeChar(c)| == 2
    ensures ParseStringBody(EscapeChar(c) + u) ==
      match ParseStringBody(u)
      case None => None
      case Some((str, tail)) => Some(([c] + str, tail))
  {
    var s := EscapeChar(c) + u;
    assert s[0] == '\\' && s[1..] == [s[1]] + u;
    assert s[1..][1..] == u;
  }

  lemma {:induction false} UnicodeEscapeStep(c: char, u: string)
    requires |EscapeChar(c)| == 6
    ensures ParseStringBody(EscapeChar(c) + u) ==
      match ParseStringBody(u)
      case None => None
      case Some((str, tail)) => Some(([c] + str, tail))
  {
    var s := EscapeChar(c) + u;
    var h1, h2 := HexDigit(c as int / 16), HexDigit(c as int % 16);
    assert s[0] == '\\' && s[1..] == ['u', '0', '0', h1, h2] + u;
    assert s[1..][5..] == u;
    assert HexValue(h1) * 16 + HexValue(h2) == c as int;
  }

  lemma {:induction false} EscapeAllRoundTrip(str: string, rest: string)
    ensures ParseStringBody(EscapeAll(str) + "\"" + rest) == Some((str, rest))
  {
    if str == [] {
      assert EscapeAll(str) + "\"" + rest == "\"" + rest;
    } else {
      var tail := EscapeAll(str[1..]) + "\"" + rest;
      assert EscapeAll(str) + "\"" + rest == EscapeChar(str[0]) + tail;
      EscapeCharStep(str[0], tail);
      EscapeAllRoundTrip(str[1..], rest);
      HeadTail(str);
    }
  }

  lemma {:induction false} StringifyStart(j: Json)
    ensures Stringify(j) != [] && ValueStart(Stringify(j)[0])
  {
    match j
    case JNum(n) =>
      assert IsDigit(NatToString(if n < 0 then -n else n)[0]);
    case _ =>
  }

  lemma {:induction false} ValueRoundTrip(j: Json, rest: string)
    requires Delimited(rest)
    ensures ParseValue(Stringify(j) + rest) == Some((j, rest))
    decreases j, 3
  {
    var s := Stringify(j) + rest;
    StringifyStart(j);
    assert s[0] == Stringify(j)[0];
    assert SkipWs(s) == s;
    TokenRoundTrip(j, rest);
  }

  lemma {:induction false} TokenRoundTrip(j: Json, rest: string)
    requires Delimited(rest)
    ensures ParseToken(Stringify(j) + rest) == Some((j, rest))
    decreases j, 2
  {
    match j
    case JNull =>
      LiteralRoundTrip(j, rest);
    case JBool(_) =>
      LiteralRoundTrip(j, rest);
    case JNum(n) =>
      NumberToken(n, rest);
    case JStr(str) =>
      StringRoundTrip(str, rest);
    case JArr(items) =>
      ArrayRoundTrip(items, rest);
      ArrayToken(StringifyItems(items) + "]" + rest, j, rest);
      ArrayText(items, rest);
    case JObj(fields) =>
      ObjectRoundTrip(fields, rest);
      ObjectToken(StringifyMembers(fields) + "}" + rest, j, rest);
      ObjectText(fields, rest);
  }

  /** A token starting with `open` is parsed by `parse` on what follows it. */
  lemma {:induction false} ArrayToken(body: string, v: Json, rest: string)
    requires ParseArray(body) == Some((v, rest))
    ensures ParseToken("[" + body) == Some((v, rest))
  {
    var t := "[" + body;
    assert t[0] == '[' && t[1..] == body;
  }

  lemma {:induction false} ObjectToken(body: string, v: Json, rest: string)
    requires ParseObject(body) == Some((v, rest))
    ensures ParseToken("{" + body) == Some((v, rest))
  {
    var t := "{" + body;
    assert t[0] == '{' && t[1..] == body;
  }

  lemma {:induction false} ArrayText(items: seq<Json>, rest: string)
    ensures Stringify(JArr(items)) + rest == "[" + (StringifyItems(items) + "]" + rest)
  {
  }

  lemma {:induction false} ObjectText(fields: seq<(string, Json)>, rest: string)
    ensures Stringify(JObj(fields)) + rest == "{" + (StringifyMembers(fields) + "}" + rest)
  {
  }

  lemma {:induction false} LiteralRoundTrip(j: Json, rest: string)
    requires j.JNull? || j.JBool?
    ensures ParseToken(Stringify(j) + rest) == Some((j, rest))
  {
    var s := Stringify(j) + rest;
    if j.JNull? {
      assert s[..4] == "null" && s[4..] == rest;
    } else if j.b {
      assert s[..4] == "true" && s[4..] == rest;
    } else {
      assert s[..5] == "false" && s[5..] == rest;
    }
  }

  lemma {:induction false} NumberToken(n: int, rest: string)
    requires Delimited(rest)
    ensures ParseToken(IntToString(n) + rest) == Some((JNum(n), rest))
  {
    StringifyStart(JNum(n));
    NumberRoundTrip(n, rest);
  }

  lemma {:induction false} StringRoundTrip(str: string, rest: string)
    ensures ParseToken(Quote(str) + rest) == Some((JStr(str), rest))
  {
    var s := Quote(str) + rest;
    assert s == "\"" + (EscapeAll(str) + "\"" + rest);
    EscapeAllRoundTrip(str, rest);
  }

  lemma {:induction false} ArrayRoundTrip(items: seq<Json>, rest: string)
    requires Delimited(rest)
    ensures ParseArray(StringifyItems(items) + "]" + rest) == Some((JArr(items), rest))
    decreases items, 1
  {
    var body := StringifyItems(items) + "]" + rest;
    if items == [] {
      assert body == "]" + rest && body[1..] == rest;
    } else {
      StringifyStart(items[0]);
      assert body[0] == Stringify(items[0])[0];
      assert SkipWs(body) == body;
      ItemsRoundTrip(items, rest);
    }
  }

  lemma {:induction false} ObjectRoundTrip(fields: seq<(string, Json)>, rest: string)
    requires Delimited(rest)
    ensures ParseObject(StringifyMembers(fields) + "}" + rest) == Some((JObj(fields), rest))
    decreases fields, 1
  {
    var body := StringifyMembers(fields) + "}" + rest;
    if fields == [] {
      assert body == "}" + rest && body[1..] == rest;
    } else {
      assert body[0] == '"';
      assert SkipWs(body) == body;
      MembersRoundTrip(fields, rest);
    }
  }

  lemma {:induction false} ItemsRoundTrip(items: seq<Json>, rest: string)
    requires items != []
    ensures ParseElements(StringifyItems(items) + "]" + rest) == Some((items, rest))
    decreases items, 0
  {
    var s := StringifyItems(items) + "]" + rest;
    if |items| == 1 {
      ItemsTextOne(items, rest);
      ValueRoundTrip(items[0], "]" + rest);
      ElementsLast(s, items[0], rest);
      Singleton(items);
    } else {
      var tail := StringifyItems(items[1..]) + "]" + rest;
      ItemsTextMore(items, rest);
      ValueRoundTrip(items[0], "," + tail);
      ItemsRoundTrip(items[1..], rest);
      ElementsMore(s, items[0], tail, items[1..], rest);
      HeadTail(items);
    }
  }

  /** The canonical text of a one-item array's item. */
  lemma {:induction false} ItemsTextOne(items: seq<Json>, rest: string)
    requires |items| == 1
    ensures StringifyItems(items) + "]" + rest == Stringify(items[0]) + ("]" + rest)
  {
  }

  /** The canonical text of an array's items, split at the first item. */
  lemma {:induction false} ItemsTextMore(items: seq<Json>, rest: string)
    requires |items| > 1
    ensures StringifyItems(items) + "]" + rest == Stringify(items[0]) + ("," + (StringifyItems(items[1..]) + "]" + rest))
  {
    var m, more := Stringify(items[0]), StringifyItems(items[1..]);
    assert StringifyItems(items) == m + "," + more;
    Assoc5(m, ",", more, "]", rest);
  }

  lemma {:induction false} ElementsLast(s: string, v: Json, rest: string)
    requires ParseValue(s) == Some((v, "]" + rest))
    ensures ParseElements(s) == Some(([v], rest))
  {
    assert ("]" + rest)[1..] == rest;
  }

  lemma {:induction false} ElementsMore(s: string, v: Json, tail: string, vs: seq<Json>, rest: string)
    requires ParseValue(s) == Some((v, "," + tail))
    requires ParseElements(tail) == Some((vs, rest))
    ensures ParseElements(s) == Some(([v] + vs, rest))
  {
    assert ("," + tail)[1..] == tail;
  }

  lemma {:induction false} MembersRoundTrip(fields: seq<(string, Json)>, rest: string)
    requires fields != []
    ensures ParseMembers(StringifyMembers(fields) + "}" + rest) == Some((fields, rest))
    decreases fields, 0
  {
    var name, v := fields[0].0, fields[0].1;
    assert v < fields[0];
    var s := StringifyMembers(fields) + "}" + rest;
    if |fields| == 1 {
      MembersTextOne(fields, rest);
      MemberRoundTrip(name, v, "}" + rest);
      MembersLast(s, fields[0], rest);
      Singleton(fields);
    } else {
      var tail := StringifyMembers(fields[1..]) + "}" + rest;
      MembersTextMore(fields, rest);
      MemberRoundTrip(name, v, "," + tail);
      MembersRoundTrip(fields[1..], rest);
      MembersMore(s, fields[0], tail, fields[1..], rest);
      HeadTail(fields);
    }
  }

  lemma {:induction false} Singleton<T>(xs: seq<T>)
    requires |xs| == 1
    ensures [xs[0]] == xs
  {
  }

  lemma {:induction false} HeadTail<T>(xs: seq<T>)
    requires xs != []
    ensures [xs[0]] + xs[1..] == xs
  {
  }

  /** The canonical text of a one-member object's member. */
  lemma {:induction false} MembersTextOne(fields: seq<(string, Json)>, rest: string)
    requires |fields| == 1
    ensures StringifyMembers(fields) + "}" + rest == Quote(fields[0].0) + ":" + Stringify(fields[0].1) + ("}" + rest)
  {
  }

  /** The canonical text of an object's members, split at the first member. */
  lemma {:induction false} MembersTextMore(fields: seq<(string, Json)>, rest: string)
    requires |fields| > 1
    ensures StringifyMembers(fields) + "}" + rest ==
      Quote(fields[0].0) + ":" + Stringify(fields[0].1) + ("," + (StringifyMembers(fields[1..]) + "}" + rest))
  {
    var m, more := Quote(fields[0].0) + ":" + Stringify(fields[0].1), StringifyMembers(fields[1..]);
    assert StringifyMembers(fields) == m + "," + more;
    Assoc5(m, ",", more, "}", rest);
  }

  lemma {:induction false} Assoc5(a: string, b: string, c: string, d: string, e: string)
    ensures a + b + c + d + e == a + (b + (c + d + e))
  {
  }

  lemma {:induction false} MembersLast(s: string, m: (string, Json), rest: string)
    requires ParseMember(s) == Some((m, "}" + rest))
    ensures ParseMembers(s) == Some(([m], rest))
  {
    assert ("}" + rest)[1..] == rest;
  }

  lemma {:induction false} MembersMore(s: string, m: (string, Json), tail: string, fs: seq<(string, Json)>, rest: string)
    requires ParseMember(s) == Some((m, "," + tail))
    requires ParseMembers(tail) == Some((fs, rest))
    ensures ParseMembers(s) == Some(([m] + fs, rest))
  {
    assert ("," + tail)[1..] == tail;
  }

  lemma {:induction false} MemberRoundTrip(name: string, v: Json, x: string)
    requires Delimited(x)
    ensures ParseMember(Quote(name) + ":" + Stringify(v) + x) == Some(((name, v), x))
    decreases v, 4
  {
    var y := Stringify(v) + x;
    QuoteColon(name, Stringify(v), x);
    EscapeAllRoundTrip(name, ":" + y);
    ValueRoundTrip(v, x);
    MemberStep(Quote(name) + ":" + Stringify(v) + x, name, y, v, x);
  }

  /** A member's text, seen from its opening quote. */
  lemma {:induction false} QuoteColon(name: string, b: string, x: string)
    ensures var s := Quote(name) + ":" + b + x;
      s != [] && s[0] == '"' && s[1..] == EscapeAll(name) + "\"" + (":" + (b + x))
  {
    var s := Quote(name) + ":" + b + x;
    assert s == "\"" + (EscapeAll(name) + "\"" + (":" + (b + x)));
  }

  lemma {:induction false} MemberStep(s: string, name: string, y: string, v: Json, x: string)
    requires s != [] && s[0] == '"'
    requires ParseStringBody(s[1..]) == Some((name, ":" + y))
    requires ParseValue(y) == Some((v, x))
    ensures ParseMember(s) == Some(((name, v), x))
  {
    assert (":" + y)[1..] == y;
  }

  /** JSON.parse(JSON.stringify(j)) gives back j. */
  lemma {:induction false} DecodeStringify(j: Json)
    ensures Decode(Stringify(j)) == Some(j)
  {
    ValueRoundTrip(j, []);
    assert Stringify(j) + [] == Stringify(j);
  }
}
