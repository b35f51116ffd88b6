/**
 serde_json's compact printer and its parser (RFC 8259), on values without floating-point
 numbers. The printer is the one behind both `to_vec` and `to_string`.
 */
module JsonText {
  import opened Wrappers
  import opened Bytes
  import opened Json
  import Radix

  // ----- printing -----

  const BACKSPACE: char := 8 as char
  const TAB: char := 9 as char
  const LINE_FEED: char := 10 as char
  const FORM_FEED: char := 12 as char
  const RETURN: char := 13 as char

  function EscapeChar(c: char): string {
    if c == '\"' then "\\\""
    else if c == '\\' then "\\\\"
    else if c == BACKSPACE then "\\b"
    else if c == TAB then "\\t"
    else if c == LINE_FEED then "\\n"
    else if c == FORM_FEED then "\\f"
    else if c == RETURN then "\\r"
    else if c < ' ' then "\\u00" + [HexDigit(c as int / 16), HexDigit(c as int % 16)]
    else [c]
  }

  function Escape(s: string): string {
    if s == "" then "" else EscapeChar(s[0]) + Escape(s[1..])
  }

  function PrintString(s: string): string {
    "\"" + Escape(s) + "\""
  }

  function DecimalDigit(d: nat): char
    requires d < 10
  {
    ('0' as int + d) as char
  }

  function Decimal(ds: seq<nat>): string
    requires Radix.IsNumeral(ds, 10)
  {
    seq(|ds|, i requires 0 <= i < |ds| => DecimalDigit(ds[i]))
  }

  function PrintNat(n: nat): string {
    if n == 0 then "0" else Decimal(Radix.Expand(n, 10))
  }

  function PrintInt(n: int): string {
    if n < 0 then "-" + PrintNat(-n) else PrintNat(n)
  }

  function Print(v: Json): string
    decreases v, 0
  {
    match v
    case Null => "null"
    case Bool(b) => if b then "true" else "false"
    case Num(n) => PrintInt(n)
    case Str(s) => PrintString(s)
    case Arr(items) => if items == [] then "[]" else "[" + PrintItems(items)
    case Obj(ms) => if ms == [] then "{}" else "{" + PrintMembers(ms)
  }

  /** The items and the closing bracket. */
  function PrintItems(items: seq<Json>): string
    requires items != []
    decreases items, 1
  {
    Print(items[0]) + if |items| == 1 then "]" else "," + PrintItems(items[1..])
  }

  /** The members and the closing brace. */
  function PrintMembers(ms: Members): string
    requires ms != []
    decreases ms, 1
  {
    PrintString(ms[0].key) + ":" + Print(ms[0].value) + if |ms| == 1 then "}" else "," + PrintMembers(ms[1..])
  }

  // ----- parsing -----

  function SkipSpace(t: string): (r: string)
    ensures |r| <= |t|
  {
    if t != "" && (t[0] == ' ' || t[0] == TAB || t[0] == LINE_FEED || t[0] == RETURN) then SkipSpace(t[1..]) else t
  }

  function ParseHex4(t: string): (r: Option<(nat, string)>)
    ensures r.Some? ==> r.value.0 < 0x1_0000 && |r.value.1| < |t|
  {
    if |t| < 4 then None
    else
      var a :- HexValue(t[0]);
      var b :- HexValue(t[1]);
      var c :- HexValue(t[2]);
      var d :- HexValue(t[3]);
      Some((((a * 16 + b) * 16 + c) * 16 + d, t[4..]))
  }

  /** What follows `\u`: a scalar value or a surrogate pair; a lone surrogate is refused. */
  function ParseUnicodeEscape(t: string): (r: Option<(char, string)>)
    ensures r.Some? ==> |r.value.1| < |t|
  {
    var (n, u) :- ParseHex4(t);
    if 0xDC00 <= n < 0xE000 then None
    else if n < 0xD800 || 0xE000 <= n then Some((n as char, u))
    else if |u| < 2 || u[..2] != "\\u" then None
    else
      var (m, w) :- ParseHex4(u[2..]);
      if 0xDC00 <= m < 0xE000 then Some(((0x1_0000 + (n - 0xD800) * 0x400 + (m - 0xDC00)) as char, w)) else None
  }

  /** What follows a backslash inside a string. */
  function ParseEscape(t: string): (r: Option<(char, string)>)
    ensures r.Some? ==> |r.value.1| < |t|
  {
    if t == "" then None
    else
      match t[0]
      case '\"' => Some(('\"', t[1..]))
      case '\\' => Some(('\\', t[1..]))
      case '/' => Some(('/', t[1..]))
      case 'b' => Some((BACKSPACE, t[1..]))
      case 'f' => Some((FORM_FEED, t[1..]))
      case 'n' => Some((LINE_FEED, t[1..]))
      case 'r' => Some((RETURN, t[1..]))
      case 't' => Some((TAB, t[1..]))
      case 'u' => ParseUnicodeEscape(t[1..])
      case _ => None
  }

  /** The rest of a string after its opening quote; raw control characters are refused. */
  function ParseString(t: string): (r: Option<(string, string)>)
    ensures r.Some? ==> |r.value.1| < |t|
    decreases |t|
  {
    if t == "" then None
    else if t[0] == '\"' then Some(("", t[1..]))
    else if t[0] == '\\' then
      var (c, u) :- ParseEscape(t[1..]);
      var (s, w) :- ParseString(u);
      Some(([c] + s, w))
    else if t[0] < ' ' then None
    else
      var (s, w) :- ParseString(t[1..]);
      Some(([t[0]] + s, w))
  }

  predicate IsDigit(c: char) {
    '0' <= c <= '9'
  }

  /** The longest run of decimal digits and what follows it. */
  function TakeDigits(t: string): (r: (seq<nat>, string))
    ensures |r.0| + |r.1| == |t|
    ensures Radix.IsNumeral(r.0, 10)
  {
    if t == "" || !IsDigit(t[0]) then ([], t)
    else
      var (ds, u) := TakeDigits(t[1..]);
      ([t[0] as int - '0' as int] + ds, u)
  }

  /** An unsigned integer: digits without a leading zero, not continued as a float. */
  function ParseNat(t: string): (r: Option<(nat, string)>)
    ensures r.Some? ==> |r.value.1| < |t|
  {
    var (ds, u) := TakeDigits(t);
    if ds == [] || (|ds| > 1 && ds[0] == 0) then None
    else if u != "" && (u[0] == '.' || u[0] == 'e' || u[0] == 'E') then None
    else Some((Radix.Value(ds, 10), u))
  }

  /** An integer in range; serde_json reads `-0` and larger integers as floats. */
  function ParseInt(t: string): (r: Option<(JsonInt, string)>)
    ensures r.Some? ==> |r.value.1| < |t|
  {
    if t != "" && t[0] == '-' then
      var (n, u) :- ParseNat(t[1..]);
      var k := -(n as int);
      if -0x8000_0000_0000_0000 <= k < 0 then Some((k, u)) else None
    else
      var (n, u) :- ParseNat(t);
      if n < 0x1_0000_0000_0000_0000 then Some((n, u)) else None
  }

  function ParseWord(t: string, word: string, v: Json): (r: Option<(Json, string)>)
    requires word != ""
    ensures r.Some? ==> r.value.0 == v && |r.value.1| < |t|
  {
    if word <= t then Some((v, t[|word|..])) else None
  }

  function ParseValue(t: string): (r: Option<(Json, string)>)
    ensures r.Some? ==> |r.value.1| < |t|
    decreases |t|, 0
  {
    var u := SkipSpace(t);
    if u == "" then None
    else if u[0] == 'n' then ParseWord(u, "null", Null)
    else if u[0] == 't' then ParseWord(u, "true", Bool(true))
    else if u[0] == 'f' then ParseWord(u, "false", Bool(false))
    else if u[0] == '\"' then
      var (s, w) :- ParseString(u[1..]);
      Some((Str(s), w))
    else if u[0] == '[' then
      var w := SkipSpace(u[1..]);
      if w != "" && w[0] == ']' then Some((Arr([]), w[1..])) else ParseItems(w, [])
    else if u[0] == '{' then
      var w := SkipSpace(u[1..]);
      if w != "" && w[0] == '}' then Some((Obj([]), w[1..])) else ParseMembers(w, [])
    else
      var (n, w) :- ParseInt(u);
      Some((Num(n), w))
  }

  /** The next items of an array, given those already read. */
  function ParseItems(t: string, done: seq<Json>): (r: Option<(Json, string)>)
    ensures r.Some? ==> |r.value.1| < |t|
    decreases |t|, 1
  {
    var (v, u) :- ParseValue(t);
    var w := SkipSpace(u);
    var items := done + [v];
    if w == "" then None
    else if w[0] == ',' then ParseItems(w[1..], items)
    else if w[0] == ']' then Some((Arr(items), w[1..]))
    else None
  }

  /** One key, its colon and its value. */
  function ParseMember(t: string): (r: Option<(Member, string)>)
    ensures r.Some? ==> |r.value.1| < |t|
    decreases |t|, 1
  {
    var u := SkipSpace(t);
    if u == "" || u[0] != '\"' then None
    else
      var (key, w) :- ParseString(u[1..]);
      var x := SkipSpace(w);
      if x == "" || x[0] != ':' then None
      else
        var (v, y) :- ParseValue(x[1..]);
        Some((Member(key, v), y))
  }

  /** The next members of an object; each is inserted into the map read so far. */
  function ParseMembers(t: string, done: Members): (r: Option<(Json, string)>)
    ensures r.Some? ==> |r.value.1| < |t|
    decreases |t|, 2
  {
    var (m, u) :- ParseMember(t);
    var w := SkipSpace(u);
    var ms := Insert(done, m.key, m.value);
    if w == "" then None
    else if w[0] == ',' then ParseMembers(w[1..], ms)
    else if w[0] == '}' then Some((Obj(ms), w[1..]))
    else None
  }

  lemma {:induction false} ValueIsValid(t: string)
    ensures ParseValue(t).Some? ==> Valid(ParseValue(t).value.0)
    decreases |t|, 0
  {
    var u := SkipSpace(t);
    if u != "" && ParseValue(t).Some? {
      if u[0] == '[' {
        ItemsAreValid(SkipSpace(u[1..]), []);
      } else if u[0] == '{' {
        MembersAreValid(SkipSpace(u[1..]), []);
      }
    }
  }

  lemma {:induction false} ItemsAreValid(t: string, done: seq<Json>)
    requires Valid(Arr(done))
    ensures ParseItems(t, done).Some? ==> Valid(ParseItems(t, done).value.0)
    decreases |t|, 1
  {
    ValueIsValid(t);
    if ParseItems(t, done).Some? {
      var (v, u) := ParseValue(t).value;
      var w := SkipSpace(u);
      assert Valid(Arr(done + [v]));
      if w[0] == ',' {
        ItemsAreValid(w[1..], done + [v]);
      }
    }
  }

  lemma {:induction false} MemberIsValid(t: string)
    ensures ParseMember(t).Some? ==> Valid(ParseMember(t).value.0.value)
    decreases |t|, 1
  {
    if ParseMember(t).Some? {
      var (key, w) := ParseString(SkipSpace(t)[1..]).value;
      ValueIsValid(SkipSpace(w)[1..]);
    }
  }

  lemma {:induction false} MembersAreValid(t: string, done: Members)
    requires Valid(Obj(done))
    ensures ParseMembers(t, done).Some? ==> Valid(ParseMembers(t, done).value.0)
    decreases |t|, 2
  {
    if ParseMembers(t, done).Some? {
      var (m, u) := ParseMember(t).value;
      var w := SkipSpace(u);
      MemberIsValid(t);
      InsertValid(done, m.key, m.value);
      if w[0] == ',' {
        MembersAreValid(w[1..], Insert(done, m.key, m.value));
      }
    }
  }

  /** Whatever text is accepted, no object of the result repeats a key. */
  lemma ParsedIsValid(t: string)
    ensures Parse(t).Some? ==> Valid(Parse(t).value)
  {
    ValueIsValid(t);
  }

  /** serde_json::from_str: one value and nothing but white space after it. */
  function Parse(t: string): Option<Json> {
    var (v, u) :- ParseValue(t);
    if SkipSpace(u) == "" then Some(v) else None
  }
}
