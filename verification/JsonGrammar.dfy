/**
 The grammar of RFC 8259 as syntax trees that keep every choice a text makes: white space, escapes
 and their letter case.
 */
module JsonGrammar {
  import opened Wrappers
  import opened Bytes
  import opened Json

  // ----- trees, their texts and their meanings -----

  /** One character of a string (section 7), in one of the ways to write it. */
  datatype Piece =
    | Plain(c: char)
    | Short(letter: char)
    | Unicode(hex: string)
    | Pair(high: string, low: string)

  /** White space, if any (section 2), goes before and after every value and before every key and colon. */
  datatype Syntax =
    | Word(text: string)
    | Number(negative: bool, digits: string)
    | Text(pieces: seq<Piece>)
    | Array(gap: string, items: seq<Element>)
    | Object(gap: string, fields: seq<Field>)

  datatype Element = Element(before: string, value: Syntax, after: string)

  datatype Field = Field(before: string, key: seq<Piece>, middle: string, element: Element)

  /** Blanks, tabs, line feeds and carriage returns. */
  predicate IsSpace(s: string) {
    forall i | 0 <= i < |s| :: s[i] == ' ' || s[i] as int == 9 || s[i] as int == 10 || s[i] as int == 13
  }

  predicate IsHex(h: string) {
    |h| == 4 && forall i | 0 <= i < 4 :: HexValue(h[i]).Some?
  }

  function HexNumber(h: string): (n: nat)
    requires IsHex(h)
    ensures n < 0x1_0000
  {
    ((HexValue(h[0]).value * 16 + HexValue(h[1]).value) * 16 + HexValue(h[2]).value) * 16 + HexValue(h[3]).value
  }

  predicate PieceOk(p: Piece) {
    match p
    case Plain(c) => c >= ' ' && c != '\"' && c != '\\'
    case Short(letter) =>
      letter == '\"' || letter == '\\' || letter == '/' || letter == 'b' || letter == 'f'
      || letter == 'n' || letter == 'r' || letter == 't'
    case Unicode(hex) => IsHex(hex) && !(0xD800 <= HexNumber(hex) < 0xE000)
    case Pair(high, low) =>
      IsHex(high) && IsHex(low) && 0xD800 <= HexNumber(high) < 0xDC00 <= HexNumber(low) < 0xE000
  }

  function PieceText(p: Piece): string {
    match p
    case Plain(c) => [c]
    case Short(letter) => ['\\', letter]
    case Unicode(hex) => "\\u" + hex
    case Pair(high, low) => "\\u" + high + ("\\u" + low)
  }

  function PieceChar(p: Piece): char
    requires PieceOk(p)
  {
    match p
    case Plain(c) => c
    case Short('b') => 8 as char
    case Short('t') => 9 as char
    case Short('n') => 10 as char
    case Short('f') => 12 as char
    case Short('r') => 13 as char
    case Short(letter) => letter
    case Unicode(hex) => HexNumber(hex) as char
    case Pair(high, low) =>
      (0x1_0000 + (HexNumber(high) - 0xD800) * 0x400 + (HexNumber(low) - 0xDC00)) as char
  }

  predicate PiecesOk(ps: seq<Piece>) {
    forall i | 0 <= i < |ps| :: PieceOk(ps[i])
  }

  /** The pieces and the closing quote. */
  function PiecesText(ps: seq<Piece>): string {
    if ps == [] then "\"" else PieceText(ps[0]) + PiecesText(ps[1..])
  }

  function PiecesChars(ps: seq<Piece>): string
    requires PiecesOk(ps)
  {
    seq(|ps|, i requires 0 <= i < |ps| => PieceChar(ps[i]))
  }

  /** Digits without a leading zero, in the ranges of i64 and u64, and no negative zero. */
  predicate NumberOk(negative: bool, digits: string) {
    && digits != "" && (forall i | 0 <= i < |digits| :: '0' <= digits[i] <= '9')
    && (|digits| > 1 ==> digits[0] != '0')
    && if negative then 0 < DigitsValue(digits) <= 0x8000_0000_0000_0000
       else DigitsValue(digits) < 0x1_0000_0000_0000_0000
  }

  function DigitsValue(digits: string): nat
    requires forall i | 0 <= i < |digits| :: '0' <= digits[i] <= '9'
  {
    if digits == "" then 0
    else
      var n := |digits| - 1;
      DigitsValue(digits[..n]) * 10 + (digits[n] as int - '0' as int)
  }

  predicate SyntaxOk(s: Syntax)
    decreases s, 0
  {
    match s
    case Word(text) => text == "null" || text == "true" || text == "false"
    case Number(negative, digits) => NumberOk(negative, digits)
    case Text(pieces) => PiecesOk(pieces)
    case Array(gap, items) => IsSpace(gap) && forall i | 0 <= i < |items| :: ElementOk(items[i])
    case Object(gap, fields) => IsSpace(gap) && forall i | 0 <= i < |fields| :: FieldOk(fields[i])
  }

  predicate ElementOk(e: Element)
    decreases e, 1
  {
    IsSpace(e.before) && SyntaxOk(e.value) && IsSpace(e.after)
  }

  predicate FieldOk(f: Field)
    decreases f, 2
  {
    IsSpace(f.before) && PiecesOk(f.key) && IsSpace(f.middle) && ElementOk(f.element)
  }

  function SyntaxText(s: Syntax): string
    decreases s, 0
  {
    match s
    case Word(text) => text
    case Number(negative, digits) => (if negative then "-" else "") + digits
    case Text(pieces) => "\"" + PiecesText(pieces)
    case Array(gap, items) => "[" + if items == [] then gap + "]" else ItemsText(items)
    case Object(gap, fields) => "{" + if fields == [] then gap + "}" else FieldsText(fields)
  }

  function ElementText(e: Element): string
    decreases e, 1
  {
    e.before + (SyntaxText(e.value) + e.after)
  }

  function FieldText(f: Field): string
    decreases f, 2
  {
    f.before + ("\"" + (PiecesText(f.key) + (f.middle + (":" + ElementText(f.element)))))
  }

  function ItemsText(items: seq<Element>): string
    requires items != []
    decreases items, 3
  {
    ElementText(items[0]) + if |items| == 1 then "]" else "," + ItemsText(items[1..])
  }

  function FieldsText(fields: seq<Field>): string
    requires fields != []
    decreases fields, 3
  {
    FieldText(fields[0]) + if |fields| == 1 then "}" else "," + FieldsText(fields[1..])
  }

  function Meaning(s: Syntax): Json
    requires SyntaxOk(s)
    decreases s, 0
  {
    match s
    case Word("null") => Null
    case Word(text) => Bool(text == "true")
    case Number(negative, digits) => Num(if negative then -(DigitsValue(digits) as int) else DigitsValue(digits))
    case Text(pieces) => Str(PiecesChars(pieces))
    case Array(_, items) => Arr(ItemsMeaning(items))
    case Object(_, fields) => Obj(FieldsMeaning(fields))
  }

  function ElementMeaning(e: Element): Json
    requires ElementOk(e)
    decreases e, 1
  {
    Meaning(e.value)
  }

  function FieldMeaning(f: Field): Member
    requires FieldOk(f)
    decreases f, 2
  {
    Member(PiecesChars(f.key), ElementMeaning(f.element))
  }

  function ItemsMeaning(items: seq<Element>): seq<Json>
    requires forall i | 0 <= i < |items| :: ElementOk(items[i])
    decreases items, 3
  {
    if items == [] then [] else [ElementMeaning(items[0])] + ItemsMeaning(items[1..])
  }

  function FieldsMeaning(fields: seq<Field>): Members
    requires forall i | 0 <= i < |fields| :: FieldOk(fields[i])
    decreases fields, 3
  {
    if fields == [] then [] else [FieldMeaning(fields[0])] + FieldsMeaning(fields[1..])
  }
}
