/**
 What the printer writes, without its escape table: of all the texts of the grammar for a value the
 shortest one, and of those the one whose unicode escapes are in lower case. That is one text.
 */
module JsonShortest {
  import opened Wrappers
  import opened Bytes
  import opened Json
  import opened JsonText
  import opened JsonGrammar
  import opened JsonTokens
  import opened JsonLanguage
  import opened JsonRoundTrip
  import opened RawJson
  import Radix

  // ----- trees in lower case -----

  predicate LowerPiece(p: Piece) {
    p.Unicode? ==> forall i | 0 <= i < |p.hex| :: !('A' <= p.hex[i] <= 'F')
  }

  predicate LowerPieces(ps: seq<Piece>) {
    forall i | 0 <= i < |ps| :: LowerPiece(ps[i])
  }

  predicate LowerSyntax(s: Syntax)
    decreases s, 0
  {
    match s
    case Text(pieces) => LowerPieces(pieces)
    case Array(_, items) => LowerItems(items)
    case Object(_, fields) => LowerFields(fields)
    case _ => true
  }

  predicate LowerElement(e: Element)
    decreases e, 1
  {
    LowerSyntax(e.value)
  }

  predicate LowerField(f: Field)
    decreases f, 2
  {
    LowerPieces(f.key) && LowerElement(f.element)
  }

  predicate LowerItems(items: seq<Element>)
    decreases items, 3
  {
    items != [] ==> LowerElement(items[0]) && LowerItems(items[1..])
  }

  predicate LowerFields(fields: seq<Field>)
    decreases fields, 3
  {
    fields != [] ==> LowerField(fields[0]) && LowerFields(fields[1..])
  }

  // ----- comparing texts -----

  /** No longer than the text, and the text itself if that is as short and in lower case. */
  predicate Best(text: string, best: string, lower: bool) {
    |best| <= |text| && (lower && |best| == |text| ==> best == text)
  }

  lemma BestOfConcat(a: string, x: string, l: bool, b: string, y: string, m: bool)
    requires Best(a, x, l) && Best(b, y, m)
    ensures Best(a + b, x + y, l && m)
  {
  }

  lemma HexOfLower(h: string, c: nat)
    requires IsHex(h) && HexNumber(h) == c < 0x20 && forall i | 0 <= i < 4 :: !('A' <= h[i] <= 'F')
    ensures h == "00" + [HexDigit(c / 16), HexDigit(c % 16)]
  {
    var a, b := HexValue(h[0]).value, HexValue(h[1]).value;
    var d, e := HexValue(h[2]).value, HexValue(h[3]).value;
    assert a == 0 && b == 0 && d == c / 16 && e == c % 16;
    LowerDigit(h[0]);
    LowerDigit(h[1]);
    LowerDigit(h[2]);
    LowerDigit(h[3]);
  }

  lemma LowerDigit(c: char)
    requires HexValue(c).Some? && !('A' <= c <= 'F')
    ensures c == HexDigit(HexValue(c).value)
  {
  }

  lemma PieceBest(p: Piece)
    requires PieceOk(p)
    ensures Best(PieceText(p), EscapeChar(PieceChar(p)), LowerPiece(p))
  {
    match p
    case Unicode(hex) => UnicodeBest(hex);
    case _ =>
  }

  lemma UnicodeBest(hex: string)
    requires PieceOk(Unicode(hex))
    ensures Best("\\u" + hex, EscapeChar(PieceChar(Unicode(hex))), LowerPiece(Unicode(hex)))
  {
    var c := HexNumber(hex);
    if |EscapeChar(c as char)| == 6 && LowerPiece(Unicode(hex)) {
      HexOfLower(hex, c);
      assert "\\u" + ("00" + [HexDigit(c / 16), HexDigit(c % 16)]) == "\\u00" + [HexDigit(c / 16), HexDigit(c % 16)];
    }
  }

  lemma {:induction false} PiecesBest(ps: seq<Piece>)
    requires PiecesOk(ps)
    ensures Best(PiecesText(ps), Escape(PiecesChars(ps)) + "\"", LowerPieces(ps))
  {
    if ps == [] {
      assert Escape(PiecesChars(ps)) + "\"" == "\"";
    } else {
      var s, rest := PiecesChars(ps), PiecesChars(ps[1..]);
      assert s[0] == PieceChar(ps[0]) && s[1..] == rest;
      PieceBest(ps[0]);
      PiecesBest(ps[1..]);
      assert LowerPieces(ps) ==> LowerPiece(ps[0]) && LowerPieces(ps[1..]);
      BestOfConcat(PieceText(ps[0]), EscapeChar(s[0]), LowerPiece(ps[0]),
                   PiecesText(ps[1..]), Escape(rest) + "\"", LowerPieces(ps[1..]));
      Assoc(EscapeChar(s[0]), Escape(rest), "\"");
    }
  }

  lemma ZeroPrints(digits: string)
    requires AllDigits(digits) && digits != "" && (|digits| > 1 ==> digits[0] != '0') && digits[0] == '0'
    ensures digits == "0" && PrintNat(DigitsValue(digits)) == digits
  {
    assert digits[..0] == "";
    assert DigitsValue(digits[..0]) == 0;
  }

  lemma DecimalOfDigits(digits: string)
    requires AllDigits(digits)
    ensures Radix.IsNumeral(DigitValues(digits), 10) && Decimal(DigitValues(digits)) == digits
  {
  }

  lemma PrintNatOf(n: nat, ds: seq<nat>)
    requires n != 0 && ds == Radix.Expand(n, 10)
    ensures PrintNat(n) == Decimal(ds)
  {
  }

  lemma NatPrints(digits: string)
    requires AllDigits(digits) && digits != "" && digits[0] != '0'
    ensures PrintNat(DigitsValue(digits)) == digits
  {
    var ds, n := DigitValues(digits), DigitsValue(digits);
    DecimalOfDigits(digits);
    DigitsValueIs(digits);
    Radix.ExpandOfValue(ds, 10);
    PrintNatOf(n, ds);
  }

  lemma DigitsPrint(digits: string)
    requires AllDigits(digits) && digits != "" && (|digits| > 1 ==> digits[0] != '0')
    ensures PrintNat(DigitsValue(digits)) == digits
  {
    if digits[0] == '0' {
      ZeroPrints(digits);
    } else {
      NatPrints(digits);
    }
  }

  /** A number in these ranges has one text. */
  lemma NumberBest(negative: bool, digits: string)
    requires NumberOk(negative, digits)
    ensures SyntaxText(Number(negative, digits)) == Print(Meaning(Number(negative, digits)))
  {
    var k := NumberIs(negative, digits);
    DigitsPrint(digits);
    SignedPrints(negative, digits, DigitsValue(digits), k);
  }

  lemma {:induction false} SyntaxBest(s: Syntax)
    requires SyntaxOk(s)
    ensures Best(SyntaxText(s), Print(Meaning(s)), LowerSyntax(s))
    decreases s, 0
  {
    match s
    case Word(_) =>
    case Number(negative, digits) => NumberBest(negative, digits);
    case Text(pieces) => TextBest(pieces);
    case Array(gap, items) => ArrayBest(gap, items);
    case Object(gap, fields) => ObjectBest(gap, fields);
  }

  lemma TextBest(pieces: seq<Piece>)
    requires PiecesOk(pieces)
    ensures Best("\"" + PiecesText(pieces), PrintString(PiecesChars(pieces)), LowerPieces(pieces))
  {
    PiecesBest(pieces);
    Assoc("\"", Escape(PiecesChars(pieces)), "\"");
    BestOfConcat("\"", "\"", true, PiecesText(pieces), Escape(PiecesChars(pieces)) + "\"", LowerPieces(pieces));
  }

  lemma {:induction false} ArrayBest(gap: string, items: seq<Element>)
    requires SyntaxOk(Array(gap, items))
    ensures Best(SyntaxText(Array(gap, items)), Print(Arr(ItemsMeaning(items))), LowerItems(items))
    decreases items, 4
  {
    if items == [] {
      assert |gap + "]"| == 1 ==> gap == "";
      assert "[" + "]" == "[]";
    } else {
      ItemsBest(items);
      BestOfConcat("[", "[", true, ItemsText(items), PrintItems(ItemsMeaning(items)), LowerItems(items));
    }
  }

  lemma {:induction false} ElementBest(e: Element)
    requires ElementOk(e)
    ensures Best(ElementText(e), Print(ElementMeaning(e)), LowerElement(e))
    decreases e, 1
  {
    SyntaxBest(e.value);
    assert "" + (SyntaxText(e.value) + "") == SyntaxText(e.value);
  }

  lemma {:induction false} ItemsBest(items: seq<Element>)
    requires items != [] && forall i | 0 <= i < |items| :: ElementOk(items[i])
    ensures Best(ItemsText(items), PrintItems(ItemsMeaning(items)), LowerItems(items))
    decreases items, 3
  {
    var e, rest := items[0], items[1..];
    ElementBest(e);
    assert ItemsMeaning(items)[1..] == ItemsMeaning(rest);
    if rest == [] {
      BestOfConcat(ElementText(e), Print(ElementMeaning(e)), LowerElement(e), "]", "]", true);
    } else {
      ItemsBest(rest);
      BestOfConcat(",", ",", true, ItemsText(rest), PrintItems(ItemsMeaning(rest)), LowerItems(rest));
      BestOfConcat(ElementText(e), Print(ElementMeaning(e)), LowerElement(e),
                   "," + ItemsText(rest), "," + PrintItems(ItemsMeaning(rest)), LowerItems(rest));
    }
  }

  lemma {:induction false} ObjectBest(gap: string, fields: seq<Field>)
    requires SyntaxOk(Object(gap, fields))
    ensures Best(SyntaxText(Object(gap, fields)), Print(Obj(FieldsMeaning(fields))), LowerFields(fields))
    decreases fields, 4
  {
    if fields == [] {
      assert |gap + "}"| == 1 ==> gap == "";
      assert "{" + "}" == "{}";
    } else {
      FieldsBest(fields);
      BestOfConcat("{", "{", true, FieldsText(fields), PrintMembers(FieldsMeaning(fields)), LowerFields(fields));
    }
  }

  lemma {:induction false} FieldBest(f: Field)
    requires FieldOk(f)
    ensures Best(FieldText(f), PrintString(FieldMeaning(f).key) + ":" + Print(FieldMeaning(f).value), LowerField(f))
    decreases f, 2
  {
    var key, v := PiecesChars(f.key), ElementMeaning(f.element);
    var keyText := "\"" + PiecesText(f.key);
    TextBest(f.key);
    ElementBest(f.element);
    BestOfConcat(":", ":", true, ElementText(f.element), Print(v), LowerElement(f.element));
    BestOfConcat(f.middle, "", true, ":" + ElementText(f.element), ":" + Print(v), LowerElement(f.element));
    BestOfConcat(keyText, PrintString(key), LowerPieces(f.key),
                 f.middle + (":" + ElementText(f.element)), "" + (":" + Print(v)), LowerElement(f.element));
    FieldRegroup(f, PrintString(key), Print(v));
    BestOfConcat(f.before, "", true, keyText + (f.middle + (":" + ElementText(f.element))),
                 PrintString(key) + ("" + (":" + Print(v))), LowerField(f));
  }

  lemma FieldRegroup(f: Field, key: string, v: string)
    ensures FieldText(f) == f.before + ("\"" + PiecesText(f.key) + (f.middle + (":" + ElementText(f.element))))
    ensures "" + (key + ("" + (":" + v))) == key + ":" + v
  {
    Assoc("\"", PiecesText(f.key), f.middle + (":" + ElementText(f.element)));
    assert "" + (":" + v) == ":" + v;
    Assoc(key, ":", v);
  }

  lemma {:induction false} FieldsBest(fields: seq<Field>)
    requires fields != [] && forall i | 0 <= i < |fields| :: FieldOk(fields[i])
    ensures Best(FieldsText(fields), PrintMembers(FieldsMeaning(fields)), LowerFields(fields))
    decreases fields, 3
  {
    var f, rest := fields[0], fields[1..];
    var m := FieldMeaning(f);
    var first := PrintString(m.key) + ":" + Print(m.value);
    FieldBest(f);
    assert FieldsMeaning(fields)[1..] == FieldsMeaning(rest) && FieldsMeaning(fields)[0] == m;
    if rest == [] {
      BestOfConcat(FieldText(f), first, LowerField(f), "}", "}", true);
    } else {
      FieldsBest(rest);
      BestOfConcat(",", ",", true, FieldsText(rest), PrintMembers(FieldsMeaning(rest)), LowerFields(rest));
      BestOfConcat(FieldText(f), first, LowerField(f),
                   "," + FieldsText(rest), "," + PrintMembers(FieldsMeaning(rest)), LowerFields(rest));
    }
  }

  // ----- what is printed -----

  /** No text that can be read as a value is shorter than the one printed for it. */
  lemma PrintIsShortest(t: string, v: Json)
    requires RawParse(t) == Some(v)
    ensures |Print(v)| <= |t|
  {
    RawParseIff(t, v);
    var e: Element :| ElementOk(e) && ElementText(e) == t && ElementMeaning(e) == v;
    ElementBest(e);
  }

  /** Of the shortest ones it is the one in lower case: those two demands leave one text, and it meets them. */
  lemma PrintIs(t: string, v: Json)
    ensures t == Print(v) <==>
      exists e: Element :: IsTextOf(e, t, v) && LowerElement(e) && |t| <= |Print(v)|
  {
    if e: Element :| IsTextOf(e, t, v) && LowerElement(e) && |t| <= |Print(v)| {
      ElementBest(e);
    }
    if t == Print(v) {
      var e := Element("", TreeFor(v), "");
      ElementForIs(v);
      TreeIsLower(v);
      assert IsTextOf(e, t, v) && LowerElement(e) && |t| <= |Print(v)|;
    }
  }

  predicate IsTextOf(e: Element, t: string, v: Json) {
    ElementOk(e) && ElementText(e) == t && ElementMeaning(e) == v
  }

  lemma PieceIsLower(c: char)
    ensures LowerPiece(PieceFor(c))
  {
    if PieceFor(c).Unicode? {
      var hex := PieceFor(c).hex;
      assert hex[0] == '0' && hex[1] == '0' && hex[2] == HexDigit(c as int / 16) && hex[3] == HexDigit(c as int % 16);
    }
  }

  lemma {:induction false} PiecesAreLower(s: string)
    ensures LowerPieces(PiecesFor(s))
  {
    if s != "" {
      PieceIsLower(s[0]);
      PiecesAreLower(s[1..]);
    }
  }

  lemma {:induction false} TreeIsLower(v: Json)
    ensures LowerSyntax(TreeFor(v))
    decreases v, 0
  {
    match v
    case Str(s) => PiecesAreLower(s);
    case Arr(items) => ElementsAreLower(items);
    case Obj(ms) => FieldsAreLower(ms);
    case _ =>
  }

  lemma {:induction false} ElementsAreLower(items: seq<Json>)
    ensures LowerItems(ElementsFor(items))
    decreases items, 1
  {
    if items != [] {
      TreeIsLower(items[0]);
      ElementsAreLower(items[1..]);
      assert ElementsFor(items)[1..] == ElementsFor(items[1..]);
    }
  }

  lemma {:induction false} FieldsAreLower(ms: Members)
    ensures LowerFields(FieldsFor(ms))
    decreases ms, 1
  {
    if ms != [] {
      PiecesAreLower(ms[0].key);
      TreeIsLower(ms[0].value);
      FieldsAreLower(ms[1..]);
      assert FieldsFor(ms)[1..] == FieldsFor(ms[1..]);
    }
  }

  /** Text without control characters, quotes and backslashes is printed as it is, slashes and all. */
  lemma {:induction false} PlainTextPrints(s: string)
    requires forall i | 0 <= i < |s| :: s[i] >= ' ' && s[i] != '\"' && s[i] != '\\'
    ensures Print(Str(s)) == "\"" + s + "\""
    ensures Escape(s) == s
  {
    if s != "" {
      PlainTextPrints(s[1..]);
      assert s == [s[0]] + s[1..];
    }
  }

  /** The control characters without a letter of their own take two lower-case hexadecimal digits. */
  lemma ControlPrints(c: char)
    requires c as int < 0x20 && c as int != 8 && c as int != 9 && c as int != 10 && c as int != 12 && c as int != 13
    ensures Print(Str([c])) ==
      "\"" + ("\\u00" + ["0123456789abcdef"[c as int / 16], "0123456789abcdef"[c as int % 16]]) + "\""
  {
    assert [c][1..] == "";
    HexDigitIs(c as int / 16);
    HexDigitIs(c as int % 16);
    assert Escape([c]) == EscapeChar(c) + "" == EscapeChar(c);
  }
}
