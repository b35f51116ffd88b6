/**
 The printer: its texts are those of the grammar's trees without white space and with the fewest
 escapes, the shortest texts there are for a value. So every printed value can be read back as it is;
 the parser gives it with the repeated keys of every object merged, which on values without repeated
 keys, and so on everything a parser returned, is the value itself.
 */
module JsonRoundTrip {
  import opened Wrappers
  import opened Bytes
  import opened Json
  import opened JsonText
  import opened JsonGrammar
  import opened JsonTokens
  import opened JsonLanguage
  import opened RawJson
  import Radix

  // ----- the tree behind a printed text -----

  function PieceFor(c: char): Piece {
    if c == '\"' || c == '\\' then Short(c)
    else if c == BACKSPACE then Short('b')
    else if c == TAB then Short('t')
    else if c == LINE_FEED then Short('n')
    else if c == FORM_FEED then Short('f')
    else if c == RETURN then Short('r')
    else if c < ' ' then Unicode("00" + [HexDigit(c as int / 16), HexDigit(c as int % 16)])
    else Plain(c)
  }

  function PiecesFor(s: string): seq<Piece> {
    if s == "" then [] else [PieceFor(s[0])] + PiecesFor(s[1..])
  }

  function TreeFor(v: Json): Syntax
    decreases v, 0
  {
    match v
    case Null => Word("null")
    case Bool(b) => Word(if b then "true" else "false")
    case Num(n) => Number(n < 0, PrintNat(if n < 0 then -n else n))
    case Str(s) => Text(PiecesFor(s))
    case Arr(items) => Array("", ElementsFor(items))
    case Obj(ms) => Object("", FieldsFor(ms))
  }

  function ElementsFor(items: seq<Json>): seq<Element>
    decreases items, 1
  {
    if items == [] then [] else [Element("", TreeFor(items[0]), "")] + ElementsFor(items[1..])
  }

  function FieldsFor(ms: Members): seq<Field>
    decreases ms, 1
  {
    if ms == [] then []
    else [Field("", PiecesFor(ms[0].key), "", Element("", TreeFor(ms[0].value), ""))] + FieldsFor(ms[1..])
  }

  lemma PieceForIs(c: char)
    ensures PieceOk(PieceFor(c)) && PieceChar(PieceFor(c)) == c && PieceText(PieceFor(c)) == EscapeChar(c)
  {
    if PieceFor(c).Unicode? {
      var hex := PieceFor(c).hex;
      assert hex[0] == '0' && hex[1] == '0' && hex[2] == HexDigit(c as int / 16) && hex[3] == HexDigit(c as int % 16);
      assert "\\u" + hex == "\\u00" + [HexDigit(c as int / 16), HexDigit(c as int % 16)];
    }
  }

  lemma {:induction false} PiecesForIs(s: string)
    ensures PiecesOk(PiecesFor(s)) && PiecesChars(PiecesFor(s)) == s && PiecesText(PiecesFor(s)) == Escape(s) + "\""
  {
    if s == "" {
      assert Escape(s) + "\"" == "\"";
    } else {
      PieceForIs(s[0]);
      PiecesForIs(s[1..]);
      PiecesOfCons(PieceFor(s[0]), PiecesFor(s[1..]));
      assert s == [s[0]] + s[1..];
      Assoc(EscapeChar(s[0]), Escape(s[1..]), "\"");
    }
  }

  lemma PiecesOfCons(p: Piece, ps: seq<Piece>)
    requires PieceOk(p) && PiecesOk(ps)
    ensures var all := [p] + ps;
      PiecesOk(all) && PiecesChars(all) == [PieceChar(p)] + PiecesChars(ps)
      && PiecesText(all) == PieceText(p) + PiecesText(ps)
  {
    assert ([p] + ps)[1..] == ps;
  }

  lemma PrintNatIs(n: nat)
    ensures var digits := PrintNat(n);
      AllDigits(digits) && digits != "" && (|digits| > 1 ==> digits[0] != '0') && DigitsValue(digits) == n
  {
    var ds := if n == 0 then [0] else Radix.Expand(n, 10);
    var digits := PrintNat(n);
    assert digits == Decimal(ds);
    assert DigitValues(digits) == ds;
    DigitsValueIs(digits);
    if n == 0 {
      assert Radix.Value([0], 10) == 0;
    } else {
      Radix.ValueOfExpand(n, 10);
    }
  }

  lemma SignedPrints(negative: bool, digits: string, n: nat, k: JsonInt)
    requires PrintNat(n) == digits && (negative ==> n > 0) && k == if negative then -(n as int) else n
    ensures (if negative then "-" else "") + digits == Print(Num(k))
  {
    assert "" + digits == digits;
  }

  lemma NumberForIs(n: JsonInt)
    ensures var v := Num(n); SyntaxOk(TreeFor(v)) && Meaning(TreeFor(v)) == v && SyntaxText(TreeFor(v)) == Print(v)
  {
    var k := if n < 0 then -n else n;
    var digits := PrintNat(k);
    PrintNatIs(k);
    NumberOfDigits(n, k, digits);
    SignedPrints(n < 0, digits, k, n);
  }

  lemma NumberOfDigits(n: JsonInt, k: nat, digits: string)
    requires AllDigits(digits) && digits != "" && (|digits| > 1 ==> digits[0] != '0') && DigitsValue(digits) == k
    requires k == if n < 0 then -n else n
    ensures NumberOk(n < 0, digits) && Meaning(Number(n < 0, digits)) == Num(n)
  {
  }

  lemma TextForIs(s: string)
    ensures var v := Str(s); SyntaxOk(TreeFor(v)) && Meaning(TreeFor(v)) == v && SyntaxText(TreeFor(v)) == Print(v)
  {
    PiecesForIs(s);
    Assoc("\"", Escape(s), "\"");
  }

  lemma {:induction false} TreeForIs(v: Json)
    ensures SyntaxOk(TreeFor(v)) && Meaning(TreeFor(v)) == v && SyntaxText(TreeFor(v)) == Print(v)
    decreases v, 0
  {
    match v
    case Num(n) => NumberForIs(n);
    case Str(s) => TextForIs(s);
    case Arr(items) => ArrayForIs(items);
    case Obj(ms) => ObjectForIs(ms);
    case _ =>
  }

  lemma {:induction false} ArrayForIs(items: seq<Json>)
    ensures var v := Arr(items); SyntaxOk(TreeFor(v)) && Meaning(TreeFor(v)) == v && SyntaxText(TreeFor(v)) == Print(v)
    decreases items, 4
  {
    ElementsForIs(items);
    assert "[" + ("" + "]") == "[]";
  }

  lemma {:induction false} ObjectForIs(ms: Members)
    ensures var v := Obj(ms); SyntaxOk(TreeFor(v)) && Meaning(TreeFor(v)) == v && SyntaxText(TreeFor(v)) == Print(v)
    decreases ms, 4
  {
    FieldsForIs(ms);
    assert "{" + ("" + "}") == "{}";
  }

  lemma {:induction false} ElementForIs(v: Json)
    ensures var e := Element("", TreeFor(v), "");
      ElementOk(e) && ElementMeaning(e) == v && ElementText(e) == Print(v)
    decreases v, 1
  {
    TreeForIs(v);
    assert "" + (Print(v) + "") == Print(v);
  }

  lemma {:induction false} ElementsForIs(items: seq<Json>)
    ensures var es := ElementsFor(items);
      && |es| == |items| && (forall i | 0 <= i < |es| :: ElementOk(es[i])) && ItemsMeaning(es) == items
      && (items != [] ==> ItemsText(es) == PrintItems(items))
    decreases items, 2
  {
    if items != [] {
      ElementForIs(items[0]);
      ElementsForIs(items[1..]);
      assert ElementsFor(items)[1..] == ElementsFor(items[1..]);
      assert items == [items[0]] + items[1..];
    }
  }

  lemma {:induction false} FieldForIs(m: Member)
    ensures var f := Field("", PiecesFor(m.key), "", Element("", TreeFor(m.value), ""));
      FieldOk(f) && FieldMeaning(f) == m && FieldText(f) == PrintString(m.key) + ":" + Print(m.value)
    decreases m.value, 2
  {
    PiecesForIs(m.key);
    ElementForIs(m.value);
    FieldForText(Escape(m.key), Print(m.value));
  }

  lemma FieldForText(key: string, v: string)
    ensures "" + ("\"" + (key + "\"" + ("" + (":" + v)))) == "\"" + key + "\"" + ":" + v
  {
    assert "" + (":" + v) == ":" + v;
    Assoc("\"", key + "\"", ":" + v);
    Assoc("\"", key, "\"");
    Assoc("\"" + key + "\"", ":", v);
  }

  lemma {:induction false} FieldsForIs(ms: Members)
    ensures var fs := FieldsFor(ms);
      && |fs| == |ms| && (forall i | 0 <= i < |fs| :: FieldOk(fs[i])) && FieldsMeaning(fs) == ms
      && (ms != [] ==> FieldsText(fs) == PrintMembers(ms))
    decreases ms, 3
  {
    if ms != [] {
      FieldForIs(ms[0]);
      FieldsForIs(ms[1..]);
      assert FieldsFor(ms)[1..] == FieldsFor(ms[1..]);
      assert ms == [ms[0]] + ms[1..];
    }
  }

  /** Printing loses nothing, not even repeated keys. */
  lemma RawRoundTrip(v: Json)
    ensures RawParse(Print(v)) == Some(v)
  {
    ElementForIs(v);
    WholeText(Element("", TreeFor(v), ""));
  }

  /** For every value at all: parsing its text gives it back with repeated keys merged. */
  lemma ParseOfPrint(v: Json)
    ensures Parse(Print(v)) == Some(Normalize(v)) && Merged(v, Normalize(v))
  {
    RawRoundTrip(v);
    ParseIsMergedRaw(Print(v));
    NormalizeIsMerged(v);
  }

  // ----- what normalisation does -----

  lemma {:induction false} CollectDistinct(done: Members, ms: Members)
    requires DistinctKeys(done + ms)
    requires forall i | 0 <= i < |ms| :: Valid(ms[i].value)
    ensures Collect(done, ms) == done + ms
    decreases ms, 1
  {
    if ms == [] {
      assert done + ms == done;
    } else {
      var m := ms[0];
      NormalizeValid(m.value);
      assert (done + ms)[|done|] == m;
      assert forall i | 0 <= i < |done| :: (done + ms)[i] == done[i];
      assert Insert(done, m.key, m.value) == done + [m];
      assert done + [m] + ms[1..] == done + ms;
      CollectDistinct(done + [m], ms[1..]);
    }
  }

  lemma {:induction false} NormalizeItemsValid(items: seq<Json>)
    requires forall i | 0 <= i < |items| :: Valid(items[i])
    ensures NormalizeItems(items) == items
    decreases items, 1
  {
    if items != [] {
      NormalizeValid(items[0]);
      NormalizeItemsValid(items[1..]);
    }
  }

  lemma {:induction false} NormalizeValid(v: Json)
    requires Valid(v)
    ensures Normalize(v) == v
    decreases v, 0
  {
    if v.Arr? {
      NormalizeItemsValid(v.items);
    } else if v.Obj? {
      assert [] + v.members == v.members;
      CollectDistinct([], v.members);
    }
  }

  /** The round trip of the documents the credential code handles: nothing is lost or reordered. */
  lemma RoundTrip(v: Json)
    ensures Parse(Print(v)) == Some(v) <==> Valid(v)
  {
    ParseOfPrint(v);
    ParsedIsValid(Print(v));
    if Valid(v) {
      NormalizeValid(v);
    }
  }

  /** Different values, so also different key orders and repetitions, print differently. */
  lemma PrintInjective(v: Json, w: Json)
    requires Print(v) == Print(w)
    ensures v == w
  {
    RawRoundTrip(v);
    RawRoundTrip(w);
  }

  lemma PayloadInjective(v: Json, w: Json)
    requires Utf8(Print(v)) == Utf8(Print(w))
    ensures v == w
  {
    Utf8Injective(Print(v), Print(w));
    PrintInjective(v, w);
  }

  /** Parsing, printing and parsing again is parsing once. */
  lemma ReprintIsStable(t: string)
    requires Parse(t).Some?
    ensures Parse(Print(Parse(t).value)) == Parse(t)
  {
    ParsedIsValid(t);
    RoundTrip(Parse(t).value);
  }
}
