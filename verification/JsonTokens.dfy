/**
 Strings and numbers: each text of the grammar is parsed as its meaning, and whatever is parsed is
 such a text.
 */
module JsonTokens {
  import opened Wrappers
  import opened Bytes
  import opened Json
  import opened JsonText
  import opened JsonGrammar
  import Radix

  // ----- white space -----

  lemma {:induction false} SkipsSpace(s: string, u: string)
    requires IsSpace(s)
    ensures SkipSpace(s + u) == SkipSpace(u)
  {
    if s == "" {
      assert s + u == u;
    } else {
      SkipsSpace(s[1..], u);
      assert (s + u)[1..] == s[1..] + u;
    }
  }

  lemma {:induction false} SplitSpace(t: string) returns (s: string)
    ensures IsSpace(s) && t == s + SkipSpace(t) && SkipSpace(SkipSpace(t)) == SkipSpace(t)
  {
    if SkipSpace(t) == t {
      s := "";
    } else {
      var rest := SplitSpace(t[1..]);
      s := [t[0]] + rest;
    }
  }

  lemma Assoc(a: string, b: string, c: string)
    ensures a + b + c == a + (b + c)
  {
  }

  // ----- strings -----

  /** u, already parsed as a string body, still parses with one more character before it. */
  ghost predicate Prepends(t: string, c: char, u: string)
    requires ParseString(u).Some?
  {
    ParseString(t) == Some(([c] + ParseString(u).value.0, ParseString(u).value.1))
  }

  lemma BackslashStep(t: string, body: string, c: char, u: string)
    requires t != "" && t[0] == '\\' && t[1..] == body && ParseEscape(body) == Some((c, u))
    requires ParseString(u).Some?
    ensures Prepends(t, c, u)
  {
  }

  lemma HexParses(h: string, u: string)
    requires IsHex(h)
    ensures ParseHex4(h + u) == Some((HexNumber(h), u))
  {
    var t := h + u;
    assert t[4..] == u;
    assert t[0] == h[0] && t[1] == h[1] && t[2] == h[2] && t[3] == h[3];
  }

  /** A `\u` escape, in any letter case, or a surrogate pair of them, is the character it encodes. */
  lemma UnicodeParses(p: Piece, u: string)
    requires PieceOk(p) && (p.Unicode? || p.Pair?)
    ensures PieceText(p)[..2] == "\\u" && ParseUnicodeEscape(PieceText(p)[2..] + u) == Some((PieceChar(p), u))
  {
    match p
    case Unicode(hex) =>
      assert PieceText(p)[2..] == hex;
      HexParses(hex, u);
    case Pair(high, low) =>
      assert PieceText(p)[2..] == high + ("\\u" + low);
      PairLayout(high, low, u);
      HexParses(high, "\\u" + (low + u));
      HexParses(low, u);
  }

  lemma PairLayout(a: string, b: string, u: string)
    ensures a + ("\\u" + b) + u == a + ("\\u" + (b + u))
    ensures ("\\u" + (b + u))[..2] == "\\u" && ("\\u" + (b + u))[2..] == b + u
  {
    Assoc(a, "\\u" + b, u);
    Assoc("\\u", b, u);
  }

  /** A surrogate that is not the first half of a pair is refused. */
  lemma LoneSurrogateRefused(h: string, u: string)
    requires IsHex(h) && 0xD800 <= HexNumber(h) < 0xE000
    ensures 0xDC00 <= HexNumber(h) || |u| < 2 || u[..2] != "\\u" ==> ParseUnicodeEscape(h + u).None?
  {
    HexParses(h, u);
  }

  lemma PieceParses(p: Piece, u: string)
    requires PieceOk(p) && ParseString(u).Some?
    ensures Prepends(PieceText(p) + u, PieceChar(p), u)
  {
    var t := PieceText(p) + u;
    match p
    case Plain(c) =>
      assert t[1..] == u;
    case Short(letter) =>
      assert t[1..] == [letter] + u && ([letter] + u)[1..] == u;
      BackslashStep(t, t[1..], PieceChar(p), u);
    case _ =>
      UnicodeParses(p, u);
      UnicodeBody(p, u, t);
      BackslashStep(t, t[1..], PieceChar(p), u);
  }

  lemma UnicodeBody(p: Piece, u: string, t: string)
    requires |PieceText(p)| >= 2 && PieceText(p)[..2] == "\\u" && t == PieceText(p) + u
    ensures t[0] == '\\' && t[1] == 'u' && t[1..][1..] == PieceText(p)[2..] + u
  {
    assert PieceText(p)[..2][0] == '\\' && PieceText(p)[..2][1] == 'u';
  }

  lemma {:induction false} PiecesParse(ps: seq<Piece>, rest: string)
    requires PiecesOk(ps)
    ensures ParseString(PiecesText(ps) + rest) == Some((PiecesChars(ps), rest))
  {
    if ps == [] {
      assert ("\"" + rest)[1..] == rest;
    } else {
      PiecesParse(ps[1..], rest);
      var u := PiecesText(ps[1..]) + rest;
      PieceParses(ps[0], u);
      Assoc(PieceText(ps[0]), PiecesText(ps[1..]), rest);
      assert PiecesChars(ps) == [PieceChar(ps[0])] + PiecesChars(ps[1..]);
    }
  }

  lemma HexFound(t: string) returns (h: string)
    requires ParseHex4(t).Some?
    ensures IsHex(h) && HexNumber(h) == ParseHex4(t).value.0 && t == h + ParseHex4(t).value.1
  {
    h := t[..4];
  }

  lemma UnicodeFound(t: string) returns (p: Piece)
    requires ParseUnicodeEscape(t).Some?
    ensures PieceOk(p) && PieceChar(p) == ParseUnicodeEscape(t).value.0
    ensures "\\u" + t == PieceText(p) + ParseUnicodeEscape(t).value.1
  {
    var (n, u) := ParseHex4(t).value;
    var h := HexFound(t);
    if n < 0xD800 || 0xE000 <= n {
      p := Unicode(h);
      Assoc("\\u", h, u);
    } else {
      p := PairFound(t, h, u);
    }
  }

  lemma PairFound(t: string, h: string, u: string) returns (p: Piece)
    requires IsHex(h) && t == h + u && ParseHex4(t) == Some((HexNumber(h), u)) && 0xD800 <= HexNumber(h) < 0xDC00
    requires ParseUnicodeEscape(t).Some?
    ensures PieceOk(p) && PieceChar(p) == ParseUnicodeEscape(t).value.0
    ensures "\\u" + t == PieceText(p) + ParseUnicodeEscape(t).value.1
  {
    var w := ParseHex4(u[2..]).value.1;
    var l := HexFound(u[2..]);
    p := Pair(h, l);
    assert u == "\\u" + (l + w);
    PairText(h, l, w);
  }

  lemma PairText(h: string, l: string, w: string)
    ensures "\\u" + (h + ("\\u" + (l + w))) == "\\u" + h + ("\\u" + l) + w
  {
    Assoc("\\u", h, "\\u" + (l + w));
    Assoc("\\u" + h, "\\u" + l, w);
    Assoc("\\u", l, w);
  }

  lemma ShortFound(t: string)
    requires ParseEscape(t).Some? && t[0] != 'u'
    ensures PieceOk(Short(t[0])) && ParseEscape(t) == Some((PieceChar(Short(t[0])), t[1..]))
  {
  }

  lemma BackslashText(letter: char, rest: string)
    ensures "\\" + ([letter] + rest) == ['\\', letter] + rest
  {
  }

  lemma EscapeFound(t: string) returns (p: Piece)
    requires ParseEscape(t).Some?
    ensures PieceOk(p) && PieceChar(p) == ParseEscape(t).value.0
    ensures "\\" + t == PieceText(p) + ParseEscape(t).value.1
  {
    assert t == [t[0]] + t[1..];
    BackslashText(t[0], t[1..]);
    if t[0] == 'u' {
      assert ParseEscape(t) == ParseUnicodeEscape(t[1..]);
      p := UnicodeFound(t[1..]);
      assert "\\u" == ['\\', 'u'];
    } else {
      ShortFound(t);
      p := Short(t[0]);
    }
  }

  lemma {:induction false} StringFound(t: string) returns (ps: seq<Piece>)
    requires ParseString(t).Some?
    ensures PiecesOk(ps) && PiecesChars(ps) == ParseString(t).value.0
    ensures t == PiecesText(ps) + ParseString(t).value.1
    decreases |t|
  {
    if t[0] == '\"' {
      ps := [];
      assert t == "\"" + t[1..];
    } else if t[0] == '\\' {
      var (c, u) := ParseEscape(t[1..]).value;
      var p := EscapeFound(t[1..]);
      assert t == "\\" + t[1..];
      var rest := StringFound(u);
      ps := PrependPiece(p, rest, u);
    } else {
      assert t == [t[0]] + t[1..];
      var rest := StringFound(t[1..]);
      ps := PrependPiece(Plain(t[0]), rest, t[1..]);
    }
  }

  lemma PrependPiece(p: Piece, rest: seq<Piece>, u: string) returns (ps: seq<Piece>)
    requires PieceOk(p) && PiecesOk(rest) && ParseString(u).Some?
    requires u == PiecesText(rest) + ParseString(u).value.1
    ensures PiecesOk(ps) && PiecesChars(ps) == [PieceChar(p)] + PiecesChars(rest)
    ensures PieceText(p) + u == PiecesText(ps) + ParseString(u).value.1
  {
    ps := [p] + rest;
    assert ps[1..] == rest;
    Assoc(PieceText(p), PiecesText(rest), ParseString(u).value.1);
  }

  // ----- numbers -----

  predicate AllDigits(digits: string) {
    forall i | 0 <= i < |digits| :: '0' <= digits[i] <= '9'
  }

  function DigitValues(digits: string): (ds: seq<nat>)
    requires AllDigits(digits)
  {
    seq(|digits|, i requires 0 <= i < |digits| => digits[i] as int - '0' as int)
  }

  lemma {:induction false} DigitsValueIs(digits: string)
    requires AllDigits(digits)
    ensures DigitsValue(digits) == Radix.Value(DigitValues(digits), 10)
  {
    if digits != "" {
      var n := |digits| - 1;
      DigitsValueIs(digits[..n]);
      assert DigitValues(digits)[..n] == DigitValues(digits[..n]);
    }
  }

  lemma {:induction false} TakesDigits(digits: string, rest: string)
    requires AllDigits(digits) && (rest == "" || !IsDigit(rest[0]))
    ensures TakeDigits(digits + rest) == (DigitValues(digits), rest)
  {
    if digits == "" {
      assert digits + rest == rest;
    } else {
      TakesDigits(digits[1..], rest);
      assert (digits + rest)[1..] == digits[1..] + rest;
      assert DigitValues(digits) == [digits[0] as int - '0' as int] + DigitValues(digits[1..]);
    }
  }

  lemma {:induction false} DigitsFound(t: string) returns (digits: string)
    ensures AllDigits(digits) && DigitValues(digits) == TakeDigits(t).0 && t == digits + TakeDigits(t).1
  {
    if t == "" || !IsDigit(t[0]) {
      digits := "";
    } else {
      var rest := DigitsFound(t[1..]);
      digits := [t[0]] + rest;
      assert digits[1..] == rest;
      assert t == [t[0]] + t[1..];
    }
  }

  /** What may follow a value: nothing, white space, or the punctuation around it. */
  predicate Delimits(rest: string) {
    rest != "" ==> IsSpace(rest[..1]) || rest[0] == ',' || rest[0] == ']' || rest[0] == '}'
  }

  lemma DelimitsNumber(rest: string)
    requires Delimits(rest) && rest != ""
    ensures !IsDigit(rest[0]) && rest[0] != '.' && rest[0] != 'e' && rest[0] != 'E'
  {
    assert rest[..1][0] == rest[0];
  }

  lemma NatParses(digits: string, rest: string)
    requires AllDigits(digits) && digits != "" && (|digits| > 1 ==> digits[0] != '0') && Delimits(rest)
    ensures ParseNat(digits + rest) == Some((DigitsValue(digits), rest))
  {
    if rest != "" {
      DelimitsNumber(rest);
    }
    TakesDigits(digits, rest);
    DigitsValueIs(digits);
  }

  lemma NegativeStep(t: string, n: nat, rest: string)
    requires t != "" && t[0] == '-' && ParseNat(t[1..]) == Some((n, rest)) && 0 < n <= 0x8000_0000_0000_0000
    ensures ParseInt(t) == Some((-(n as int), rest))
  {
  }

  lemma PositiveStep(t: string, n: nat, rest: string)
    requires t != "" && t[0] != '-' && ParseNat(t) == Some((n, rest)) && n < 0x1_0000_0000_0000_0000
    ensures ParseInt(t) == Some((n, rest))
  {
  }

  lemma NumberIs(negative: bool, digits: string) returns (k: JsonInt)
    requires NumberOk(negative, digits)
    ensures k == (if negative then -(DigitsValue(digits) as int) else DigitsValue(digits))
    ensures Meaning(Number(negative, digits)) == Num(k)
    ensures SyntaxText(Number(negative, digits)) == (if negative then "-" else "") + digits
  {
    k := Meaning(Number(negative, digits)).n;
  }

  lemma SignedParses(negative: bool, digits: string, n: nat, k: JsonInt, rest: string)
    requires digits != "" && '0' <= digits[0] <= '9' && ParseNat(digits + rest) == Some((n, rest))
    requires if negative then 0 < n <= 0x8000_0000_0000_0000 && k == -(n as int)
             else n < 0x1_0000_0000_0000_0000 && k == n
    ensures ParseInt((if negative then "-" else "") + digits + rest) == Some((k, rest))
  {
    var t := digits + rest;
    if negative {
      Assoc("-", digits, rest);
      assert ("-" + t)[1..] == t;
      NegativeStep("-" + t, n, rest);
    } else {
      assert "" + digits == digits && t[0] == digits[0];
      PositiveStep(t, n, rest);
    }
  }

  lemma NumberParses(negative: bool, digits: string, rest: string)
    requires NumberOk(negative, digits) && Delimits(rest)
    ensures var s := Number(negative, digits);
      ParseInt(SyntaxText(s) + rest) == Some((Meaning(s).n, rest))
  {
    var k := NumberIs(negative, digits);
    NatParses(digits, rest);
    SignedParses(negative, digits, DigitsValue(digits), k, rest);
  }

  lemma NatFound(t: string) returns (digits: string)
    requires ParseNat(t).Some?
    ensures AllDigits(digits) && digits != "" && (|digits| > 1 ==> digits[0] != '0')
    ensures DigitsValue(digits) == ParseNat(t).value.0 && t == digits + ParseNat(t).value.1
  {
    digits := DigitsFound(t);
    DigitsValueIs(digits);
    assert DigitValues(digits)[0] == digits[0] as int - '0' as int;
  }

  lemma NumberFound(t: string) returns (s: Syntax)
    requires ParseInt(t).Some?
    ensures s.Number? && SyntaxOk(s) && Meaning(s) == Num(ParseInt(t).value.0)
    ensures t == SyntaxText(s) + ParseInt(t).value.1
  {
    if t != "" && t[0] == '-' {
      var digits := NatFound(t[1..]);
      s := Number(true, digits);
      assert t == "-" + t[1..];
      Assoc("-", digits, ParseInt(t).value.1);
    } else {
      var digits := NatFound(t);
      s := Number(false, digits);
      assert "" + digits == digits;
    }
  }
}
