/**
 The language of the parser: it accepts exactly the texts of the grammar's trees, each with its
 meaning, up to the merging of repeated keys.
 */
module JsonLanguage {
  import opened Wrappers
  import opened Bytes
  import opened Json
  import opened JsonText
  import opened JsonGrammar
  import opened JsonTokens
  import opened RawJson

  // ----- every tree is read as its meaning -----

  lemma SyntaxStart(s: Syntax, rest: string)
    requires SyntaxOk(s)
    ensures SyntaxText(s) != "" && SkipSpace(SyntaxText(s) + rest) == SyntaxText(s) + rest
    ensures SyntaxText(s)[0] != ']' && SyntaxText(s)[0] != '}'
  {
  }

  lemma WordStep(t: string, word: string, v: Json, rest: string)
    requires SkipSpace(t) == word + rest
    requires word == "null" || word == "true" || word == "false"
    requires v == if word == "null" then Null else Bool(word == "true")
    ensures RawValue(t) == Some((v, rest))
  {
    var u := SkipSpace(t);
    assert word <= u && u[|word|..] == rest;
    assert u[0] == word[0];
  }

  lemma NumberStep(t: string, u: string, n: JsonInt, rest: string)
    requires SkipSpace(t) == u && u != "" && (u[0] == '-' || IsDigit(u[0])) && ParseInt(u) == Some((n, rest))
    ensures RawValue(t) == Some((Num(n), rest))
  {
  }

  lemma TextStep(t: string, u: string, s: string, rest: string)
    requires SkipSpace(t) == u && u != "" && u[0] == '\"' && ParseString(u[1..]) == Some((s, rest))
    ensures RawValue(t) == Some((Str(s), rest))
  {
  }

  lemma ArrayStep(t: string, u: string, w: string)
    requires SkipSpace(t) == u && u != "" && u[0] == '[' && SkipSpace(u[1..]) == w && w != ""
    ensures w[0] == ']' ==> RawValue(t) == Some((Arr([]), w[1..]))
    ensures w[0] != ']' ==> RawValue(t) == RawItems(w, [])
  {
  }

  lemma ObjectStep(t: string, u: string, w: string)
    requires SkipSpace(t) == u && u != "" && u[0] == '{' && SkipSpace(u[1..]) == w && w != ""
    ensures w[0] == '}' ==> RawValue(t) == Some((Obj([]), w[1..]))
    ensures w[0] != '}' ==> RawValue(t) == RawMembers(w, [])
  {
  }

  lemma ItemsStep(t: string, done: seq<Json>, v: Json, u: string, tail: string)
    requires RawValue(t) == Some((v, u)) && SkipSpace(u) == tail && tail != ""
    ensures tail[0] == ']' ==> RawItems(t, done) == Some((Arr(done + [v]), tail[1..]))
    ensures tail[0] == ',' ==> RawItems(t, done) == RawItems(tail[1..], done + [v])
  {
  }

  lemma MemberStep(t: string, u: string, key: string, w: string, x: string, v: Json, rest: string)
    requires SkipSpace(t) == u && u != "" && u[0] == '\"' && ParseString(u[1..]) == Some((key, w))
    requires SkipSpace(w) == x && x != "" && x[0] == ':' && RawValue(x[1..]) == Some((v, rest))
    ensures RawMember(t) == Some((Member(key, v), rest))
  {
  }

  lemma MembersStep(t: string, done: Members, m: Member, u: string, tail: string)
    requires RawMember(t) == Some((m, u)) && SkipSpace(u) == tail && tail != ""
    ensures tail[0] == '}' ==> RawMembers(t, done) == Some((Obj(done + [m]), tail[1..]))
    ensures tail[0] == ',' ==> RawMembers(t, done) == RawMembers(tail[1..], done + [m])
  {
  }

  /** Leading white space is skipped once or twice alike. */
  lemma SkipTwice(t: string)
    ensures RawValue(SkipSpace(t)) == RawValue(t)
    ensures forall done: seq<Json> :: RawItems(SkipSpace(t), done) == RawItems(t, done)
    ensures forall done: Members :: RawMembers(SkipSpace(t), done) == RawMembers(t, done)
  {
    var s := SplitSpace(t);
    RawValueOfSkipped(t);
    assert RawMember(SkipSpace(t)) == RawMember(t);
  }

  lemma RawValueOfSkipped(t: string)
    requires SkipSpace(SkipSpace(t)) == SkipSpace(t)
    ensures RawValue(SkipSpace(t)) == RawValue(t)
  {
    var u := SkipSpace(t);
    if u == "" || (u[0] != '[' && u[0] != '{') {
      assert ParseValue(u) == ParseValue(t);
    }
  }

  lemma {:induction false} SyntaxParses(s: Syntax, rest: string, t: string)
    requires SyntaxOk(s) && Delimits(rest) && SkipSpace(t) == SyntaxText(s) + rest
    ensures RawValue(t) == Some((Meaning(s), rest))
    decreases s, 0
  {
    match s
    case Word(text) => WordStep(t, text, Meaning(s), rest);
    case Number(negative, digits) =>
      NumberParses(negative, digits, rest);
      NumberStep(t, SyntaxText(s) + rest, Meaning(s).n, rest);
    case Text(pieces) =>
      PiecesParse(pieces, rest);
      Assoc("\"", PiecesText(pieces), rest);
      assert SkipSpace(t)[1..] == PiecesText(pieces) + rest;
      TextStep(t, SkipSpace(t), PiecesChars(pieces), rest);
    case Array(gap, items) => ArrayParses(gap, items, rest, t);
    case Object(gap, fields) => ObjectParses(gap, fields, rest, t);
  }

  lemma {:induction false} ArrayParses(gap: string, items: seq<Element>, rest: string, t: string)
    requires SyntaxOk(Array(gap, items)) && Delimits(rest) && SkipSpace(t) == SyntaxText(Array(gap, items)) + rest
    ensures RawValue(t) == Some((Arr(ItemsMeaning(items)), rest))
    decreases items, 4
  {
    var body := if items == [] then gap + "]" else ItemsText(items);
    var u := SkipSpace(t);
    assert u == "[" + body + rest;
    AfterFirst("[", body, rest);
    var w := SkipSpace(u[1..]);
    if items == [] {
      Assoc(gap, "]", rest);
      SkipsSpace(gap, "]" + rest);
      assert w == "]" + rest && w[1..] == rest;
      ArrayStep(t, u, w);
    } else {
      ItemsStart(items, rest);
      ArrayStep(t, u, w);
      SkipTwice(u[1..]);
      ItemsParse(items, [], rest, u[1..]);
      assert [] + ItemsMeaning(items) == ItemsMeaning(items);
    }
  }

  lemma AfterFirst(c: string, body: string, rest: string)
    requires |c| == 1
    ensures (c + body + rest)[0] == c[0] && (c + body + rest)[1..] == body + rest
  {
  }

  lemma ItemsStart(items: seq<Element>, rest: string)
    requires items != [] && ElementOk(items[0])
    ensures SkipSpace(ItemsText(items) + rest) != "" && SkipSpace(ItemsText(items) + rest)[0] != ']'
  {
    var e := items[0];
    var tail := (if |items| == 1 then "]" else "," + ItemsText(items[1..])) + rest;
    ElementLayout(e, tail);
    Assoc(ElementText(e), if |items| == 1 then "]" else "," + ItemsText(items[1..]), rest);
    SkipsSpace(e.before, SyntaxText(e.value) + (e.after + tail));
    SyntaxStart(e.value, e.after + tail);
  }

  lemma ElementLayout(e: Element, tail: string)
    ensures ElementText(e) + tail == e.before + (SyntaxText(e.value) + (e.after + tail))
  {
    Assoc(e.before, SyntaxText(e.value) + e.after, tail);
    Assoc(SyntaxText(e.value), e.after, tail);
  }

  /** What comes after a value inside an array or object: a separator or the closing bracket. */
  predicate Closes(tail: string) {
    tail != "" && (tail[0] == ',' || tail[0] == ']' || tail[0] == '}')
  }

  lemma AfterElement(after: string, tail: string)
    requires IsSpace(after) && Closes(tail)
    ensures Delimits(after + tail) && SkipSpace(after + tail) == tail
  {
    SkipsSpace(after, tail);
    if after != "" {
      assert (after + tail)[..1] == after[..1];
    }
  }

  lemma {:induction false} ElementParses(e: Element, tail: string, t: string)
    requires ElementOk(e) && Closes(tail) && t == ElementText(e) + tail
    ensures RawValue(t) == Some((ElementMeaning(e), e.after + tail)) && SkipSpace(e.after + tail) == tail
    decreases e, 1
  {
    ElementLayout(e, tail);
    AfterElement(e.after, tail);
    SkipsSpace(e.before, SyntaxText(e.value) + (e.after + tail));
    SyntaxStart(e.value, e.after + tail);
    SyntaxParses(e.value, e.after + tail, t);
  }

  lemma FirstThenRest<T>(done: seq<T>, x: T, s: seq<T>)
    ensures done + ([x] + s) == done + [x] + s
    ensures s == [] ==> done + ([x] + s) == done + [x]
  {
  }

  lemma {:induction false} ItemsParse(items: seq<Element>, done: seq<Json>, rest: string, t: string)
    requires items != [] && (forall i | 0 <= i < |items| :: ElementOk(items[i])) && t == ItemsText(items) + rest
    ensures RawItems(t, done) == Some((Arr(done + ItemsMeaning(items)), rest))
    decreases items, 3
  {
    var e, v := items[0], ElementMeaning(items[0]);
    var end := if |items| == 1 then "]" else "," + ItemsText(items[1..]);
    var tail := end + rest;
    Assoc(ElementText(e), end, rest);
    ElementParses(e, tail, t);
    ItemsStep(t, done, v, e.after + tail, tail);
    FirstThenRest(done, v, ItemsMeaning(items[1..]));
    if |items| == 1 {
      assert tail[1..] == rest && items[1..] == [];
    } else {
      AfterFirst(",", ItemsText(items[1..]), rest);
      ItemsParse(items[1..], done + [v], rest, tail[1..]);
    }
  }

  lemma {:induction false} ObjectParses(gap: string, fields: seq<Field>, rest: string, t: string)
    requires SyntaxOk(Object(gap, fields)) && Delimits(rest)
    requires SkipSpace(t) == SyntaxText(Object(gap, fields)) + rest
    ensures RawValue(t) == Some((Obj(FieldsMeaning(fields)), rest))
    decreases fields, 4
  {
    var body := if fields == [] then gap + "}" else FieldsText(fields);
    var u := SkipSpace(t);
    assert u == "{" + body + rest;
    AfterFirst("{", body, rest);
    var w := SkipSpace(u[1..]);
    if fields == [] {
      Assoc(gap, "}", rest);
      SkipsSpace(gap, "}" + rest);
      assert w == "}" + rest && w[1..] == rest;
      ObjectStep(t, u, w);
    } else {
      FieldsStart(fields, rest);
      ObjectStep(t, u, w);
      SkipTwice(u[1..]);
      FieldsParse(fields, [], rest, u[1..]);
      assert [] + FieldsMeaning(fields) == FieldsMeaning(fields);
    }
  }

  /** What follows the opening quote of a key. */
  function FieldBody(f: Field, tail: string): string {
    PiecesText(f.key) + (f.middle + (":" + (ElementText(f.element) + tail)))
  }

  lemma FieldLayout(f: Field, tail: string)
    ensures FieldText(f) + tail == f.before + ("\"" + FieldBody(f, tail))
  {
    var e := ElementText(f.element);
    Assoc(f.before, "\"" + (PiecesText(f.key) + (f.middle + (":" + e))), tail);
    Assoc("\"", PiecesText(f.key) + (f.middle + (":" + e)), tail);
    Assoc(PiecesText(f.key), f.middle + (":" + e), tail);
    Assoc(f.middle, ":" + e, tail);
    Assoc(":", e, tail);
  }

  lemma FieldsStart(fields: seq<Field>, rest: string)
    requires fields != [] && FieldOk(fields[0])
    ensures SkipSpace(FieldsText(fields) + rest) != "" && SkipSpace(FieldsText(fields) + rest)[0] != '}'
  {
    var f := fields[0];
    var end := if |fields| == 1 then "}" else "," + FieldsText(fields[1..]);
    Assoc(FieldText(f), end, rest);
    FieldLayout(f, end + rest);
    SkipsSpace(f.before, "\"" + FieldBody(f, end + rest));
  }

  lemma {:induction false} FieldParses(f: Field, tail: string, t: string)
    requires FieldOk(f) && Closes(tail) && t == FieldText(f) + tail
    ensures RawMember(t) == Some((FieldMeaning(f), f.element.after + tail))
    ensures SkipSpace(f.element.after + tail) == tail
    decreases f, 2
  {
    var value := ElementText(f.element) + tail;
    var x := ":" + value;
    FieldLayout(f, tail);
    var u := "\"" + FieldBody(f, tail);
    SkipsSpace(f.before, u);
    PiecesParse(f.key, f.middle + x);
    SkipsSpace(f.middle, x);
    ElementParses(f.element, tail, value);
    assert u[1..] == FieldBody(f, tail) && x[1..] == value;
    MemberStep(t, u, PiecesChars(f.key), f.middle + x, x, ElementMeaning(f.element), f.element.after + tail);
  }

  lemma {:induction false} FieldsParse(fields: seq<Field>, done: Members, rest: string, t: string)
    requires fields != [] && (forall i | 0 <= i < |fields| :: FieldOk(fields[i])) && t == FieldsText(fields) + rest
    ensures RawMembers(t, done) == Some((Obj(done + FieldsMeaning(fields)), rest))
    decreases fields, 3
  {
    var f := fields[0];
    var m := FieldMeaning(f);
    var end := if |fields| == 1 then "}" else "," + FieldsText(fields[1..]);
    var tail := end + rest;
    Assoc(FieldText(f), end, rest);
    FieldParses(f, tail, t);
    MembersStep(t, done, m, f.element.after + tail, tail);
    FirstThenRest(done, m, FieldsMeaning(fields[1..]));
    if |fields| == 1 {
      assert tail[1..] == rest && fields[1..] == [];
    } else {
      AfterFirst(",", FieldsText(fields[1..]), rest);
      FieldsParse(fields[1..], done + [m], rest, tail[1..]);
    }
  }

  // ----- whatever is read is the text of a tree -----

  lemma {:induction false} SyntaxFound(t: string) returns (s: Syntax)
    requires RawValue(t).Some?
    ensures SyntaxOk(s) && Meaning(s) == RawValue(t).value.0
    ensures SkipSpace(t) == SyntaxText(s) + RawValue(t).value.1
    decreases |t|, 0
  {
    var u := SkipSpace(t);
    if u[0] == '[' {
      s := ArrayFound(t, u);
    } else if u[0] == '{' {
      s := ObjectFound(t, u);
    } else {
      s := ScalarFound(t, u);
    }
  }

  lemma ScalarFound(t: string, u: string) returns (s: Syntax)
    requires RawValue(t).Some? && u == SkipSpace(t) && u != "" && u[0] != '[' && u[0] != '{'
    ensures SyntaxOk(s) && Meaning(s) == RawValue(t).value.0 && u == SyntaxText(s) + RawValue(t).value.1
  {
    assert RawValue(t) == ParseValue(t);
    if u[0] == '\"' {
      var pieces := StringFound(u[1..]);
      s := Text(pieces);
      assert u == "\"" + u[1..];
      Assoc("\"", PiecesText(pieces), RawValue(t).value.1);
    } else if u[0] == 'n' || u[0] == 't' || u[0] == 'f' {
      var word := if u[0] == 'n' then "null" else if u[0] == 't' then "true" else "false";
      s := Word(word);
      assert u == word + u[|word|..];
    } else {
      s := NumberFound(u);
    }
  }

  lemma {:induction false} ArrayFound(t: string, u: string) returns (s: Syntax)
    requires RawValue(t).Some? && u == SkipSpace(t) && u != "" && u[0] == '['
    ensures SyntaxOk(s) && Meaning(s) == RawValue(t).value.0 && u == SyntaxText(s) + RawValue(t).value.1
    decreases |u| - 1, 5
  {
    var rest := RawValue(t).value.1;
    var gap := SplitSpace(u[1..]);
    var w := SkipSpace(u[1..]);
    assert u == "[" + u[1..];
    if w != "" && w[0] == ']' {
      s := Array(gap, []);
      assert w == "]" + rest;
      Assoc(gap, "]", rest);
      Assoc("[", gap + "]", rest);
    } else {
      SkipTwice(u[1..]);
      assert RawValue(t) == RawItems(w, []) == RawItems(u[1..], []);
      var items := ItemsFound(u[1..], []);
      s := Array("", items);
      assert [] + ItemsMeaning(items) == ItemsMeaning(items);
      Assoc("[", ItemsText(items), rest);
    }
  }

  lemma {:induction false} ElementFound(t: string, tail: string) returns (e: Element)
    requires RawValue(t).Some? && tail == SkipSpace(RawValue(t).value.1)
    ensures ElementOk(e) && ElementMeaning(e) == RawValue(t).value.0 && t == ElementText(e) + tail
    decreases |t|, 1
  {
    var u := RawValue(t).value.1;
    var before := SplitSpace(t);
    var s := SyntaxFound(t);
    var after := SplitSpace(u);
    e := Element(before, s, after);
    ElementLayout(e, tail);
  }

  lemma {:induction false} ItemsFound(t: string, done: seq<Json>) returns (items: seq<Element>)
    requires RawItems(t, done).Some?
    ensures items != [] && (forall i | 0 <= i < |items| :: ElementOk(items[i]))
    ensures RawItems(t, done).value.0 == Arr(done + ItemsMeaning(items))
    ensures t == ItemsText(items) + RawItems(t, done).value.1
    decreases |t|, 2
  {
    var (v, u) := RawValue(t).value;
    var rest := RawItems(t, done).value.1;
    var tail := SkipSpace(u);
    var e := ElementFound(t, tail);
    if tail[0] == ',' {
      var more := ItemsFound(tail[1..], done + [v]);
      items := [e] + more;
      assert items[1..] == more && tail == "," + tail[1..];
      FirstThenRest(done, v, ItemsMeaning(more));
      Assoc(",", ItemsText(more), rest);
      Assoc(ElementText(e), "," + ItemsText(more), rest);
    } else {
      items := [e];
      assert items[1..] == [] && tail == "]" + rest;
      FirstThenRest(done, v, ItemsMeaning(items[1..]));
      Assoc(ElementText(e), "]", rest);
    }
  }

  lemma {:induction false} ObjectFound(t: string, u: string) returns (s: Syntax)
    requires RawValue(t).Some? && u == SkipSpace(t) && u != "" && u[0] == '{'
    ensures SyntaxOk(s) && Meaning(s) == RawValue(t).value.0 && u == SyntaxText(s) + RawValue(t).value.1
    decreases |u| - 1, 5
  {
    var rest := RawValue(t).value.1;
    var gap := SplitSpace(u[1..]);
    var w := SkipSpace(u[1..]);
    assert u == "{" + u[1..];
    if w != "" && w[0] == '}' {
      s := Object(gap, []);
      assert w == "}" + rest;
      Assoc(gap, "}", rest);
      Assoc("{", gap + "}", rest);
    } else {
      SkipTwice(u[1..]);
      assert RawValue(t) == RawMembers(w, []) == RawMembers(u[1..], []);
      var fields := FieldsFound(u[1..], []);
      s := Object("", fields);
      assert [] + FieldsMeaning(fields) == FieldsMeaning(fields);
      Assoc("{", FieldsText(fields), rest);
    }
  }

  /** A member that was read, up to the text of its value. */
  lemma KeyFound(t: string) returns (before: string, key: seq<Piece>, middle: string, value: string)
    requires RawMember(t).Some?
    ensures IsSpace(before) && PiecesOk(key) && IsSpace(middle) && |value| < |t|
    ensures t == before + ("\"" + (PiecesText(key) + (middle + (":" + value))))
    ensures RawValue(value).Some?
    ensures RawMember(t) == Some((Member(PiecesChars(key), RawValue(value).value.0), RawValue(value).value.1))
  {
    before := SplitSpace(t);
    var u := SkipSpace(t);
    key := StringFound(u[1..]);
    var w := ParseString(u[1..]).value.1;
    middle := SplitSpace(w);
    var x := SkipSpace(w);
    value := x[1..];
    assert u == "\"" + u[1..] && x == ":" + value;
  }

  lemma {:induction false} FieldFound(t: string, tail: string) returns (f: Field)
    requires RawMember(t).Some? && tail == SkipSpace(RawMember(t).value.1)
    ensures FieldOk(f) && FieldMeaning(f) == RawMember(t).value.0 && t == FieldText(f) + tail
    decreases |t|, 2
  {
    var before, key, middle, value := KeyFound(t);
    var e := ElementFound(value, tail);
    f := Field(before, key, middle, e);
    FieldLayout(f, tail);
  }

  lemma {:induction false} FieldsFound(t: string, done: Members) returns (fields: seq<Field>)
    requires RawMembers(t, done).Some?
    ensures fields != [] && (forall i | 0 <= i < |fields| :: FieldOk(fields[i]))
    ensures RawMembers(t, done).value.0 == Obj(done + FieldsMeaning(fields))
    ensures t == FieldsText(fields) + RawMembers(t, done).value.1
    decreases |t|, 3
  {
    var (m, u) := RawMember(t).value;
    var rest := RawMembers(t, done).value.1;
    var tail := SkipSpace(u);
    var f := FieldFound(t, tail);
    if tail[0] == ',' {
      var more := FieldsFound(tail[1..], done + [m]);
      fields := [f] + more;
      assert fields[1..] == more && tail == "," + tail[1..];
      FirstThenRest(done, m, FieldsMeaning(more));
      Assoc(",", FieldsText(more), rest);
      Assoc(FieldText(f), "," + FieldsText(more), rest);
    } else {
      fields := [f];
      assert fields[1..] == [] && tail == "}" + rest;
      FirstThenRest(done, m, FieldsMeaning(fields[1..]));
      Assoc(FieldText(f), "}", rest);
    }
  }

  // ----- the language of the parser -----

  /** t is a tree's text with white space around it, and v the tree's meaning. */
  ghost predicate Denotes(t: string, v: Json) {
    exists e: Element :: ElementOk(e) && ElementText(e) == t && ElementMeaning(e) == v
  }

  /** The texts that can be read, and as what, are exactly those of the grammar. */
  lemma RawParseIff(t: string, v: Json)
    ensures RawParse(t) == Some(v) <==> Denotes(t, v)
  {
    if RawParse(t) == Some(v) {
      var e := ElementFound(t, "");
      assert ElementText(e) + "" == ElementText(e);
      assert Denotes(t, v);
    }
    if e: Element :| ElementOk(e) && ElementText(e) == t && ElementMeaning(e) == v {
      WholeText(e);
    }
  }

  lemma WholeText(e: Element)
    requires ElementOk(e)
    ensures RawParse(ElementText(e)) == Some(ElementMeaning(e))
  {
    SkipsSpace(e.before, SyntaxText(e.value) + e.after);
    SyntaxStart(e.value, e.after);
    if e.after != "" {
      assert Delimits(e.after);
    }
    SyntaxParses(e.value, e.after, ElementText(e));
    SkipsSpace(e.after, "");
    assert e.after + "" == e.after;
  }

  /** What the parser accepts: every text of the grammar, and nothing else, with repeated keys merged. */
  lemma ParseIff(t: string, v: Json)
    ensures Parse(t) == Some(v) <==> exists raw: Json :: Denotes(t, raw) && Merged(raw, v)
  {
    RepeatedKeysInText(t, v);
    if Parse(t) == Some(v) {
      RawParseIff(t, RawParse(t).value);
    }
    if raw: Json :| Denotes(t, raw) && Merged(raw, v) {
      RawParseIff(t, raw);
    }
  }
}
