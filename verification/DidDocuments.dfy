/** DID documents as JSON, as serde derives it for the structs of src/resolver.rs, and resolve_did. */
module DidDocuments {
  import opened Wrappers
  import opened Bytes
  import opened Json
  import opened JsonText
  import opened Resolver
  import JsonRoundTrip

  function OptionalText(t: Option<string>): Json {
    match t case Some(s) => Str(s) case None => Null
  }

  function MethodJson(m: VerificationMethod): Json {
    Obj([Member("id", Str(m.id)), Member("type", Str(m.kind)), Member("controller", Str(m.controller)),
         Member("publicKeyBase58", OptionalText(m.publicKeyBase58)),
         Member("publicKeyMultibase", OptionalText(m.publicKeyMultibase))])
  }

  function MethodsJson(methods: seq<VerificationMethod>): (items: seq<Json>) {
    if methods == [] then [] else [MethodJson(methods[0])] + MethodsJson(methods[1..])
  }

  function DocumentJson(d: DidDocument): Json {
    Obj([Member("id", Str(d.id)), Member("verificationMethod", Arr(MethodsJson(d.verificationMethod)))])
  }

  /** An optional field: absent or null is None, anything but text is an error. */
  function ReadOptional(v: Json, key: string): Option<Option<string>>
    requires v.Obj?
  {
    match Get(v.members, key)
    case None => Some(None)
    case Some(Null) => Some(None)
    case Some(Str(s)) => Some(Some(s))
    case _ => None
  }

  function ReadMethod(v: Json): Option<VerificationMethod> {
    var id :- v.TextAt("id");
    var kind :- v.TextAt("type");
    var controller :- v.TextAt("controller");
    var base58 :- ReadOptional(v, "publicKeyBase58");
    var multibase :- ReadOptional(v, "publicKeyMultibase");
    Some(VerificationMethod(id, kind, controller, base58, multibase))
  }

  function ReadMethods(items: seq<Json>): Option<seq<VerificationMethod>> {
    if items == [] then Some([])
    else
      var first :- ReadMethod(items[0]);
      var rest :- ReadMethods(items[1..]);
      Some([first] + rest)
  }

  /** Deserialising a document; a missing list of methods is the empty list. */
  function ReadDocument(v: Json): Option<DidDocument> {
    var id :- v.TextAt("id");
    match Get(v.members, "verificationMethod")
    case None => Some(DidDocument(id, []))
    case Some(Arr(items)) =>
      var methods :- ReadMethods(items);
      Some(DidDocument(id, methods))
    case _ => None
  }

  /** resolve_did: the document, or an object with the error, as text. */
  function ResolveDid(did: string, fetch: string -> Resolution): string {
    match Resolve(did, fetch)
    case Ok(doc) => Print(DocumentJson(doc))
    case Err(e) => Print(Obj([Member("error", Str(e))]))
  }

  lemma MethodRoundTrip(m: VerificationMethod)
    ensures Valid(MethodJson(m)) && ReadMethod(MethodJson(m)) == Some(m)
  {
    var ms := MethodJson(m).members;
    assert |ms[0].key| == 2 && |ms[1].key| == 4 && |ms[2].key| == 10 && |ms[3].key| == 15 && |ms[4].key| == 18;
    FieldsByLength(ms);
    assert forall i | 0 <= i < |ms| :: Get(ms, ms[i].key) == Some(ms[i].value);
    ReadsFields(ms, m);
  }

  lemma ReadsFields(ms: Members, m: VerificationMethod)
    requires Get(ms, "id") == Some(Str(m.id)) && Get(ms, "type") == Some(Str(m.kind))
    requires Get(ms, "controller") == Some(Str(m.controller))
    requires Get(ms, "publicKeyBase58") == Some(OptionalText(m.publicKeyBase58))
    requires Get(ms, "publicKeyMultibase") == Some(OptionalText(m.publicKeyMultibase))
    ensures ReadMethod(Obj(ms)) == Some(m)
  {
  }

  /** Members whose keys have different lengths are found where they are. */
  lemma FieldsByLength(ms: Members)
    requires forall i, j | 0 <= i < j < |ms| :: |ms[i].key| != |ms[j].key|
    ensures DistinctKeys(ms)
    ensures forall i | 0 <= i < |ms| :: Get(ms, ms[i].key) == Some(ms[i].value)
  {
    forall i | 0 <= i < |ms| ensures Get(ms, ms[i].key) == Some(ms[i].value) {
      IndexIsUnique(ms, i);
    }
  }

  lemma {:induction false} MethodsRoundTrip(methods: seq<VerificationMethod>)
    ensures Valid(Arr(MethodsJson(methods))) && ReadMethods(MethodsJson(methods)) == Some(methods)
  {
    if methods != [] {
      MethodRoundTrip(methods[0]);
      MethodsRoundTrip(methods[1..]);
      var items := MethodsJson(methods);
      assert items[1..] == MethodsJson(methods[1..]);
      assert forall i | 0 < i < |items| :: items[i] == MethodsJson(methods[1..])[i - 1];
      assert methods == [methods[0]] + methods[1..];
    }
  }

  /** Every document survives being written as JSON and read back. */
  lemma DocumentRoundTrip(d: DidDocument)
    ensures Valid(DocumentJson(d)) && ReadDocument(DocumentJson(d)) == Some(d)
    ensures Parse(Print(DocumentJson(d))) == Some(DocumentJson(d))
  {
    var ms := DocumentJson(d).members;
    assert |ms[0].key| == 2 && |ms[1].key| == 18;
    FieldsByLength(ms);
    MethodsRoundTrip(d.verificationMethod);
    JsonRoundTrip.RoundTrip(DocumentJson(d));
  }

  /** The text of an optional field. */
  predicate IsOptional(v: Json, t: Option<string>) {
    v == if t.Some? then Str(t.value) else Null
  }

  /** Every method is an object with exactly these members, absent texts as null. */
  lemma {:induction false} DocumentMembers(d: DidDocument, i: nat)
    requires i < |d.verificationMethod|
    ensures var methods := d.verificationMethod;
      && DocumentJson(d) == Obj([Member("id", Str(d.id)), Member("verificationMethod", Arr(MethodsJson(methods)))])
      && |MethodsJson(methods)| == |methods|
      && exists base58: Json, multibase: Json ::
           && IsOptional(base58, methods[i].publicKeyBase58) && IsOptional(multibase, methods[i].publicKeyMultibase)
           && MethodsJson(methods)[i] == Obj([
                Member("id", Str(methods[i].id)), Member("type", Str(methods[i].kind)),
                Member("controller", Str(methods[i].controller)),
                Member("publicKeyBase58", base58), Member("publicKeyMultibase", multibase)])
    decreases |d.verificationMethod|
  {
    var m := d.verificationMethod[i];
    assert IsOptional(OptionalText(m.publicKeyBase58), m.publicKeyBase58);
    assert IsOptional(OptionalText(m.publicKeyMultibase), m.publicKeyMultibase);
    if i > 0 {
      DocumentMembers(DidDocument(d.id, d.verificationMethod[1..]), i - 1);
    } else if |d.verificationMethod| > 1 {
      DocumentMembers(DidDocument(d.id, d.verificationMethod[1..]), 0);
    }
  }

  /** An optional field: absent, null, or text. */
  predicate HasOptional(ms: Members, key: string, t: Option<string>) {
    match t
    case Some(s) => Get(ms, key) == Some(Str(s))
    case None => Get(ms, key) == None || Get(ms, key) == Some(Null)
  }

  lemma TextAtIs(v: Json, key: string, t: string)
    ensures v.TextAt(key) == Some(t) <==> v.Obj? && Get(v.members, key) == Some(Str(t))
  {
  }

  lemma OptionalIs(v: Json, key: string, t: Option<string>)
    requires v.Obj?
    ensures ReadOptional(v, key) == Some(t) <==> HasOptional(v.members, key, t)
  {
  }

  /** What a fetched document must look like: three texts, two optional ones, and anything else besides. */
  lemma ReadMethodIff(v: Json, m: VerificationMethod)
    ensures ReadMethod(v) == Some(m) <==>
      && v.Obj? && Get(v.members, "id") == Some(Str(m.id)) && Get(v.members, "type") == Some(Str(m.kind))
      && Get(v.members, "controller") == Some(Str(m.controller))
      && HasOptional(v.members, "publicKeyBase58", m.publicKeyBase58)
      && HasOptional(v.members, "publicKeyMultibase", m.publicKeyMultibase)
  {
    TextAtIs(v, "id", m.id);
    TextAtIs(v, "type", m.kind);
    TextAtIs(v, "controller", m.controller);
    if v.Obj? {
      OptionalIs(v, "publicKeyBase58", m.publicKeyBase58);
      OptionalIs(v, "publicKeyMultibase", m.publicKeyMultibase);
    }
  }

  lemma {:induction false} ReadMethodsIff(items: seq<Json>, methods: seq<VerificationMethod>)
    ensures ReadMethods(items) == Some(methods) <==>
      |items| == |methods| && forall i | 0 <= i < |items| :: ReadMethod(items[i]) == Some(methods[i])
  {
    if items != [] && methods != [] {
      ReadMethodsIff(items[1..], methods[1..]);
      assert methods == [methods[0]] + methods[1..];
      if |items| == |methods| {
        assert forall i | 0 < i < |items| :: items[i] == items[1..][i - 1] && methods[i] == methods[1..][i - 1];
      }
      ReadMethodsStep(items, methods);
    }
  }

  lemma ReadMethodsStep(items: seq<Json>, methods: seq<VerificationMethod>)
    requires items != [] && methods != []
    ensures ReadMethods(items) == Some(methods) <==>
      ReadMethod(items[0]) == Some(methods[0]) && ReadMethods(items[1..]) == Some(methods[1..])
  {
    assert methods == [methods[0]] + methods[1..];
  }

  /** A missing list of methods is the empty list. */
  lemma ReadDocumentIff(v: Json, d: DidDocument)
    ensures ReadDocument(v) == Some(d) <==>
      && v.Obj? && Get(v.members, "id") == Some(Str(d.id))
      && match Get(v.members, "verificationMethod")
         case None => d.verificationMethod == []
         case Some(Arr(items)) => ReadMethods(items) == Some(d.verificationMethod)
         case _ => false
  {
  }

  /** resolve_did's two kinds of answer. */
  lemma ResolveDidText(did: string, fetch: string -> Resolution)
    ensures Resolve(did, fetch).Ok? ==>
      && ResolveDid(did, fetch) == Print(DocumentJson(Resolve(did, fetch).value))
      && Parse(ResolveDid(did, fetch)).Some?
      && ReadDocument(Parse(ResolveDid(did, fetch)).value) == Some(Resolve(did, fetch).value)
    ensures Resolve(did, fetch).Err? ==>
      ResolveDid(did, fetch) == Print(Obj([Member("error", Str(Resolve(did, fetch).error))]))
  {
    if Resolve(did, fetch).Ok? {
      DocumentRoundTrip(Resolve(did, fetch).value);
    }
  }

  /** What resolve_did prints for the DID of a key is that key's document. */
  lemma ResolveDidOfKey(key: Block, fetch: string -> Resolution)
    ensures var v := Parse(ResolveDid(DidKey(key), fetch)); v.Some? && ReadDocument(v.value) == Some(KeyDocument(key))
  {
    ResolvesDidKey(key);
    assert DidKey(key)[..8] == "did:key:";
    DocumentRoundTrip(KeyDocument(key));
  }
}
