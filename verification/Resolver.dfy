/** DID resolution: did:key decoded locally, did:web through a URL, other methods refused. */
module Resolver {
  import opened Wrappers
  import opened Bytes
  import Base58

  datatype VerificationMethod = VerificationMethod(
    id: string, kind: string, controller: string,
    publicKeyBase58: Option<string>, publicKeyMultibase: Option<string>)

  datatype DidDocument = DidDocument(id: string, verificationMethod: seq<VerificationMethod>)

  type Resolution = Result<DidDocument, string>

  const MULTICODEC: seq<byte> := [0xED, 0x01]

  predicate StartsWith(t: string, prefix: string) {
    prefix <= t
  }

  /** `z` and the base58 text of the multicodec prefix and the key: ed25519_multibase. */
  function Multibase(key: seq<byte>): string {
    "z" + Base58.Encode(MULTICODEC + key)
  }

  function DidKey(key: seq<byte>): string {
    "did:key:" + Multibase(key)
  }

  predicate IsEd25519Multicodec(s: seq<byte>) {
    |s| == 34 && s[0] == 0xED && s[1] == 0x01
  }

  /** KeyResolver::resolve. */
  function ResolveKey(did: string): Resolution {
    if !StartsWith(did, "did:key:z") then Err("Invalid did:key format")
    else
      var multibase := did[|"did:key:"|..];
      if multibase[0] != 'z' then Err("Only base58btc (z) is supported for did:key")
      else
        var decoded :- Base58.Decode(multibase[1..]).ToResult("bs58");
        if !IsEd25519Multicodec(decoded) then Err("Only Ed25519 keys are supported")
        else
          Ok(DidDocument(did, [VerificationMethod(
            did + "#keys-1", "Ed25519VerificationKey2018", did,
            Some(Base58.Encode(decoded[2..])), Some(multibase))]))
  }

  /** str::split(':'), which never returns an empty list. */
  function SplitColons(t: string): (parts: seq<string>)
    ensures |parts| >= 1
  {
    if t == "" then [""]
    else
      var rest := SplitColons(t[1..]);
      if t[0] == ':' then [""] + rest else [[t[0]] + rest[0]] + rest[1..]
  }

  function JoinSlashes(parts: seq<string>): string {
    if parts == [] then "" else if |parts| == 1 then parts[0] else parts[0] + "/" + JoinSlashes(parts[1..])
  }

  /** build_did_web_url. Its branch for an empty list of parts is omitted: SplitColons is never empty. */
  function BuildDidWebUrl(did: string): Result<string, string> {
    if !StartsWith(did, "did:web:") then Err("Not a did:web")
    else
      var parts := SplitColons(did[|"did:web:"|..]);
      var domain := parts[0];
      if |parts| == 1 then Ok("https://" + domain + "/.well-known/did.json")
      else Ok("https://" + domain + "/" + JoinSlashes(parts[1..]) + "/did.json")
  }

  /** The dispatch on the DID method; fetch stands for the HTTP client. */
  function Resolve(did: string, fetch: string -> Resolution): Resolution {
    if StartsWith(did, "did:key:") then ResolveKey(did)
    else if StartsWith(did, "did:web:") then
      var url :- BuildDidWebUrl(did);
      fetch(url)
    else if StartsWith(did, "did:ipfs:") then Err("IPFS resolution is not yet implemented for: " + did)
    else Err("Unsupported DID method: " + did)
  }

  // ----- did:key is a bijection between 32-byte keys and accepted strings -----

  /** A document with one method, which carries the base58 and the multibase text of a key. */
  function DocumentFor(did: string, key: seq<byte>): DidDocument {
    DidDocument(did, [VerificationMethod(
      did + "#keys-1", "Ed25519VerificationKey2018", did, Some(Base58.Encode(key)), Some(Multibase(key)))])
  }

  function KeyDocument(key: seq<byte>): DidDocument {
    DocumentFor(DidKey(key), key)
  }

  lemma ResolvesDidKey(key: Block)
    ensures ResolveKey(DidKey(key)) == Ok(KeyDocument(key))
  {
    var did := DidKey(key);
    assert did[|"did:key:"|..] == Multibase(key);
    assert StartsWith(did, "did:key:z") by {
      assert did[..9] == "did:key:z";
    }
    assert Multibase(key)[1..] == Base58.Encode(MULTICODEC + key);
    Base58.DecodeOfEncode(MULTICODEC + key);
    assert (MULTICODEC + key)[2..] == key;
  }

  /** Every string the did:key resolver accepts is the DID of the key it holds. */
  lemma AcceptedDidKeyIsCanonical(did: string)
    requires ResolveKey(did).Ok?
    ensures exists key: Block :: did == DidKey(key) && ResolveKey(did) == Ok(KeyDocument(key))
  {
    var multibase := did[|"did:key:"|..];
    var text := multibase[1..];
    var decoded := Base58.Decode(text).value;
    var key: Block := decoded[2..];
    Base58.EncodeOfDecode(text);
    assert decoded == MULTICODEC + key;
    assert multibase == "z" + text;
    assert did == "did:key:" + multibase;
    assert did == DidKey(key);
    ResolvesDidKey(key);
  }

  lemma DidKeyInjective(k: Block, l: Block)
    requires DidKey(k) == DidKey(l)
    ensures k == l
  {
    ResolvesDidKey(k);
    ResolvesDidKey(l);
    Base58.DecodeOfEncode(k);
    Base58.DecodeOfEncode(l);
  }

  /** The document of a did:key, spelled out. */
  lemma KeyDocumentIs(key: Block, did: string)
    requires did == "did:key:z" + Base58.Encode([0xED, 0x01] + key)
    ensures did == DidKey(key)
    ensures KeyDocument(key) == DidDocument(did, [VerificationMethod(
      did + "#keys-1", "Ed25519VerificationKey2018", did,
      Some(Base58.Encode(key)), Some("z" + Base58.Encode([0xED, 0x01] + key)))])
  {
    assert did == "did:key:" + ("z" + Base58.Encode([0xED, 0x01] + key));
  }

  /** Exactly which did:key strings resolve, and to what, without a network. */
  lemma ResolveKeyIff(did: string, doc: DidDocument, fetch: string -> Resolution)
    requires "did:key:" <= did
    ensures Resolve(did, fetch) == Ok(doc) <==>
      exists key: Block :: did == "did:key:z" + Base58.Encode([0xED, 0x01] + key) && doc == KeyDocument(key)
    ensures !("did:key:z" <= did) ==> Resolve(did, fetch) == Err("Invalid did:key format")
    ensures Resolve(did, fetch).Err? && "did:key:z" <= did && Base58.Decode(did[9..]).Some? ==>
      Resolve(did, fetch) == Err("Only Ed25519 keys are supported")
  {
    if Resolve(did, fetch) == Ok(doc) {
      AcceptedDidKeyIsCanonical(did);
      var key: Block :| did == DidKey(key) && ResolveKey(did) == Ok(KeyDocument(key));
      DidKeyText(key);
    }
    forall key: Block | did == "did:key:z" + Base58.Encode([0xED, 0x01] + key)
      ensures Resolve(did, fetch) == Ok(KeyDocument(key))
    {
      KeyDocumentIs(key, did);
      ResolvesDidKey(key);
    }
    if "did:key:z" <= did {
      assert did[8..][1..] == did[9..];
    }
  }

  lemma DidKeyText(key: Block)
    ensures DidKey(key) == "did:key:z" + Base58.Encode([0xED, 0x01] + key)
  {
    assert DidKey(key) == "did:key:" + ("z" + Base58.Encode([0xED, 0x01] + key));
  }

  /** The other methods: did:web asks the network for one URL, everything else is an error. */
  lemma ResolveOthers(did: string, fetch: string -> Resolution)
    ensures "did:web:" <= did ==>
      var t := did[8..];
      Resolve(did, fetch) == fetch("https://" + (if ':' in t then Slashes(t) else t + "/.well-known") + "/did.json")
    ensures "did:ipfs:" <= did ==>
      Resolve(did, fetch) == Err("IPFS resolution is not yet implemented for: " + did)
    ensures !("did:key:" <= did) && !("did:web:" <= did) && !("did:ipfs:" <= did) ==>
      Resolve(did, fetch) == Err("Unsupported DID method: " + did)
    ensures !("did:web:" <= did) ==> BuildDidWebUrl(did) == Err("Not a did:web")
  {
    if "did:web:" <= did {
      UrlText(did[8..]);
      assert did == "did:web:" + did[8..];
      assert did[4] == 'w';
    }
    if "did:ipfs:" <= did {
      assert did[4] == 'i';
    }
  }

  // ----- did:web -----

  /** The text with every colon turned into a slash. */
  function Slashes(t: string): (r: string)
    ensures |r| == |t|
    ensures forall i | 0 <= i < |t| :: r[i] == if t[i] == ':' then '/' else t[i]
  {
    if t == "" then "" else [if t[0] == ':' then '/' else t[0]] + Slashes(t[1..])
  }

  lemma PrependToFirst(c: char, rest: seq<string>)
    requires rest != []
    ensures JoinSlashes([[c] + rest[0]] + rest[1..]) == [c] + JoinSlashes(rest)
  {
    var parts := [[c] + rest[0]] + rest[1..];
    assert parts[1..] == rest[1..];
    if |rest| > 1 {
      assert JoinSlashes(parts) == [c] + rest[0] + "/" + JoinSlashes(rest[1..]);
    }
  }

  lemma {:induction false} JoinOfSplit(t: string)
    ensures JoinSlashes(SplitColons(t)) == Slashes(t)
  {
    if t != "" {
      JoinOfSplit(t[1..]);
      var rest := SplitColons(t[1..]);
      if t[0] == ':' {
        assert ([""] + rest)[1..] == rest;
        assert "" + "/" + JoinSlashes(rest) == "/" + JoinSlashes(rest);
      } else {
        PrependToFirst(t[0], rest);
      }
    }
  }

  lemma {:induction false} OnePart(t: string)
    ensures |SplitColons(t)| == 1 <==> ':' !in t
    ensures |SplitColons(t)| == 1 ==> SplitColons(t)[0] == t
  {
    if t != "" {
      OnePart(t[1..]);
      assert t == [t[0]] + t[1..];
      assert ':' in t <==> t[0] == ':' || ':' in t[1..];
    }
  }

  lemma Between(a: string, b: string, c: string, d: string)
    ensures a + b + c + d == a + (b + c) + d
  {
    assert a + b + c == a + (b + c);
  }

  /** The URL of a did:web string, without splitting and joining. */
  lemma UrlText(t: string)
    ensures BuildDidWebUrl("did:web:" + t) ==
      Ok("https://" + (if ':' in t then Slashes(t) else t + "/.well-known") + "/did.json")
  {
    var did := "did:web:" + t;
    assert did[|"did:web:"|..] == t;
    JoinOfSplit(t);
    OnePart(t);
    var parts := SplitColons(t);
    if |parts| > 1 {
      JoinOfMany(parts);
    } else {
      assert "/.well-known/did.json" == "/.well-known" + "/did.json";
      WellKnownText(t);
    }
  }

  lemma JoinOfMany(parts: seq<string>)
    requires |parts| > 1
    ensures "https://" + parts[0] + "/" + JoinSlashes(parts[1..]) + "/did.json"
      == "https://" + JoinSlashes(parts) + "/did.json"
  {
    Between("https://", parts[0] + "/", JoinSlashes(parts[1..]), "/did.json");
    assert "https://" + parts[0] + "/" == "https://" + (parts[0] + "/");
  }

  lemma WellKnownText(t: string)
    ensures "https://" + t + "/.well-known/did.json" == "https://" + (t + "/.well-known") + "/did.json"
  {
    assert "/.well-known/did.json" == "/.well-known" + "/did.json";
    assert "https://" + t + ("/.well-known" + "/did.json") == "https://" + t + "/.well-known" + "/did.json";
    Between("https://", t, "/.well-known", "/did.json");
  }

  lemma {:induction false} SlashesInjective(t: string, u: string)
    requires '/' !in t && '/' !in u && Slashes(t) == Slashes(u)
    ensures t == u
  {
    forall i | 0 <= i < |t| ensures t[i] == u[i] {
      assert Slashes(t)[i] == Slashes(u)[i];
      assert t[i] in t && u[i] in u;
    }
  }

  /** t's bare domain and the single segment `.well-known` name the same document. */
  predicate IsWellKnownOf(t: string, u: string) {
    ':' !in t && u == t + ":.well-known"
  }

  lemma SlashesOfConcat(a: string, b: string)
    ensures Slashes(a + b) == Slashes(a) + Slashes(b)
  {
  }

  lemma SlashesWithoutColon(t: string)
    requires ':' !in t
    ensures Slashes(t) == t
  {
    assert forall i | 0 <= i < |t| :: t[i] in t;
  }

  lemma WellKnownLetter(i: nat)
    requires i < |".well-known"|
    ensures ".well-known"[i] != ':' && ".well-known"[i] != '/'
  {
  }

  lemma WellKnownSegment(seg: string)
    requires seg == ".well-known"
    ensures ":" + seg == ":.well-known" && "/" + seg == "/.well-known"
    ensures ':' !in seg && '/' !in seg
  {
    forall i | 0 <= i < |seg| ensures seg[i] != ':' && seg[i] != '/' {
      WellKnownLetter(i);
    }
  }

  lemma WellKnownCollides(t: string, u: string)
    requires '/' !in t && '/' !in u && ':' !in t && ':' in u
    ensures t + "/.well-known" == Slashes(u) <==> IsWellKnownOf(t, u)
  {
    var seg := ".well-known";
    WellKnownSegment(seg);
    WellKnownPath(t, seg, u);
  }

  lemma WellKnownPath(t: string, seg: string, u: string)
    requires '/' !in t && '/' !in u && ':' !in t && ':' !in seg && '/' !in seg
    ensures t + ("/" + seg) == Slashes(u) <==> u == t + (":" + seg)
  {
    var v := t + (":" + seg);
    SlashesOfConcat(t, ":" + seg);
    SlashesOfConcat(":", seg);
    SlashesWithoutColon(t);
    SlashesWithoutColon(seg);
    assert Slashes(":") == "/";
    if Slashes(v) == Slashes(u) {
      SlashesInjective(v, u);
    }
  }

  /**
   Two did:web strings without slashes share a URL exactly when they are equal or one is the
   other's bare domain with the segment `.well-known`.
   */
  lemma DidWebUrls(t: string, u: string)
    requires '/' !in t && '/' !in u
    ensures BuildDidWebUrl("did:web:" + t) == BuildDidWebUrl("did:web:" + u)
      <==> t == u || IsWellKnownOf(t, u) || IsWellKnownOf(u, t)
  {
    UrlText(t);
    UrlText(u);
    var a := if ':' in t then Slashes(t) else t + "/.well-known";
    var b := if ':' in u then Slashes(u) else u + "/.well-known";
    SamePath(a, b);
    if ':' in t && ':' in u {
      if a == b {
        SlashesInjective(t, u);
      }
    } else if ':' in t {
      WellKnownCollides(u, t);
    } else if ':' in u {
      WellKnownCollides(t, u);
    } else {
      assert a[..|t|] == t && b[..|u|] == u;
    }
  }

  lemma SamePath(a: string, b: string)
    ensures "https://" + a + "/did.json" == "https://" + b + "/did.json" <==> a == b
  {
    var x, y := "https://" + a + "/did.json", "https://" + b + "/did.json";
    if x == y {
      assert x[8..8 + |a|] == a && y[8..8 + |b|] == b;
    }
  }

  /**
   A slash anywhere breaks uniqueness: every did:web string with one shares its URL with another
   string, beyond the pair of a bare domain and its `.well-known` segment.
   */
  lemma SlashSharesUrl(t: string) returns (u: string)
    requires '/' in t
    ensures u != t && BuildDidWebUrl("did:web:" + t) == BuildDidWebUrl("did:web:" + u)
    ensures !IsWellKnownOf(t, u) && !IsWellKnownOf(u, t)
  {
    var k :| 0 <= k < |t| && t[k] == '/';
    var v := t[k := ':'];
    assert v[k] == ':';
    assert Slashes(v) == Slashes(t);
    UrlText(t);
    if ':' in t {
      u := v;
    } else {
      u := AppendWellKnown(t, v, ".well-known");
      assert u[k] == v[k];
    }
    assert ':' in u;
    UrlText(u);
  }

  lemma AppendWellKnown(t: string, v: string, seg: string) returns (u: string)
    requires seg == ".well-known" && ':' !in t && Slashes(v) == Slashes(t)
    ensures u == v + ("/" + seg) && Slashes(u) == t + "/.well-known"
  {
    u := v + ("/" + seg);
    WellKnownSegment(seg);
    SlashesOfConcat(v, "/" + seg);
    SlashesOfConcat("/", seg);
    SlashesWithoutColon(seg);
    SlashesWithoutColon(t);
    assert Slashes("/") == "/";
  }
}
