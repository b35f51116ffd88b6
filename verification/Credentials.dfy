/** src/lib.rs: key generation, issuing and verifying credentials and presentations. */
module Credentials {
  import opened Wrappers
  import opened Bytes
  import opened Json
  import opened JsonText
  import opened Resolver
  import opened DidDocuments
  import Base58

  /** Ed25519 as the code uses it; verify is false also for bytes that are no curve point. */
  datatype Ed25519 = Ed25519(
    publicKey: Block -> Block,
    sign: (Block, seq<byte>) -> seq<byte>,
    verify: (Block, seq<byte>, seq<byte>) -> bool)
  {
    /** RFC 8032, sections 5.1.6 and 5.1.7: 64-byte signatures that verify under the signer's key. */
    ghost predicate Lawful() {
      forall seed: Block, m: seq<byte> :: |sign(seed, m)| == 64 && verify(publicKey(seed), m, sign(seed, m))
    }
  }

  /** What the code reads from outside: the curve, the HTTP client, the date parser and the clock. */
  datatype World = World(
    ed: Ed25519, fetch: string -> Resolution, timestamp: string -> Option<int>, now: int)

  datatype Verdict = Verdict(valid: bool, error: string)

  const VALID := Verdict(true, "")

  function Invalid(error: string): Verdict {
    Verdict(false, error)
  }

  // ----- signatures -----

  /** The public key bytes of a verification method; empty when there are none to use. */
  function KeyBytes(m: VerificationMethod): seq<byte> {
    if m.publicKeyBase58.Some? then
      match Base58.Decode(m.publicKeyBase58.value)
      case Some(s) => s
      case None => []
    else if m.publicKeyMultibase.Some? && StartsWith(m.publicKeyMultibase.value, "z") then
      match Base58.Decode(m.publicKeyMultibase.value[1..])
      case Some(s) => if IsEd25519Multicodec(s) then s[2..] else []
      case None => []
    else []
  }

  predicate MethodVerifies(ed: Ed25519, m: VerificationMethod, payload: seq<byte>, sig: seq<byte>) {
    |KeyBytes(m)| == 32 && ed.verify(KeyBytes(m), payload, sig)
  }

  predicate SomeMethodVerifies(ed: Ed25519, methods: seq<VerificationMethod>, payload: seq<byte>, sig: seq<byte>) {
    exists i | 0 <= i < |methods| :: MethodVerifies(ed, methods[i], payload, sig)
  }

  function CheckSignature(w: World, payload: seq<byte>, sigHex: string, did: string): Result<(), string> {
    var sig :- HexDecode(sigHex).ToResult("Invalid hex signature");
    if |sig| != 64 then Err("Invalid signature length")
    else
      var resolved := Resolve(did, w.fetch);
      if resolved.Err? then Err("DID resolution failed: " + resolved.error)
      else if SomeMethodVerifies(w.ed, resolved.value.verificationMethod, payload, sig) then Ok(())
      else Err("Signature verification failed")
  }

  method InternalVerifySignature(w: World, payload: seq<byte>, sigHex: string, did: string)
    returns (r: Result<(), string>)
    ensures r == CheckSignature(w, payload, sigHex, did)
  {
    var sig :- HexDecode(sigHex).ToResult("Invalid hex signature");
    if |sig| != 64 {
      return Err("Invalid signature length");
    }
    var resolved := Resolve(did, w.fetch);
    if resolved.Err? {
      return Err("DID resolution failed: " + resolved.error);
    }
    var accepted := TryMethods(w.ed, resolved.value.verificationMethod, payload, sig);
    return if accepted then Ok(()) else Err("Signature verification failed");
  }

  /** The loop over the document's methods: the first key that verifies ends it. */
  method TryMethods(ed: Ed25519, methods: seq<VerificationMethod>, payload: seq<byte>, sig: seq<byte>)
    returns (accepted: bool)
    ensures accepted <==> exists i | 0 <= i < |methods| :: MethodVerifies(ed, methods[i], payload, sig)
  {
    for i := 0 to |methods|
      invariant forall j | 0 <= j < i :: !MethodVerifies(ed, methods[j], payload, sig)
    {
      if MethodVerifies(ed, methods[i], payload, sig) {
        return true;
      }
    }
    return false;
  }

  // ----- verifying -----

  function Fields(doc: Json): Members {
    if doc.Obj? then doc.members else []
  }

  /** The bytes a verifier checks: the document without its proof, printed again. */
  function Payload(doc: Json): seq<byte> {
    Utf8(Print(Obj(SwapRemove(Fields(doc), "proof"))))
  }

  /** An expiry date that parses and has passed; any other value is ignored. */
  predicate Expired(w: World, vc: Json) {
    match vc.TextAt("expirationDate")
    case Some(text) => w.timestamp(text).Some? && w.now > w.timestamp(text).value
    case None => false
  }

  function CheckVc(w: World, vc: Json): Result<(), string> {
    var proof :- vc.ObjectAt("proof").ToResult("Missing proof object");
    var issuer :- vc.TextAt("issuer").ToResult("Missing issuer DID");
    if Expired(w, vc) then Err("VC is expired")
    else
      var sigHex :- Obj(proof).TextAt("proofValue").ToResult("Missing proofValue");
      if CheckSignature(w, Payload(vc), sigHex, issuer).Ok? then Ok(()) else Err("VC Signature Failure")
  }

  method InternalVerifyVc(w: World, vc: Json) returns (r: Result<(), string>)
    ensures r == CheckVc(w, vc)
  {
    var proof :- vc.ObjectAt("proof").ToResult("Missing proof object");
    var issuer :- vc.TextAt("issuer").ToResult("Missing issuer DID");
    var expiry := vc.TextAt("expirationDate");
    if expiry.Some? {
      var time := w.timestamp(expiry.value);
      if time.Some? && w.now > time.value {
        return Err("VC is expired");
      }
    }
    var sigHex :- Obj(proof).TextAt("proofValue").ToResult("Missing proofValue");
    var unsigned := new ObjectMap(Fields(vc));
    unsigned.RemoveEntry("proof");
    var checked := InternalVerifySignature(w, Utf8(Print(Obj(unsigned.members))), sigHex, issuer);
    return if checked.Ok? then Ok(()) else Err("VC Signature Failure");
  }

  function VcVerdict(w: World, text: string): Verdict {
    match Parse(text)
    case None => Invalid("Invalid JSON")
    case Some(vc) => match CheckVc(w, vc) case Ok(_) => VALID case Err(e) => Invalid(e)
  }

  method VerifyVc(w: World, text: string) returns (verdict: Verdict)
    ensures verdict == VcVerdict(w, text)
    ensures verdict.valid <==> Parse(text).Some? && CheckVc(w, Parse(text).value).Ok?
  {
    var vc := Parse(text);
    if vc.None? {
      return Invalid("Invalid JSON");
    }
    var r := InternalVerifyVc(w, vc.value);
    return match r case Ok(_) => VALID case Err(e) => Invalid(e);
  }

  /** The credentials in a presentation: the items of an array, or a single object. */
  function Embedded(vp: Json): Option<seq<Json>> {
    match Get(Fields(vp), "verifiableCredential")
    case Some(Arr(items)) => Some(items)
    case Some(Obj(ms)) => Some([Obj(ms)])
    case _ => None
  }

  function VcErrorText(e: string): string {
    if e == "VC Signature Failure" then e else "VC Verification Failure: " + e
  }

  /** The report for the first credential that fails, if one does. */
  function FirstFailure(w: World, vcs: seq<Json>): Option<string> {
    if vcs == [] then None
    else
      match CheckVc(w, vcs[0])
      case Err(e) => Some(VcErrorText(e))
      case Ok(_) => FirstFailure(w, vcs[1..])
  }

  /** The checks on a presentation that has a proof, in terms of what they read from it. */
  function JudgeVp(w: World, payload: seq<byte>, holder: Option<string>, proofValue: Option<string>,
                   embedded: Option<seq<Json>>)
    : Result<(), string>
  {
    var did :- holder.ToResult("VP is missing holder DID");
    var sigHex :- proofValue.ToResult("VP proof missing proofValue");
    if CheckSignature(w, payload, sigHex, did).Err? then Err("VP Signature Failure")
    else
      var vcs :- embedded.ToResult("VP is missing verifiableCredential");
      match FirstFailure(w, vcs)
      case Some(e) => Err(e)
      case None => Ok(())
  }

  function CheckVp(w: World, vp: Json): Result<(), string> {
    var proof :- vp.ObjectAt("proof").ToResult("VP is missing proof");
    JudgeVp(w, Payload(vp), vp.TextAt("holder"), Obj(proof).TextAt("proofValue"), Embedded(vp))
  }

  function VpVerdict(w: World, text: string): Verdict {
    match Parse(text)
    case None => Invalid("Invalid JSON")
    case Some(vp) => match CheckVp(w, vp) case Ok(_) => VALID case Err(e) => Invalid(e)
  }

  method VerifyVp(w: World, text: string) returns (verdict: Verdict)
    ensures verdict == VpVerdict(w, text)
    ensures verdict.valid <==> Parse(text).Some? && CheckVp(w, Parse(text).value).Ok?
  {
    var parsed := Parse(text);
    if parsed.None? {
      return Invalid("Invalid JSON");
    }
    var vp := parsed.value;
    var proof := vp.ObjectAt("proof");
    if proof.None? {
      return Invalid("VP is missing proof");
    }
    var holder := vp.TextAt("holder");
    if holder.None? {
      return Invalid("VP is missing holder DID");
    }
    var sigHex := Obj(proof.value).TextAt("proofValue");
    if sigHex.None? {
      return Invalid("VP proof missing proofValue");
    }
    var unsigned := new ObjectMap(Fields(vp));
    unsigned.RemoveEntry("proof");
    var signed := InternalVerifySignature(w, Utf8(Print(Obj(unsigned.members))), sigHex.value, holder.value);
    if signed.Err? {
      return Invalid("VP Signature Failure");
    }
    var vcs := Embedded(vp);
    if vcs.None? {
      return Invalid("VP is missing verifiableCredential");
    }
    for i := 0 to |vcs.value|
      invariant FirstFailure(w, vcs.value) == FirstFailure(w, vcs.value[i..])
    {
      var r := InternalVerifyVc(w, vcs.value[i]);
      if r.Err? {
        return Invalid(VcErrorText(r.error));
      }
    }
    return VALID;
  }

  // ----- issuing -----

  /** A base58 private key, decoded into the fixed array the signing key is made from. */
  function SeedOf(keyB58: string): Result<Block, string> {
    var s :- Base58.Decode(keyB58).ToResult("Invalid base58 private key");
    if |s| != 32 then Err("Invalid private key length") else Ok(s)
  }

  function ProofMembers(did: string, sigHex: string): Members {
    [Member("type", Str("Ed25519Signature2018")),
     Member("verificationMethod", Str(did + "#keys-1")),
     Member("proofValue", Str(sigHex))]
  }

  /** What issue_vc signs: the credential with its issuer set. */
  function SignedMembers(credential: Members, did: string): Members {
    Insert(credential, "issuer", Str(did))
  }

  function SignatureHex(ed: Ed25519, seed: Block, ms: Members): string {
    HexEncode(ed.sign(seed, Utf8(Print(Obj(ms)))))
  }

  function IssuedMembers(ed: Ed25519, credential: Members, did: string, seed: Block): Members {
    var signed := SignedMembers(credential, did);
    Insert(signed, "proof", Obj(ProofMembers(did, SignatureHex(ed, seed, signed))))
  }

  function Issued(ed: Ed25519, credentialJson: string, did: string, keyB58: string): Result<string, string> {
    var v :- Parse(credentialJson).ToResult("Invalid credential JSON");
    if !v.Obj? then Err("Credential is not an object")
    else
      var seed :- SeedOf(keyB58);
      Ok(Print(Obj(IssuedMembers(ed, v.members, did, seed))))
  }

  method IssueVc(ed: Ed25519, credentialJson: string, did: string, keyB58: string) returns (r: Result<string, string>)
    ensures r == Issued(ed, credentialJson, did, keyB58)
  {
    var v :- Parse(credentialJson).ToResult("Invalid credential JSON");
    if !v.Obj? {
      return Err("Credential is not an object");
    }
    var vc := new ObjectMap(v.members);
    vc.InsertEntry("issuer", Str(did));
    var seed :- SeedOf(keyB58);
    var sigHex := HexEncode(ed.sign(seed, Utf8(Print(Obj(vc.members)))));
    vc.InsertEntry("proof", Obj(ProofMembers(did, sigHex)));
    return Ok(Print(Obj(vc.members)));
  }

  /** What issue_vp signs: the presentation without a proof. */
  function PresentationMembers(vc: Json, holder: string, challenge: string): Members {
    [Member("@context", Arr([Str("https://www.w3.org/2018/credentials/v1")])),
     Member("type", Arr([Str("VerifiablePresentation")])),
     Member("holder", Str(holder)),
     Member("challenge", Str(challenge)),
     Member("verifiableCredential", Arr([vc]))]
  }

  function PresentedMembers(ed: Ed25519, vc: Json, holder: string, challenge: string, seed: Block): Members {
    var signed := PresentationMembers(vc, holder, challenge);
    Insert(signed, "proof",
      Obj(ProofMembers(holder, SignatureHex(ed, seed, signed)) + [Member("challenge", Str(challenge))]))
  }

  function Presented(ed: Ed25519, vcJson: string, holder: string, challenge: string, keyB58: string)
    : Result<string, string>
  {
    var vc :- Parse(vcJson).ToResult("Invalid VC JSON");
    var seed :- SeedOf(keyB58);
    Ok(Print(Obj(PresentedMembers(ed, vc, holder, challenge, seed))))
  }

  method IssueVp(ed: Ed25519, vcJson: string, holder: string, challenge: string, keyB58: string)
    returns (r: Result<string, string>)
    ensures r == Presented(ed, vcJson, holder, challenge, keyB58)
  {
    var vc :- Parse(vcJson).ToResult("Invalid VC JSON");
    var vp := new ObjectMap(PresentationMembers(vc, holder, challenge));
    var seed :- SeedOf(keyB58);
    var sigHex := HexEncode(ed.sign(seed, Utf8(Print(Obj(vp.members)))));
    vp.InsertEntry("proof", Obj(ProofMembers(holder, sigHex) + [Member("challenge", Str(challenge))]));
    return Ok(Print(Obj(vp.members)));
  }

  // ----- generating -----

  function IdentityMembers(did: string, seed: Block): Members {
    [Member("did", Str(did)), Member("private_key_base58", Str(Base58.Encode(seed)))]
  }

  /** The domain of a `web:` or `did:web:` request. */
  function WebDomain(request: string): Option<string> {
    if StartsWith(request, "web:") then Some(request[|"web:"|..])
    else if StartsWith(request, "did:web:") then Some(request[|"did:web:"|..])
    else None
  }

  /** generate_did with the random seed as a parameter. */
  function GenerateDid(ed: Ed25519, request: string, seed: Block): Result<string, string> {
    var key := ed.publicKey(seed);
    match WebDomain(request)
    case Some(domain) =>
      if domain == "" then Err("did:web requires a domain, e.g. 'web:example.com'")
      else
        var did := "did:web:" + domain;
        Ok(Print(Obj(IdentityMembers(did, seed) + [Member("did_document", DocumentJson(DocumentFor(did, key)))])))
    case None =>
      Ok(Print(Obj(IdentityMembers(DidKey(key), seed))))
  }
}
