/** What issuing and verifying guarantee together. */
module CredentialTheorems {
  import opened Wrappers
  import opened Bytes
  import opened Json
  import opened JsonText
  import opened Resolver
  import opened Credentials
  import opened DidDocuments
  import Base58
  import JsonRoundTrip

  /** The assumptions on signatures contradict nothing: a scheme that meets them. */
  lemma LawfulSchemeExists()
    ensures exists ed: Ed25519 :: ed.Lawful()
  {
    var pad: seq<byte> := seq(64, _ => 0);
    var ed := Ed25519((seed: Block) => seed, (seed: Block, m: seq<byte>) => pad,
                      (key: Block, m: seq<byte>, sig: seq<byte>) => true);
    assert ed.Lawful();
  }

  /** The DID's document holds the public key of this seed. */
  ghost predicate Controls(w: World, did: string, seed: Block) {
    && Resolve(did, w.fetch).Ok?
    && var methods := Resolve(did, w.fetch).value.verificationMethod;
       exists i | 0 <= i < |methods| :: KeyBytes(methods[i]) == w.ed.publicKey(seed)
  }

  // ----- keys in documents -----

  /** Both texts of a key give that key, so it does not matter which of them a document carries. */
  lemma BothRoutesAgree(m: VerificationMethod, key: Block)
    requires m.publicKeyBase58 == Some(Base58.Encode(key)) || m.publicKeyBase58.None?
    requires m.publicKeyMultibase == Some(Multibase(key)) || m.publicKeyMultibase.None?
    requires m.publicKeyBase58.Some? || m.publicKeyMultibase.Some?
    ensures KeyBytes(m) == key
  {
    Base58.DecodeOfEncode(key);
    Base58.DecodeOfEncode(MULTICODEC + key);
    assert Multibase(key)[1..] == Base58.Encode(MULTICODEC + key);
    assert (MULTICODEC + key)[2..] == key;
  }

  lemma ResolveOfDidKey(key: Block, fetch: string -> Resolution)
    ensures Resolve(DidKey(key), fetch) == Ok(KeyDocument(key))
  {
    ResolvesDidKey(key);
    assert DidKey(key)[..8] == "did:key:";
  }

  lemma DidKeyControls(w: World, seed: Block)
    ensures Controls(w, DidKey(w.ed.publicKey(seed)), seed)
  {
    var key := w.ed.publicKey(seed);
    ResolveOfDidKey(key, w.fetch);
    BothRoutesAgree(KeyDocument(key).verificationMethod[0], key);
  }

  /** The document generate_did hands out, once it is what the URL of the did:web identity serves. */
  lemma PublishedDidWebControls(w: World, domain: string, seed: Block)
    requires var did := "did:web:" + domain;
      w.fetch(BuildDidWebUrl(did).value) == Ok(DocumentFor(did, w.ed.publicKey(seed)))
    ensures Controls(w, "did:web:" + domain, seed)
  {
    var did := "did:web:" + domain;
    assert did[..8] == "did:web:" && did[4] == 'w';
    assert !StartsWith(did, "did:key:");
    BothRoutesAgree(DocumentFor(did, w.ed.publicKey(seed)).verificationMethod[0], w.ed.publicKey(seed));
  }

  /** For a did:key the whole check is one signature check against the key in the DID. */
  lemma DidKeyCheck(w: World, payload: seq<byte>, sigHex: string, key: Block)
    ensures CheckSignature(w, payload, sigHex, DidKey(key)).Ok? <==>
      HexDecode(sigHex).Some? && |HexDecode(sigHex).value| == 64 && w.ed.verify(key, payload, HexDecode(sigHex).value)
  {
    ResolveOfDidKey(key, w.fetch);
    var methods := KeyDocument(key).verificationMethod;
    BothRoutesAgree(methods[0], key);
    if HexDecode(sigHex).Some? {
      var sig := HexDecode(sigHex).value;
      assert MethodVerifies(w.ed, methods[0], payload, sig) <==> w.ed.verify(key, payload, sig);
      assert SomeMethodVerifies(w.ed, methods, payload, sig) <==> MethodVerifies(w.ed, methods[0], payload, sig);
    }
  }

  lemma OwnSignatureAccepted(w: World, did: string, seed: Block, payload: seq<byte>)
    requires w.ed.Lawful() && Controls(w, did, seed)
    ensures CheckSignature(w, payload, HexEncode(w.ed.sign(seed, payload)), did) == Ok(())
  {
    var sig := w.ed.sign(seed, payload);
    HexRoundTrip(sig);
    var methods := Resolve(did, w.fetch).value.verificationMethod;
    var i :| 0 <= i < |methods| && KeyBytes(methods[i]) == w.ed.publicKey(seed);
    assert |sig| == 64 && MethodVerifies(w.ed, methods[i], payload, sig);
  }

  lemma SeedRoundTrip(seed: Block)
    ensures SeedOf(Base58.Encode(seed)) == Ok(seed)
  {
    Base58.DecodeOfEncode(seed);
  }

  /** The private keys that are accepted are exactly the base58 texts of 32-byte seeds. */
  lemma AcceptedKeys(keyB58: string, seed: Block)
    ensures SeedOf(keyB58) == Ok(seed) <==> keyB58 == Base58.Encode(seed)
  {
    SeedRoundTrip(seed);
    if SeedOf(keyB58) == Ok(seed) {
      Base58.EncodeOfDecode(keyB58);
    }
  }

  /** issue_vc succeeds exactly on a JSON object and such a key, and then returns the issued document. */
  lemma IssueSucceedsIff(ed: Ed25519, credential: string, did: string, keyB58: string, vc: string)
    ensures Issued(ed, credential, did, keyB58) == Ok(vc) <==>
      exists ms: Members, seed: Block :: Parse(credential) == Some(Obj(ms)) && keyB58 == Base58.Encode(seed)
        && vc == Print(Obj(IssuedMembers(ed, ms, did, seed)))
  {
    if Issued(ed, credential, did, keyB58) == Ok(vc) {
      var ms, seed := Parse(credential).value.members, SeedOf(keyB58).value;
      AcceptedKeys(keyB58, seed);
      assert vc == Print(Obj(IssuedMembers(ed, ms, did, seed)));
    }
    forall ms: Members, seed: Block | Parse(credential) == Some(Obj(ms)) && keyB58 == Base58.Encode(seed)
        && vc == Print(Obj(IssuedMembers(ed, ms, did, seed)))
      ensures Issued(ed, credential, did, keyB58) == Ok(vc)
    {
      AcceptedKeys(keyB58, seed);
    }
  }

  // ----- removing the proof recovers what was signed -----

  lemma AppendedProofComesOff(ms: Members, proof: Json)
    requires !Has(ms, "proof")
    ensures SwapRemove(Insert(ms, "proof", proof), "proof") == ms
    ensures IndexOf(Insert(ms, "proof", proof), "proof") == |ms|
  {
    var out := Insert(ms, "proof", proof);
    assert out == ms + [Member("proof", proof)];
    assert forall j | 0 <= j < |ms| :: out[j].key == ms[j].key;
    assert out[|ms|].key == "proof";
    assert IndexOf(out, "proof") == |ms|;
  }

  lemma ProofMembersValid(did: string, sigHex: string)
    ensures Valid(Obj(ProofMembers(did, sigHex)))
    ensures Obj(ProofMembers(did, sigHex)).TextAt("proofValue") == Some(sigHex)
  {
    IndexIsUnique(ProofMembers(did, sigHex), 2);
  }

  lemma IssuedIsValid(ed: Ed25519, ms: Members, did: string, seed: Block)
    requires Valid(Obj(ms))
    ensures Valid(Obj(SignedMembers(ms, did))) && Valid(Obj(IssuedMembers(ed, ms, did, seed)))
  {
    InsertValid(ms, "issuer", Str(did));
    var signed := SignedMembers(ms, did);
    ProofMembersValid(did, SignatureHex(ed, seed, signed));
    InsertValid(signed, "proof", Obj(ProofMembers(did, SignatureHex(ed, seed, signed))));
  }

  /**
   The verifier rebuilds exactly the bytes that were signed if and only if the credential came
   without a proof member. With one, the bytes always differ.
   */
  lemma VerifierRebuildsSignedBytes(ed: Ed25519, ms: Members, did: string, seed: Block)
    requires Valid(Obj(ms))
    ensures Payload(Obj(IssuedMembers(ed, ms, did, seed))) == Utf8(Print(Obj(SignedMembers(ms, did))))
      <==> !Has(ms, "proof")
  {
    var signed, issued := SignedMembers(ms, did), IssuedMembers(ed, ms, did, seed);
    var proof := Obj(ProofMembers(did, SignatureHex(ed, seed, signed)));
    IssuedIsValid(ed, ms, did, seed);
    GetAfterInsert(ms, "issuer", Str(did), "proof");
    if !Has(ms, "proof") {
      AppendedProofComesOff(signed, proof);
    } else {
      var stripped := SwapRemove(issued, "proof");
      GetAfterSwapRemove(issued, "proof", "proof");
      SwapRemoveValid(issued, "proof");
      if Utf8(Print(Obj(stripped))) == Utf8(Print(Obj(signed))) {
        JsonRoundTrip.PayloadInjective(Obj(stripped), Obj(signed));
      }
    }
  }

  lemma SwapRemoveValid(ms: Members, key: string)
    requires Valid(Obj(ms))
    ensures Valid(Obj(SwapRemove(ms, key)))
  {
    GetAfterSwapRemove(ms, key, key);
  }

  // ----- end to end -----

  lemma IssuedFields(ed: Ed25519, ms: Members, did: string, seed: Block)
    ensures var out := IssuedMembers(ed, ms, did, seed);
      && Get(out, "proof") == Some(Obj(ProofMembers(did, SignatureHex(ed, seed, SignedMembers(ms, did)))))
      && Get(out, "issuer") == Some(Str(did))
      && Get(out, "expirationDate") == Get(ms, "expirationDate")
  {
    var signed := SignedMembers(ms, did);
    var proof := Obj(ProofMembers(did, SignatureHex(ed, seed, signed)));
    GetAfterInsert(signed, "proof", proof, "proof");
    GetAfterInsert(signed, "proof", proof, "issuer");
    GetAfterInsert(signed, "proof", proof, "expirationDate");
    GetAfterInsert(ms, "issuer", Str(did), "issuer");
    GetAfterInsert(ms, "issuer", Str(did), "expirationDate");
  }

  lemma CheckVcOf(w: World, vc: Json, proof: Members, issuer: string, sigHex: string)
    requires vc.Obj? && Get(vc.members, "proof") == Some(Obj(proof)) && Get(vc.members, "issuer") == Some(Str(issuer))
    requires Get(proof, "proofValue") == Some(Str(sigHex))
    ensures CheckVc(w, vc) ==
      if Expired(w, vc) then Err("VC is expired")
      else if CheckSignature(w, Payload(vc), sigHex, issuer).Ok? then Ok(()) else Err("VC Signature Failure")
  {
  }

  lemma CheckVpOf(w: World, vp: Json, proof: Members, holder: string, sigHex: string, vcs: seq<Json>)
    requires vp.Obj? && Get(vp.members, "proof") == Some(Obj(proof)) && Get(vp.members, "holder") == Some(Str(holder))
    requires Get(proof, "proofValue") == Some(Str(sigHex)) && Embedded(vp) == Some(vcs)
    ensures CheckVp(w, vp) ==
      if CheckSignature(w, Payload(vp), sigHex, holder).Err? then Err("VP Signature Failure")
      else match FirstFailure(w, vcs) case Some(e) => Err(e) case None => Ok(())
  {
    assert vp.ObjectAt("proof") == Some(proof) && vp.TextAt("holder") == Some(holder);
    assert Obj(proof).TextAt("proofValue") == Some(sigHex);
  }

  /** The date that the credential carries as text is one that parses, and now is later. */
  predicate PastExpiry(w: World, ms: Members) {
    match Get(ms, "expirationDate")
    case Some(Str(text)) =>
      (match w.timestamp(text)
       case Some(date) => w.now > date
       case None => false)
    case _ => false
  }

  /** An issued credential that has not expired is accepted, and an expired one is reported as such. */
  lemma IssuedVcChecks(w: World, ms: Members, did: string, seed: Block)
    requires w.ed.Lawful() && Valid(Obj(ms)) && !Has(ms, "proof") && Controls(w, did, seed)
    ensures CheckVc(w, Obj(IssuedMembers(w.ed, ms, did, seed)))
      == if PastExpiry(w, ms) then Err("VC is expired") else Ok(())
    ensures CheckVc(w, Obj(IssuedMembers(w.ed, ms, did, seed))) ==
      match Get(ms, "expirationDate")
      case Some(Str(t)) => if w.timestamp(t).Some? && w.now > w.timestamp(t).value then Err("VC is expired") else Ok(())
      case _ => Ok(())
  {
    var signed := SignedMembers(ms, did);
    var sigHex := SignatureHex(w.ed, seed, signed);
    var vc := Obj(IssuedMembers(w.ed, ms, did, seed));
    IssuedFields(w.ed, ms, did, seed);
    ProofMembersValid(did, sigHex);
    CheckVcOf(w, vc, ProofMembers(did, sigHex), did, sigHex);
    IssuedSignatureAccepted(w, ms, did, seed);
    SameExpiry(w, vc, Obj(ms));
  }

  lemma IssuedSignatureAccepted(w: World, ms: Members, did: string, seed: Block)
    requires w.ed.Lawful() && Valid(Obj(ms)) && !Has(ms, "proof") && Controls(w, did, seed)
    ensures CheckSignature(w, Payload(Obj(IssuedMembers(w.ed, ms, did, seed))),
                           SignatureHex(w.ed, seed, SignedMembers(ms, did)), did) == Ok(())
  {
    VerifierRebuildsSignedBytes(w.ed, ms, did, seed);
    OwnSignatureAccepted(w, did, seed, Utf8(Print(Obj(SignedMembers(ms, did)))));
  }

  lemma SameExpiry(w: World, vc: Json, other: Json)
    requires vc.Obj? && other.Obj? && Get(vc.members, "expirationDate") == Get(other.members, "expirationDate")
    ensures Expired(w, vc) == Expired(w, other)
  {
  }

  function PresentationProof(holder: string, challenge: string, sigHex: string): Members {
    ProofMembers(holder, sigHex) + [Member("challenge", Str(challenge))]
  }

  lemma PresentationProofValid(holder: string, challenge: string, sigHex: string)
    ensures Valid(Obj(PresentationProof(holder, challenge, sigHex)))
    ensures Get(PresentationProof(holder, challenge, sigHex), "proofValue") == Some(Str(sigHex))
  {
    IndexIsUnique(PresentationProof(holder, challenge, sigHex), 2);
  }

  lemma DistinctLengths(ms: Members, other: string)
    requires forall i, j | 0 <= i < j < |ms| :: |ms[i].key| != |ms[j].key|
    requires forall i | 0 <= i < |ms| :: |ms[i].key| != |other|
    ensures DistinctKeys(ms) && !Has(ms, other)
  {
  }

  lemma SingletonValid(v: Json)
    requires Valid(v)
    ensures Valid(Arr([v]))
  {
  }

  lemma PresentationKeys(vc: Json, holder: string, challenge: string)
    ensures var ms := PresentationMembers(vc, holder, challenge); DistinctKeys(ms) && !Has(ms, "proof")
  {
    var ms := PresentationMembers(vc, holder, challenge);
    assert |ms[0].key| == 8 && |ms[1].key| == 4 && |ms[2].key| == 6 && |ms[3].key| == 9 && |ms[4].key| == 20;
    DistinctLengths(ms, "proof");
  }

  lemma PresentationValid(vc: Json, holder: string, challenge: string)
    requires Valid(vc)
    ensures var ms := PresentationMembers(vc, holder, challenge);
      && Valid(Obj(ms)) && !Has(ms, "proof")
      && Get(ms, "holder") == Some(Str(holder)) && Get(ms, "verifiableCredential") == Some(Arr([vc]))
  {
    var ms := PresentationMembers(vc, holder, challenge);
    PresentationKeys(vc, holder, challenge);
    SingletonValid(Str("https://www.w3.org/2018/credentials/v1"));
    SingletonValid(Str("VerifiablePresentation"));
    SingletonValid(vc);
    IndexIsUnique(ms, 2);
    IndexIsUnique(ms, 4);
  }

  lemma PresentedFields(ed: Ed25519, vc: Json, holder: string, challenge: string, seed: Block)
    requires Valid(vc)
    ensures var signed := PresentationMembers(vc, holder, challenge);
      var out := PresentedMembers(ed, vc, holder, challenge, seed);
      && Valid(Obj(out)) && SwapRemove(out, "proof") == signed
      && Get(out, "proof") == Some(Obj(PresentationProof(holder, challenge, SignatureHex(ed, seed, signed))))
      && Get(out, "holder") == Some(Str(holder)) && Get(out, "verifiableCredential") == Some(Arr([vc]))
  {
    var signed := PresentationMembers(vc, holder, challenge);
    PresentationValid(vc, holder, challenge);
    ProofGoesLast(signed, PresentationProof(holder, challenge, SignatureHex(ed, seed, signed)), holder, challenge,
                  SignatureHex(ed, seed, signed));
  }

  lemma ProofGoesLast(signed: Members, proof: Members, holder: string, challenge: string, sigHex: string)
    requires Valid(Obj(signed)) && !Has(signed, "proof") && proof == PresentationProof(holder, challenge, sigHex)
    ensures var out := Insert(signed, "proof", Obj(proof));
      && Valid(Obj(out)) && SwapRemove(out, "proof") == signed && Get(out, "proof") == Some(Obj(proof))
      && Get(out, "holder") == Get(signed, "holder")
      && Get(out, "verifiableCredential") == Get(signed, "verifiableCredential")
  {
    PresentationProofValid(holder, challenge, sigHex);
    InsertValid(signed, "proof", Obj(proof));
    AppendedProofComesOff(signed, Obj(proof));
    GetAfterInsert(signed, "proof", Obj(proof), "holder");
    GetAfterInsert(signed, "proof", Obj(proof), "verifiableCredential");
    GetAfterInsert(signed, "proof", Obj(proof), "proof");
  }

  lemma PresentedVpChecks(w: World, vc: Json, holder: string, challenge: string, seed: Block)
    requires w.ed.Lawful() && Valid(vc) && Controls(w, holder, seed)
    ensures CheckVp(w, Obj(PresentedMembers(w.ed, vc, holder, challenge, seed)))
      == match CheckVc(w, vc) case Ok(_) => Ok(()) case Err(e) => Err(VcErrorText(e))
  {
    var signed := PresentationMembers(vc, holder, challenge);
    var sigHex := SignatureHex(w.ed, seed, signed);
    var vp := Obj(PresentedMembers(w.ed, vc, holder, challenge, seed));
    PresentedFields(w.ed, vc, holder, challenge, seed);
    PresentationProofValid(holder, challenge, sigHex);
    CheckVpOf(w, vp, PresentationProof(holder, challenge, sigHex), holder, sigHex, [vc]);
    OwnSignatureAccepted(w, holder, seed, Utf8(Print(Obj(signed))));
    OneFailure(w, vc);
  }

  lemma OneFailure(w: World, vc: Json)
    ensures FirstFailure(w, [vc]) == match CheckVc(w, vc) case Ok(_) => None case Err(e) => Some(VcErrorText(e))
  {
    assert [vc][1..] == [];
    assert FirstFailure(w, []) == None;
  }

  lemma VerdictOfPrinted(w: World, v: Json)
    requires Valid(v)
    ensures VcVerdict(w, Print(v)) == match CheckVc(w, v) case Ok(_) => VALID case Err(e) => Invalid(e)
    ensures VpVerdict(w, Print(v)) == match CheckVp(w, v) case Ok(_) => VALID case Err(e) => Invalid(e)
  {
    JsonRoundTrip.RoundTrip(v);
  }

  /** Issuing from text, and presenting what was issued, in terms of the values behind the texts. */
  lemma IssuedText(ed: Ed25519, credential: string, ms: Members, did: string, seed: Block)
    requires Parse(credential) == Some(Obj(ms))
    ensures Issued(ed, credential, did, Base58.Encode(seed)) == Ok(Print(Obj(IssuedMembers(ed, ms, did, seed))))
    ensures Valid(Obj(ms)) && Valid(Obj(IssuedMembers(ed, ms, did, seed)))
  {
    JsonText.ParsedIsValid(credential);
    SeedRoundTrip(seed);
    IssuedIsValid(ed, ms, did, seed);
  }

  lemma PresentedText(ed: Ed25519, vc: Json, holder: string, challenge: string, seed: Block)
    requires Valid(vc)
    ensures Presented(ed, Print(vc), holder, challenge, Base58.Encode(seed))
      == Ok(Print(Obj(PresentedMembers(ed, vc, holder, challenge, seed))))
    ensures Valid(Obj(PresentedMembers(ed, vc, holder, challenge, seed)))
  {
    JsonRoundTrip.RoundTrip(vc);
    SeedRoundTrip(seed);
    PresentedFields(ed, vc, holder, challenge, seed);
  }

  /** The verdicts that an unexpired or an expired credential deserves, alone and inside a presentation. */
  ghost predicate DeservedVerdicts(expired: bool, vc: Verdict, vp: Verdict) {
    if expired then
      && vc == Verdict(false, "VC is expired")
      && vp == Verdict(false, "VC Verification Failure: VC is expired")
    else
      vc == Verdict(true, "") && vp == Verdict(true, "")
  }

  lemma DeservedInside(w: World, vc: Json, holder: string, challenge: string, seed: Block)
    requires w.ed.Lawful() && Valid(vc) && Controls(w, holder, seed)
    requires CheckVc(w, vc) == Ok(()) || CheckVc(w, vc) == Err("VC is expired")
    ensures DeservedVerdicts(CheckVc(w, vc).Err?, VcVerdict(w, Print(vc)),
      VpVerdict(w, Print(Obj(PresentedMembers(w.ed, vc, holder, challenge, seed)))))
  {
    PresentedVpChecks(w, vc, holder, challenge, seed);
    PresentedText(w.ed, vc, holder, challenge, seed);
    VerdictOfPrinted(w, vc);
    VerdictOfPrinted(w, Obj(PresentedMembers(w.ed, vc, holder, challenge, seed)));
    ExpiredText();
  }

  lemma ExpiredText()
    ensures VcErrorText("VC is expired") == "VC Verification Failure: VC is expired"
  {
  }

  /**
   End to end, on the texts that travel: a credential without a proof, issued and then presented
   under keys its issuer and holder control, verifies on its own and inside the presentation,
   unless it has expired.
   */
  lemma EndToEnd(w: World, credential: string, ms: Members, issuer: string, issuerSeed: Block,
                 holder: string, holderSeed: Block, challenge: string)
    requires w.ed.Lawful() && Parse(credential) == Some(Obj(ms)) && !Has(ms, "proof")
    requires Controls(w, issuer, issuerSeed) && Controls(w, holder, holderSeed)
    ensures var vc := Issued(w.ed, credential, issuer, Base58.Encode(issuerSeed));
      vc.Ok? && var vp := Presented(w.ed, vc.value, holder, challenge, Base58.Encode(holderSeed));
      vp.Ok? && DeservedVerdicts(PastExpiry(w, ms), VcVerdict(w, vc.value), VpVerdict(w, vp.value))
  {
    IssuedText(w.ed, credential, ms, issuer, issuerSeed);
    IssuedVcChecks(w, ms, issuer, issuerSeed);
    PresentedText(w.ed, Obj(IssuedMembers(w.ed, ms, issuer, issuerSeed)), holder, challenge, holderSeed);
    DeservedInside(w, Obj(IssuedMembers(w.ed, ms, issuer, issuerSeed)), holder, challenge, holderSeed);
  }

  /** EndToEnd for every pair of did:key identities, whatever the network and the challenge. */
  lemma EndToEndDidKey(w: World, credential: string, ms: Members, issuerSeed: Block, holderSeed: Block,
                       challenge: string)
    requires w.ed.Lawful() && Parse(credential) == Some(Obj(ms)) && !Has(ms, "proof")
    ensures var issuer, holder := DidKey(w.ed.publicKey(issuerSeed)), DidKey(w.ed.publicKey(holderSeed));
      var expired :=
        match Get(ms, "expirationDate")
        case Some(Str(t)) => w.timestamp(t).Some? && w.now > w.timestamp(t).value
        case _ => false;
      var vc := Issued(w.ed, credential, issuer, Base58.Encode(issuerSeed));
      vc.Ok? && var vp := Presented(w.ed, vc.value, holder, challenge, Base58.Encode(holderSeed));
      vp.Ok? && DeservedVerdicts(expired, VcVerdict(w, vc.value), VpVerdict(w, vp.value))
  {
    DidKeyControls(w, issuerSeed);
    DidKeyControls(w, holderSeed);
    EndToEnd(w, credential, ms, DidKey(w.ed.publicKey(issuerSeed)), issuerSeed,
             DidKey(w.ed.publicKey(holderSeed)), holderSeed, challenge);
  }

  /** generate_did's answer, read back as JSON: the DID of the seed and the seed itself in base58. */
  ghost predicate NamesIdentity(text: string, did: string, seed: Block) {
    && Parse(text).Some?
    && Parse(text).value.TextAt("did") == Some(did)
    && Parse(text).value.TextAt("private_key_base58") == Some(Base58.Encode(seed))
  }

  lemma IdentityFields(did: string, seed: Block, extra: Members)
    requires extra == [] || (|extra| == 1 && extra[0].key == "did_document" && Valid(extra[0].value))
    ensures NamesIdentity(Print(Obj(IdentityMembers(did, seed) + extra)), did, seed)
    ensures extra != [] ==>
      Get(Fields(Parse(Print(Obj(IdentityMembers(did, seed) + extra))).value), "did_document") == Some(extra[0].value)
  {
    var ms := IdentityMembers(did, seed) + extra;
    assert Valid(Obj(ms));
    JsonRoundTrip.RoundTrip(Obj(ms));
    IndexIsUnique(ms, 0);
    IndexIsUnique(ms, 1);
    if extra != [] {
      assert ms[2] == extra[0];
      IndexIsUnique(ms, 2);
    }
  }

  /**
   generate_did fails for an empty domain only; otherwise the DID and the seed it names fit the
   theorems above, and the document for a did:web identity reads back as the one to publish.
   */
  lemma GeneratedIdentity(ed: Ed25519, request: string, seed: Block)
    ensures GenerateDid(ed, request, seed).Err? <==> WebDomain(request) == Some("")
    ensures WebDomain(request).None? ==>
              NamesIdentity(GenerateDid(ed, request, seed).value, DidKey(ed.publicKey(seed)), seed)
    ensures WebDomain(request).Some? && WebDomain(request).value != "" ==>
              NamesWebIdentity(GenerateDid(ed, request, seed).value, "did:web:" + WebDomain(request).value, ed, seed)
  {
    var key := ed.publicKey(seed);
    if WebDomain(request).None? {
      IdentityFields(DidKey(key), seed, []);
      assert IdentityMembers(DidKey(key), seed) + [] == IdentityMembers(DidKey(key), seed);
    } else {
      var did := "did:web:" + WebDomain(request).value;
      DocumentRoundTrip(DocumentFor(did, key));
      IdentityFields(did, seed, [Member("did_document", DocumentJson(DocumentFor(did, key)))]);
    }
  }

  /** As NamesIdentity, with a document under `did_document` that deserialises to the key's document. */
  ghost predicate NamesWebIdentity(text: string, did: string, ed: Ed25519, seed: Block) {
    && NamesIdentity(text, did, seed)
    && Get(Fields(Parse(text).value), "did_document").Some?
    && ReadDocument(Get(Fields(Parse(text).value), "did_document").value) == Some(DocumentFor(did, ed.publicKey(seed)))
  }
}
