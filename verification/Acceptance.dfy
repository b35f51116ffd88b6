/** What an accepted credential or presentation tells its verifier. */
module Acceptance {
  import opened Wrappers
  import opened Bytes
  import opened Json
  import opened JsonText
  import opened Resolver
  import opened Credentials
  import opened CredentialTheorems
  import JsonRoundTrip

  // ----- acceptance binds content -----

  /** One use of a signing key: issue_vc on a credential or issue_vp on a credential to present. */
  datatype Signing =
    | SignedVc(credential: Members, did: string)
    | SignedVp(vc: Json, holder: string, challenge: string)
  {
    /** The members whose print was signed. */
    function Signed(): Members {
      match this
      case SignedVc(credential, did) => SignedMembers(credential, did)
      case SignedVp(vc, holder, challenge) => PresentationMembers(vc, holder, challenge)
    }
  }

  /** The proof value carried by a document, when it is hexadecimal text. */
  ghost function ProofSignature(doc: Json): Option<seq<byte>> {
    match doc.ObjectAt("proof")
    case Some(proof) =>
      (match Obj(proof).TextAt("proofValue")
       case Some(text) => HexDecode(text)
       case None => None)
    case None => None
  }

  /** The bytes are those of a signing in the log. */
  ghost predicate Logged(log: seq<Signing>, payload: seq<byte>) {
    exists i | 0 <= i < |log| :: payload == Utf8(Print(Obj(log[i].Signed())))
  }

  /** Unforgeability of the signature presented: under this key it verifies only payloads in the log. */
  ghost predicate NotForged(ed: Ed25519, key: Block, log: seq<Signing>, sig: seq<byte>) {
    forall m: seq<byte> :: ed.verify(key, m, sig) ==> Logged(log, m)
  }

  /** The same under every key that the document of a DID, of whatever method, holds. */
  ghost predicate NotForgedFor(w: World, did: string, log: seq<Signing>, sig: seq<byte>) {
    Resolve(did, w.fetch).Ok? ==>
      var methods := Resolve(did, w.fetch).value.verificationMethod;
      forall i | 0 <= i < |methods| && |KeyBytes(methods[i])| == 32 :: NotForged(w.ed, KeyBytes(methods[i]), log, sig)
  }

  /** For a did:key that is the one key in it. */
  lemma NotForgedForDidKey(w: World, key: Block, log: seq<Signing>, sig: seq<byte>)
    ensures NotForgedFor(w, DidKey(key), log, sig) <==> NotForged(w.ed, key, log, sig)
  {
    ResolveOfDidKey(key, w.fetch);
    BothRoutesAgree(KeyDocument(key).verificationMethod[0], key);
  }

  /** The hypothesis is consistent with lawfulness: a scheme whose signature of one payload fits no other. */
  lemma NotForgedIsPossible(seed: Block, s: Signing)
    ensures exists ed: Ed25519 ::
              && ed.Lawful()
              && NotForged(ed, ed.publicKey(seed), [s], ed.sign(seed, Utf8(Print(Obj(s.Signed())))))
  {
    var payload := Utf8(Print(Obj(s.Signed())));
    var zeros: seq<byte> := seq(64, _ => 0);
    var ones: seq<byte> := seq(64, _ => 1);
    assert zeros[0] != ones[0];
    var ed := Ed25519((k: Block) => k, (k: Block, m: seq<byte>) => if m == payload then ones else zeros,
                      (k: Block, m: seq<byte>, sig: seq<byte>) => sig == if m == payload then ones else zeros);
    assert ed.Lawful();
    assert [s][0] == s;
    assert NotForged(ed, ed.publicKey(seed), [s], ones);
  }

  lemma AcceptedIsLogged(w: World, doc: Json, text: string, did: string, log: seq<Signing>) returns (i: nat)
    requires doc.Obj? && CheckSignature(w, Payload(doc), text, did).Ok?
    requires NotForgedFor(w, did, log, HexDecode(text).value)
    ensures i < |log| && SwapRemove(doc.members, "proof") == log[i].Signed()
  {
    var methods := Resolve(did, w.fetch).value.verificationMethod;
    var k :| 0 <= k < |methods| && MethodVerifies(w.ed, methods[k], Payload(doc), HexDecode(text).value);
    assert Logged(log, Payload(doc));
    i :| 0 <= i < |log| && Payload(doc) == Utf8(Print(Obj(log[i].Signed())));
    JsonRoundTrip.PayloadInjective(Obj(SwapRemove(doc.members, "proof")), Obj(log[i].Signed()));
  }

  /** What the verifier learns: apart from the proof, the document is this signed credential. */
  ghost predicate SaysTheSame(vc: Members, s: Signing, did: string) {
    && s.SignedVc? && s.did == did
    && SwapRemove(vc, "proof") == s.Signed()
    && forall k: string :: k != "proof" ==> Get(vc, k) == if k == "issuer" then Some(Str(did)) else Get(s.credential, k)
  }

  /**
   Acceptance binds content. A credential accepted for an issuer of any DID method, with a
   signature forged under none of the keys that the DID's document holds, is in every member but
   the proof, and in the order the verifier reprints, a credential issued under that DID; a
   presentation signed with the same keys can never pass for one.
   */
  lemma AcceptedVcWasIssued(w: World, vc: Json, did: string, log: seq<Signing>) returns (i: nat)
    requires Valid(vc) && CheckVc(w, vc).Ok? && vc.TextAt("issuer") == Some(did)
    requires ProofSignature(vc).Some? ==> NotForgedFor(w, did, log, ProofSignature(vc).value)
    ensures i < |log| && SaysTheSame(vc.members, log[i], did)
  {
    var text := Obj(vc.ObjectAt("proof").value).TextAt("proofValue").value;
    assert CheckSignature(w, Payload(vc), text, did).Ok?;
    i := AcceptedIsLogged(w, vc, text, did, log);
    LoggedVcSaysTheSame(vc.members, log[i], did);
  }

  lemma LoggedVcSaysTheSame(vc: Members, s: Signing, did: string)
    requires DistinctKeys(vc) && SwapRemove(vc, "proof") == s.Signed() && Get(vc, "issuer") == Some(Str(did))
    ensures SaysTheSame(vc, s, did)
  {
    GetAfterSwapRemove(vc, "proof", "issuer");
    if s.SignedVp? {
      PresentationHasNoIssuer(s.vc, s.holder, s.challenge);
    }
    GetAfterInsert(s.credential, "issuer", Str(s.did), "issuer");
    forall k: string | k != "proof"
      ensures Get(vc, k) == if k == "issuer" then Some(Str(did)) else Get(s.credential, k)
    {
      GetAfterSwapRemove(vc, "proof", k);
      GetAfterInsert(s.credential, "issuer", Str(s.did), k);
    }
  }

  /** For a did:key issuer it is enough that the signature was not forged under the key in the DID. */
  lemma AcceptedVcOfDidKey(w: World, vc: Json, key: Block, log: seq<Signing>) returns (i: nat)
    requires Valid(vc) && CheckVc(w, vc).Ok? && vc.TextAt("issuer") == Some(DidKey(key))
    requires ProofSignature(vc).Some? ==> NotForged(w.ed, key, log, ProofSignature(vc).value)
    ensures i < |log| && SaysTheSame(vc.members, log[i], DidKey(key))
  {
    if ProofSignature(vc).Some? {
      NotForgedForDidKey(w, key, log, ProofSignature(vc).value);
    }
    i := AcceptedVcWasIssued(w, vc, DidKey(key), log);
  }

  lemma PresentationHasNoIssuer(vc: Json, holder: string, challenge: string)
    ensures Get(PresentationMembers(vc, holder, challenge), "issuer") == None
  {
    var ms := PresentationMembers(vc, holder, challenge);
    assert ms[2].key[0] == 'h';
    assert |ms[0].key| == 8 && |ms[1].key| == 4 && |ms[3].key| == 9 && |ms[4].key| == 20;
  }

  /** What the verifier of a presentation learns, for either kind of signing that can be behind it. */
  ghost predicate PresentedBy(vp: Members, s: Signing, holder: string) {
    && SwapRemove(vp, "proof") == s.Signed()
    && match s
       case SignedVp(vc, h, _) => h == holder && Embedded(Obj(vp)) == Some([vc])
       case SignedVc(credential, _) =>
         Get(credential, "holder") == Some(Str(holder)) && Embedded(Obj(credential)).Some?
         && Embedded(Obj(vp)) == Embedded(Obj(credential))
  }

  /**
   An accepted presentation whose signature was forged under no key of its holder's document is,
   apart from its proof, something signed with one: a presentation of the one credential in it, or
   a credential that names the holder and itself has a verifiableCredential member, which nothing
   tells from a presentation.
   */
  lemma AcceptedVpWasSigned(w: World, vp: Json, did: string, log: seq<Signing>) returns (i: nat)
    requires Valid(vp) && CheckVp(w, vp).Ok? && vp.TextAt("holder") == Some(did)
    requires ProofSignature(vp).Some? ==> NotForgedFor(w, did, log, ProofSignature(vp).value)
    ensures i < |log| && PresentedBy(vp.members, log[i], did)
  {
    VpShape(w, vp);
    var text := Obj(vp.ObjectAt("proof").value).TextAt("proofValue").value;
    i := AcceptedIsLogged(w, vp, text, did, log);
    LoggedVpIsPresented(vp.members, log[i], did);
  }

  lemma LoggedVpIsPresented(vp: Members, s: Signing, did: string)
    requires DistinctKeys(vp) && SwapRemove(vp, "proof") == s.Signed()
    requires Get(vp, "holder") == Some(Str(did)) && Embedded(Obj(vp)).Some?
    ensures PresentedBy(vp, s, did)
  {
    GetAfterSwapRemove(vp, "proof", "holder");
    GetAfterSwapRemove(vp, "proof", "verifiableCredential");
    match s
    case SignedVp(vc, holder, challenge) =>
      PresentationKeys(vc, holder, challenge);
      IndexIsUnique(s.Signed(), 2);
      IndexIsUnique(s.Signed(), 4);
    case SignedVc(credential, issuer) =>
      GetAfterInsert(credential, "issuer", Str(issuer), "holder");
      GetAfterInsert(credential, "issuer", Str(issuer), "verifiableCredential");
  }

  lemma AcceptedVpOfDidKey(w: World, vp: Json, key: Block, log: seq<Signing>) returns (i: nat)
    requires Valid(vp) && CheckVp(w, vp).Ok? && vp.TextAt("holder") == Some(DidKey(key))
    requires ProofSignature(vp).Some? ==> NotForged(w.ed, key, log, ProofSignature(vp).value)
    ensures i < |log| && PresentedBy(vp.members, log[i], DidKey(key))
  {
    if ProofSignature(vp).Some? {
      NotForgedForDidKey(w, key, log, ProofSignature(vp).value);
    }
    i := AcceptedVpWasSigned(w, vp, DidKey(key), log);
  }

  // ----- an issued credential in the place of a presentation -----

  /** The signature of this payload by this seed verifies under no other public key. */
  ghost predicate OwnKeyOnly(ed: Ed25519, seed: Block, payload: seq<byte>) {
    forall key: Block :: ed.verify(key, payload, ed.sign(seed, payload)) ==> key == ed.publicKey(seed)
  }

  lemma OwnKeyOnlyIsPossible()
    ensures exists ed: Ed25519 :: ed.Lawful() && forall seed: Block, m: seq<byte> :: OwnKeyOnly(ed, seed, m)
  {
    var ed := Ed25519((k: Block) => k, (k: Block, m: seq<byte>) => k + k,
                      (k: Block, m: seq<byte>, sig: seq<byte>) => sig == k + k);
    assert ed.Lawful();
    forall seed: Block, m: seq<byte> ensures OwnKeyOnly(ed, seed, m) {
      forall key: Block | key + key == seed + seed ensures key == seed {
        assert (key + key)[..32] == key && (seed + seed)[..32] == seed;
      }
    }
  }

  /** The members that make a credential readable as a presentation of its own issuer's key. */
  ghost predicate ReadsAsPresentation(w: World, credential: Members, seed: Block) {
    && Obj(credential).TextAt("holder").Some? && Controls(w, Obj(credential).TextAt("holder").value, seed)
    && Embedded(Obj(credential)).Some? && AllPass(w, Embedded(Obj(credential)).value)
  }

  lemma ForeignSignatureRefused(w: World, did: string, seed: Block, payload: seq<byte>)
    requires w.ed.Lawful() && OwnKeyOnly(w.ed, seed, payload)
    ensures CheckSignature(w, payload, HexEncode(w.ed.sign(seed, payload)), did).Ok? ==> Controls(w, did, seed)
  {
    var sig := w.ed.sign(seed, payload);
    HexRoundTrip(sig);
    if CheckSignature(w, payload, HexEncode(sig), did).Ok? {
      var methods := Resolve(did, w.fetch).value.verificationMethod;
      var i :| 0 <= i < |methods| && MethodVerifies(w.ed, methods[i], payload, sig);
      assert KeyBytes(methods[i]) == w.ed.publicKey(seed);
    }
  }

  lemma IssuedOtherFields(ed: Ed25519, ms: Members, did: string, seed: Block)
    ensures var out := IssuedMembers(ed, ms, did, seed);
      Get(out, "holder") == Get(ms, "holder") && Get(out, "verifiableCredential") == Get(ms, "verifiableCredential")
  {
    var signed := SignedMembers(ms, did);
    var proof := Obj(ProofMembers(did, SignatureHex(ed, seed, signed)));
    GetAfterInsert(ms, "issuer", Str(did), "holder");
    GetAfterInsert(ms, "issuer", Str(did), "verifiableCredential");
    GetAfterInsert(signed, "proof", proof, "holder");
    GetAfterInsert(signed, "proof", proof, "verifiableCredential");
  }

  lemma HolderSignedOf(w: World, vp: Json, proof: Members, sigHex: string, payload: seq<byte>, holder: Option<string>)
    requires vp.Obj? && Get(vp.members, "proof") == Some(Obj(proof)) && Get(proof, "proofValue") == Some(Str(sigHex))
    requires Payload(vp) == payload && vp.TextAt("holder") == holder
    ensures HolderSigned(w, vp) <==> holder.Some? && CheckSignature(w, payload, sigHex, holder.value).Ok?
  {
    assert vp.ObjectAt("proof") == Some(proof) && Obj(proof).TextAt("proofValue") == Some(sigHex);
  }

  /** The holder named by the credential accepts the issuer's signature on what was signed. */
  ghost predicate HolderAccepts(w: World, ms: Members, did: string, seed: Block) {
    && Obj(ms).TextAt("holder").Some?
    && CheckSignature(w, Utf8(Print(Obj(SignedMembers(ms, did)))), SignatureHex(w.ed, seed, SignedMembers(ms, did)),
                      Obj(ms).TextAt("holder").value).Ok?
  }

  lemma IssuedEmbeds(ed: Ed25519, ms: Members, did: string, seed: Block)
    ensures Embedded(Obj(IssuedMembers(ed, ms, did, seed))) == Embedded(Obj(ms))
    ensures Obj(IssuedMembers(ed, ms, did, seed)).TextAt("holder") == Obj(ms).TextAt("holder")
  {
    IssuedOtherFields(ed, ms, did, seed);
  }

  lemma IssuedHolder(w: World, ms: Members, did: string, seed: Block)
    requires Valid(Obj(ms)) && !Has(ms, "proof")
    ensures HolderSigned(w, Obj(IssuedMembers(w.ed, ms, did, seed))) <==> HolderAccepts(w, ms, did, seed)
  {
    var signed := SignedMembers(ms, did);
    var sigHex := SignatureHex(w.ed, seed, signed);
    IssuedFields(w.ed, ms, did, seed);
    IssuedEmbeds(w.ed, ms, did, seed);
    ProofMembersValid(did, sigHex);
    VerifierRebuildsSignedBytes(w.ed, ms, did, seed);
    HolderSignedOf(w, Obj(IssuedMembers(w.ed, ms, did, seed)), ProofMembers(did, sigHex), sigHex,
                   Utf8(Print(Obj(signed))), Obj(ms).TextAt("holder"));
  }

  /**
   When issue_vc's output is accepted by verify_vp: exactly if the holder that the credential names
   accepts the signature on what was signed and its verifiableCredential member is a list of valid
   credentials, or one, or none. For signatures that fit one key only, the holder accepts exactly
   if its DID's document has the signing key.
   */
  lemma IssuedPassesAsPresentationIff(w: World, ms: Members, did: string, seed: Block)
    requires w.ed.Lawful() && Valid(Obj(ms)) && !Has(ms, "proof")
    ensures CheckVp(w, Obj(IssuedMembers(w.ed, ms, did, seed))).Ok? <==>
      HolderAccepts(w, ms, did, seed) && Embedded(Obj(ms)).Some? && AllPass(w, Embedded(Obj(ms)).value)
    ensures ReadsAsPresentation(w, ms, seed) ==> CheckVp(w, Obj(IssuedMembers(w.ed, ms, did, seed))).Ok?
    ensures OwnKeyOnly(w.ed, seed, Utf8(Print(Obj(SignedMembers(ms, did))))) ==>
      (CheckVp(w, Obj(IssuedMembers(w.ed, ms, did, seed))).Ok? <==> ReadsAsPresentation(w, ms, seed))
  {
    var payload := Utf8(Print(Obj(SignedMembers(ms, did))));
    IssuedEmbeds(w.ed, ms, did, seed);
    IssuedHolder(w, ms, did, seed);
    VpValidIff(w, Obj(IssuedMembers(w.ed, ms, did, seed)));
    if Obj(ms).TextAt("holder").Some? {
      var holder := Obj(ms).TextAt("holder").value;
      if Controls(w, holder, seed) {
        OwnSignatureAccepted(w, holder, seed, payload);
      } else if OwnKeyOnly(w.ed, seed, payload) {
        ForeignSignatureRefused(w, holder, seed, payload);
      }
    }
  }

  /** A credential that names its holder and carries an empty list of credentials. */
  function HolderCredential(did: string): Members {
    [Member("holder", Str(did)), Member("verifiableCredential", Arr([]))]
  }

  lemma HolderCredentialFields(did: string)
    ensures var ms := HolderCredential(did);
      && Valid(Obj(ms)) && !Has(ms, "proof")
      && Obj(ms).TextAt("holder") == Some(did) && Embedded(Obj(ms)) == Some([])
  {
    var ms := HolderCredential(did);
    assert |ms[0].key| == 6 && |ms[1].key| == 20;
    DistinctLengths(ms, "proof");
    IndexIsUnique(ms, 0);
    IndexIsUnique(ms, 1);
  }

  /** An input: once its issuer has issued it under its own DID, that credential is an accepted presentation. */
  lemma IssuedCredentialPassesAsPresentation(w: World, seed: Block)
    requires w.ed.Lawful()
    ensures var did := DidKey(w.ed.publicKey(seed));
      !Has(HolderCredential(did), "proof") &&
      CheckVp(w, Obj(IssuedMembers(w.ed, HolderCredential(did), did, seed))).Ok?
  {
    var did := DidKey(w.ed.publicKey(seed));
    HolderCredentialFields(did);
    DidKeyControls(w, seed);
    assert ReadsAsPresentation(w, HolderCredential(did), seed);
    IssuedPassesAsPresentationIff(w, HolderCredential(did), did, seed);
  }

  /**
   Issuing over a credential that already carried a proof, by whatever DID, produces a document its
   own signature does not cover: it is rejected unless under a key of the DID's document that
   signature happens to fit other bytes too.
   */
  lemma IssuedOverProofIsRejected(w: World, ms: Members, did: string, seed: Block)
    requires Valid(Obj(ms)) && Has(ms, "proof")
    requires NotForgedFor(w, did, [SignedVc(ms, did)], w.ed.sign(seed, Utf8(Print(Obj(SignedMembers(ms, did))))))
    ensures CheckVc(w, Obj(IssuedMembers(w.ed, ms, did, seed))).Err?
  {
    var vc := Obj(IssuedMembers(w.ed, ms, did, seed));
    var sigHex := SignatureHex(w.ed, seed, SignedMembers(ms, did));
    IssuedFields(w.ed, ms, did, seed);
    ProofMembersValid(did, sigHex);
    CheckVcOf(w, vc, ProofMembers(did, sigHex), did, sigHex);
    StaleSignatureRefused(w, ms, did, seed);
  }

  lemma StaleSignatureRefused(w: World, ms: Members, did: string, seed: Block)
    requires Valid(Obj(ms)) && Has(ms, "proof")
    requires NotForgedFor(w, did, [SignedVc(ms, did)], w.ed.sign(seed, Utf8(Print(Obj(SignedMembers(ms, did))))))
    ensures CheckSignature(w, Payload(Obj(IssuedMembers(w.ed, ms, did, seed))),
                           SignatureHex(w.ed, seed, SignedMembers(ms, did)), did).Err?
  {
    var vc := Obj(IssuedMembers(w.ed, ms, did, seed));
    var sigHex := SignatureHex(w.ed, seed, SignedMembers(ms, did));
    HexRoundTrip(w.ed.sign(seed, Utf8(Print(Obj(SignedMembers(ms, did))))));
    VerifierRebuildsSignedBytes(w.ed, ms, did, seed);
    if CheckSignature(w, Payload(vc), sigHex, did).Ok? {
      var i := AcceptedIsLogged(w, vc, sigHex, did, [SignedVc(ms, did)]);
    }
  }

  // ----- what the verdict does not depend on -----

  /** Two documents that differ in the value of one member only. */
  ghost predicate DifferAt(a: Members, b: Members, key: string) {
    && |a| == |b| && Has(a, key)
    && forall j | 0 <= j < |a| :: a[j].key == b[j].key && (j != IndexOf(a, key) ==> a[j] == b[j])
  }

  lemma DifferAtFacts(a: Members, b: Members, key: string, k: string)
    requires DifferAt(a, b, key)
    ensures SwapRemove(a, key) == SwapRemove(b, key) && Has(b, key)
    ensures k != key ==> Get(a, k) == Get(b, k)
  {
    SameIndex(a, b, key);
    SameIndex(a, b, k);
    SameRest(a, b, key, IndexOf(a, key));
    if k != key && Has(a, k) {
      assert a[IndexOf(a, k)] == b[IndexOf(a, k)];
    }
  }

  lemma SameRest(a: Members, b: Members, key: string, i: nat)
    requires |a| == |b| && i == IndexOf(a, key) == IndexOf(b, key) && i < |a|
    requires forall j | 0 <= j < |a| && j != i :: a[j] == b[j]
    ensures SwapRemove(a, key) == SwapRemove(b, key)
  {
    var n := |a| - 1;
    assert a[i := a[n]][..n] == b[i := b[n]][..n];
  }

  lemma SameIndex(a: Members, b: Members, k: string)
    requires |a| == |b| && forall j | 0 <= j < |a| :: a[j].key == b[j].key
    ensures IndexOf(a, k) == IndexOf(b, k)
  {
    var i, j := IndexOf(a, k), IndexOf(b, k);
    assert i < |a| ==> b[i].key == k;
    assert j < |b| ==> a[j].key == k;
  }

  /**
   Replacing the proof by another object at the same place, with the same proofValue, never
   changes the verdict: type, verificationMethod and any other proof field are not checked.
   */
  lemma OnlyProofValueMatters(w: World, a: Members, b: Members)
    requires DifferAt(a, b, "proof")
    requires Obj(a).ObjectAt("proof").Some? && Obj(b).ObjectAt("proof").Some?
    requires Obj(Obj(a).ObjectAt("proof").value).TextAt("proofValue")
      == Obj(Obj(b).ObjectAt("proof").value).TextAt("proofValue")
    ensures CheckVc(w, Obj(a)) == CheckVc(w, Obj(b))
  {
    DifferAtFacts(a, b, "proof", "issuer");
    DifferAtFacts(a, b, "proof", "expirationDate");
    SameExpiry(w, Obj(a), Obj(b));
    SameCheck(w, Obj(a), Obj(b));
  }

  /** The same for a presentation: only proofValue, the holder and the signed members count. */
  lemma OnlyProofValueMattersInVp(w: World, a: Members, b: Members)
    requires DifferAt(a, b, "proof")
    requires Obj(a).ObjectAt("proof").Some? && Obj(b).ObjectAt("proof").Some?
    requires Obj(Obj(a).ObjectAt("proof").value).TextAt("proofValue")
      == Obj(Obj(b).ObjectAt("proof").value).TextAt("proofValue")
    ensures CheckVp(w, Obj(a)) == CheckVp(w, Obj(b))
  {
    DifferAtFacts(a, b, "proof", "holder");
    DifferAtFacts(a, b, "proof", "verifiableCredential");
    SameVpCheck(w, Obj(a), Obj(b));
  }

  lemma SameVpCheck(w: World, a: Json, b: Json)
    requires a.ObjectAt("proof").Some? && b.ObjectAt("proof").Some?
    requires Obj(a.ObjectAt("proof").value).TextAt("proofValue") == Obj(b.ObjectAt("proof").value).TextAt("proofValue")
    requires a.TextAt("holder") == b.TextAt("holder") && Embedded(a) == Embedded(b) && Payload(a) == Payload(b)
    ensures CheckVp(w, a) == CheckVp(w, b)
  {
  }

  lemma SameCheck(w: World, a: Json, b: Json)
    requires a.ObjectAt("proof").Some? && b.ObjectAt("proof").Some?
    requires Obj(a.ObjectAt("proof").value).TextAt("proofValue") == Obj(b.ObjectAt("proof").value).TextAt("proofValue")
    requires a.TextAt("issuer") == b.TextAt("issuer") && Expired(w, a) == Expired(w, b) && Payload(a) == Payload(b)
    ensures CheckVc(w, a) == CheckVc(w, b)
  {
  }

  // ----- presentations -----

  lemma FailsLater(w: World, vcs: seq<Json>, i: nat)
    requires vcs != [] && Passes(w, vcs[0]) && i < |vcs| - 1 && FailsFirstAt(w, vcs[1..], i)
    ensures FailsFirstAt(w, vcs, i + 1)
  {
    assert forall j | 0 < j <= i + 1 :: vcs[j] == vcs[1..][j - 1];
  }

  lemma AllPassStep(w: World, vcs: seq<Json>)
    requires vcs != []
    ensures AllPass(w, vcs) <==> Passes(w, vcs[0]) && AllPass(w, vcs[1..])
  {
    assert forall j | 0 < j < |vcs| :: vcs[j] == vcs[1..][j - 1];
    assert forall j | 0 <= j < |vcs| - 1 :: vcs[1..][j] == vcs[j + 1];
  }

  /** The report is the error of the credential at i, and those before it pass. */
  ghost predicate ReportsFailureAt(w: World, vcs: seq<Json>, i: nat, report: string)
    requires i < |vcs|
  {
    FailsFirstAt(w, vcs, i) && report == VcErrorText(CheckVc(w, vcs[i]).error)
  }

  /** The failure reported is that of the least index at which a credential fails. */
  lemma {:induction false} FirstFailureIsLeast(w: World, vcs: seq<Json>)
    ensures FirstFailure(w, vcs).None? <==> AllPass(w, vcs)
    ensures FirstFailure(w, vcs).Some? ==>
      exists i | 0 <= i < |vcs| :: ReportsFailureAt(w, vcs, i, FirstFailure(w, vcs).value)
  {
    if vcs != [] {
      var rest := vcs[1..];
      FirstFailureIsLeast(w, rest);
      AllPassStep(w, vcs);
      if !Passes(w, vcs[0]) {
        assert ReportsFailureAt(w, vcs, 0, FirstFailure(w, vcs).value);
      } else if FirstFailure(w, rest).Some? {
        var i :| 0 <= i < |rest| && ReportsFailureAt(w, rest, i, FirstFailure(w, rest).value);
        FailsLater(w, vcs, i);
        assert ReportsFailureAt(w, vcs, i + 1, FirstFailure(w, vcs).value);
      }
    }
  }

  ghost predicate Passes(w: World, vc: Json) {
    CheckVc(w, vc).Ok?
  }

  ghost predicate AllPass(w: World, vcs: seq<Json>) {
    forall i | 0 <= i < |vcs| :: Passes(w, vcs[i])
  }

  ghost predicate FailsFirstAt(w: World, vcs: seq<Json>, i: nat)
    requires i < |vcs|
  {
    !Passes(w, vcs[i]) && forall j | 0 <= j < i :: Passes(w, vcs[j])
  }

  /** The holder's signature over the presentation without its proof is in order. */
  ghost predicate HolderSigned(w: World, vp: Json) {
    && vp.ObjectAt("proof").Some? && vp.TextAt("holder").Some?
    && Obj(vp.ObjectAt("proof").value).TextAt("proofValue").Some?
    && CheckSignature(w, Payload(vp), Obj(vp.ObjectAt("proof").value).TextAt("proofValue").value,
                      vp.TextAt("holder").value).Ok?
  }

  /** A presentation is valid if and only if its holder signed it and every credential in it is valid. */
  lemma VpValidIff(w: World, vp: Json)
    ensures CheckVp(w, vp).Ok? <==>
      HolderSigned(w, vp) && Embedded(vp).Some? && AllPass(w, Embedded(vp).value)
    ensures CheckVp(w, vp).Ok? <==>
      HolderSigned(w, vp) &&
      match Get(Fields(vp), "verifiableCredential")
      case Some(Arr(items)) => AllPass(w, items)
      case Some(Obj(ms)) => CheckVc(w, Obj(ms)).Ok?
      case _ => false
  {
    VpShape(w, vp);
    if Embedded(vp).Some? {
      FirstFailureIsLeast(w, Embedded(vp).value);
    }
  }

  lemma VpShape(w: World, vp: Json)
    ensures CheckVp(w, vp).Ok? <==>
      HolderSigned(w, vp) && Embedded(vp).Some? && FirstFailure(w, Embedded(vp).value).None?
  {
    if vp.ObjectAt("proof").Some? && vp.TextAt("holder").Some? {
      var proof := Obj(vp.ObjectAt("proof").value);
      if proof.TextAt("proofValue").Some? {
        var signed := CheckSignature(w, Payload(vp), proof.TextAt("proofValue").value, vp.TextAt("holder").value);
        assert HolderSigned(w, vp) <==> signed.Ok?;
      }
    }
  }

  // ----- time -----

  /** The same curve and date parser, at a later moment; the network may answer anything else. */
  ghost predicate Later(early: World, late: World) {
    early.ed == late.ed && early.timestamp == late.timestamp && early.now <= late.now
  }

  /** A did:key, or no DID at all. */
  predicate NeedsNoNetwork(did: Option<string>) {
    did.Some? ==> StartsWith(did.value, "did:key:")
  }

  lemma SameSignatureLater(early: World, late: World, payload: seq<byte>, sigHex: string, did: string)
    requires Later(early, late) && StartsWith(did, "did:key:")
    ensures CheckSignature(early, payload, sigHex, did) == CheckSignature(late, payload, sigHex, did)
  {
  }

  lemma VcOnlyExpires(early: World, late: World, vc: Json)
    requires Later(early, late) && NeedsNoNetwork(vc.TextAt("issuer"))
    ensures CheckVc(late, vc).Ok? ==> CheckVc(early, vc).Ok?
  {
    if CheckVc(late, vc).Ok? {
      var sigHex := Obj(vc.ObjectAt("proof").value).TextAt("proofValue").value;
      SameSignatureLater(early, late, Payload(vc), sigHex, vc.TextAt("issuer").value);
    }
  }

  /**
   With did:key parties and a clock that never goes back, a presentation that was rejected once is
   never accepted later, whatever the network does in between.
   */
  lemma RejectedStaysRejected(early: World, late: World, vp: Json)
    requires Later(early, late) && NeedsNoNetwork(vp.TextAt("holder"))
    requires Embedded(vp).Some? ==>
      forall i | 0 <= i < |Embedded(vp).value| :: NeedsNoNetwork(Embedded(vp).value[i].TextAt("issuer"))
    ensures CheckVp(early, vp).Err? ==> CheckVp(late, vp).Err?
  {
    VpValidIff(early, vp);
    VpValidIff(late, vp);
    if CheckVp(late, vp).Ok? {
      SameSignatureLater(early, late, Payload(vp),
        Obj(vp.ObjectAt("proof").value).TextAt("proofValue").value, vp.TextAt("holder").value);
      var vcs := Embedded(vp).value;
      forall i | 0 <= i < |vcs| ensures CheckVc(early, vcs[i]).Ok? {
        VcOnlyExpires(early, late, vcs[i]);
      }
    }
  }
}
