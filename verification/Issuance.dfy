/**
 What issue_vc, issue_vp and generate_did write, member by member, and when they refuse: in terms of
 the texts they are given.
 */
module Issuance {
  import opened Wrappers
  import opened Bytes
  import opened Json
  import opened JsonText
  import opened Resolver
  import opened Credentials
  import opened DidDocuments
  import Base58
  import CredentialTheorems

  /** A private key text is checked in two steps. */
  predicate BadKey(keyB58: string, error: string) {
    match Base58.Decode(keyB58)
    case None => error == "Invalid base58 private key"
    case Some(s) => |s| != 32 && error == "Invalid private key length"
  }

  /** issue_vc's refusals, in order. */
  lemma IssueVcRefuses(ed: Ed25519, credential: string, did: string, keyB58: string, error: string)
    ensures Parse(credential).None? ==> Issued(ed, credential, did, keyB58) == Err("Invalid credential JSON")
    ensures Parse(credential).Some? && !Parse(credential).value.Obj? ==>
      Issued(ed, credential, did, keyB58) == Err("Credential is not an object")
    ensures Parse(credential).Some? && Parse(credential).value.Obj? && BadKey(keyB58, error) ==>
      Issued(ed, credential, did, keyB58) == Err(error)
  {
  }

  /** The members that issue_vc adds: the issuer before signing, the proof of everything else after. */
  lemma IssueVcWrites(ed: Ed25519, credential: string, ms: Members, did: string, seed: Block)
    requires Parse(credential) == Some(Obj(ms))
    ensures var signed := Insert(ms, "issuer", Str(did));
      Issued(ed, credential, did, Base58.Encode(seed)) == Ok(Print(Obj(Insert(signed, "proof", Obj([
        Member("type", Str("Ed25519Signature2018")),
        Member("verificationMethod", Str(did + "#keys-1")),
        Member("proofValue", Str(HexEncode(ed.sign(seed, Utf8(Print(Obj(signed)))))))])))))
  {
    CredentialTheorems.SeedRoundTrip(seed);
  }

  lemma IssueVpRefuses(ed: Ed25519, vc: string, holder: string, challenge: string, keyB58: string, error: string)
    ensures Parse(vc).None? ==> Presented(ed, vc, holder, challenge, keyB58) == Err("Invalid VC JSON")
    ensures Parse(vc).Some? && BadKey(keyB58, error) ==> Presented(ed, vc, holder, challenge, keyB58) == Err(error)
  {
  }

  /** The presentation that issue_vp signs and the proof it adds, for any JSON value to present. */
  lemma IssueVpWrites(ed: Ed25519, text: string, vc: Json, holder: string, challenge: string, seed: Block)
    requires Parse(text) == Some(vc)
    ensures var signed := [
        Member("@context", Arr([Str("https://www.w3.org/2018/credentials/v1")])),
        Member("type", Arr([Str("VerifiablePresentation")])),
        Member("holder", Str(holder)),
        Member("challenge", Str(challenge)),
        Member("verifiableCredential", Arr([vc]))];
      Presented(ed, text, holder, challenge, Base58.Encode(seed)) == Ok(Print(Obj(signed + [Member("proof", Obj([
        Member("type", Str("Ed25519Signature2018")),
        Member("verificationMethod", Str(holder + "#keys-1")),
        Member("proofValue", Str(HexEncode(ed.sign(seed, Utf8(Print(Obj(signed))))))),
        Member("challenge", Str(challenge))]))])))
  {
    CredentialTheorems.SeedRoundTrip(seed);
    var signed := PresentationMembers(vc, holder, challenge);
    CredentialTheorems.PresentationKeys(vc, holder, challenge);
    ChallengedProof(holder, SignatureHex(ed, seed, signed), challenge);
  }

  lemma ChallengedProof(holder: string, sigHex: string, challenge: string)
    ensures ProofMembers(holder, sigHex) + [Member("challenge", Str(challenge))] == [
      Member("type", Str("Ed25519Signature2018")),
      Member("verificationMethod", Str(holder + "#keys-1")),
      Member("proofValue", Str(sigHex)),
      Member("challenge", Str(challenge))]
  {
  }

  // ----- generate_did -----

  /** The answer for a did:web identity of this domain. */
  lemma WebIdentity(ed: Ed25519, domain: string, seed: Block)
    ensures GenerateDid(ed, "web:" + domain, seed) == GenerateDid(ed, "did:web:" + domain, seed)
    ensures domain == "" ==>
      GenerateDid(ed, "web:" + domain, seed) == Err("did:web requires a domain, e.g. 'web:example.com'")
    ensures domain != "" ==>
      var did, key := "did:web:" + domain, ed.publicKey(seed);
      GenerateDid(ed, "web:" + domain, seed) == Ok(Print(Obj([
        Member("did", Str(did)),
        Member("private_key_base58", Str(Base58.Encode(seed))),
        Member("did_document", Obj([
          Member("id", Str(did)),
          Member("verificationMethod", Arr([Obj([
            Member("id", Str(did + "#keys-1")),
            Member("type", Str("Ed25519VerificationKey2018")),
            Member("controller", Str(did)),
            Member("publicKeyBase58", Str(Base58.Encode(key))),
            Member("publicKeyMultibase", Str("z" + Base58.Encode([0xED, 0x01] + key)))])]))]))])))
  {
    WebRequest("web:", domain);
    WebRequest("did:web:", domain);
    if domain != "" {
      var did, key := "did:web:" + domain, ed.publicKey(seed);
      OneMethod(did, key);
      assert IdentityMembers(did, seed) + [Member("did_document", DocumentJson(DocumentFor(did, key)))]
        == [Member("did", Str(did)), Member("private_key_base58", Str(Base58.Encode(seed))),
            Member("did_document", DocumentJson(DocumentFor(did, key)))];
    }
  }

  lemma WebRequest(prefix: string, domain: string)
    requires prefix == "web:" || prefix == "did:web:"
    ensures WebDomain(prefix + domain) == Some(domain)
  {
    var request := prefix + domain;
    assert request[|prefix|..] == domain;
    assert prefix <= request;
    if prefix == "did:web:" {
      assert request[0] == 'd';
    }
  }

  lemma MethodIs(m: VerificationMethod, did: string, base58: string, multibase: string)
    requires m == VerificationMethod(did + "#keys-1", "Ed25519VerificationKey2018", did, Some(base58), Some(multibase))
    ensures MethodJson(m) == Obj([
      Member("id", Str(did + "#keys-1")),
      Member("type", Str("Ed25519VerificationKey2018")),
      Member("controller", Str(did)),
      Member("publicKeyBase58", Str(base58)),
      Member("publicKeyMultibase", Str(multibase))])
  {
  }

  lemma OneMethod(did: string, key: Block)
    ensures DocumentJson(DocumentFor(did, key)) == Obj([
      Member("id", Str(did)),
      Member("verificationMethod", Arr([Obj([
        Member("id", Str(did + "#keys-1")),
        Member("type", Str("Ed25519VerificationKey2018")),
        Member("controller", Str(did)),
        Member("publicKeyBase58", Str(Base58.Encode(key))),
        Member("publicKeyMultibase", Str("z" + Base58.Encode([0xED, 0x01] + key)))])]))])
  {
    var methods := DocumentFor(did, key).verificationMethod;
    assert methods[1..] == [];
    assert MethodsJson(methods) == [MethodJson(methods[0])] + MethodsJson([]) == [MethodJson(methods[0])];
    MethodIs(methods[0], did, Base58.Encode(key), "z" + Base58.Encode([0xED, 0x01] + key));
  }

  /** Every other request is answered with a did:key identity. */
  lemma KeyIdentity(ed: Ed25519, request: string, seed: Block)
    requires !("web:" <= request) && !("did:web:" <= request)
    ensures GenerateDid(ed, request, seed) == Ok(Print(Obj([
      Member("did", Str("did:key:z" + Base58.Encode([0xED, 0x01] + ed.publicKey(seed)))),
      Member("private_key_base58", Str(Base58.Encode(seed)))])))
  {
    DidKeyText(ed.publicKey(seed));
  }
}
