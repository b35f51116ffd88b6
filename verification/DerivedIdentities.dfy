/** Derived identities in use: their DIDs and private keys fit the credential pipeline. */
module DerivedIdentities {
  import opened Wrappers
  import opened Bytes
  import opened Json
  import opened JsonText
  import opened Credentials
  import opened CredentialTheorems
  import KeyDerivation
  import Preimages
  import Resolver
  import Base58
  import DidKeyShape

  /**
   Root and dependent identities alike: a credential issued with the derived private key under the
   derived DID verifies unless expired, also inside a presentation by any other derived identity.
   */
  lemma DerivedIdentitiesWork(w: World, p: KeyDerivation.Primitives,
                              issuer: KeyDerivation.Identity, holder: KeyDerivation.Identity,
                              credential: string, ms: Members, challenge: string)
    requires w.ed.Lawful() && Parse(credential) == Some(Obj(ms)) && !Has(ms, "proof")
    requires forall seed: Block :: p.edPublicKey(seed) == w.ed.publicKey(seed)
    requires IsDerived(p, issuer) && IsDerived(p, holder)
    ensures var vc := Issued(w.ed, credential, issuer.did, Base58.Encode(issuer.edSeed));
      vc.Ok? && var vp := Presented(w.ed, vc.value, holder.did, challenge, Base58.Encode(holder.edSeed));
      vp.Ok? && DeservedVerdicts(PastExpiry(w, ms), VcVerdict(w, vc.value), VpVerdict(w, vp.value))
    ensures |issuer.did| == 56 && issuer.did[..12] == "did:key:z6Mk"
  {
    DerivedDid(p, issuer);
    DerivedDid(p, holder);
    EndToEndDidKey(w, credential, ms, issuer.edSeed, holder.edSeed, challenge);
    DidKeyShape.DidKeyIsFixedShape(w.ed.publicKey(issuer.edSeed));
  }

  lemma DerivedDid(p: KeyDerivation.Primitives, id: KeyDerivation.Identity)
    requires IsDerived(p, id)
    ensures id.did == Resolver.DidKey(p.edPublicKey(id.edSeed))
  {
  }

  /** The result of one of the two derivations for some seed and index. */
  ghost predicate IsDerived(p: KeyDerivation.Primitives, id: KeyDerivation.Identity) {
    exists seed: Block, index: u32 ::
      || KeyDerivation.IdentityOf(p, Preimages.RootEd25519, Preimages.RootNostr, seed, index) == Ok(id)
      || KeyDerivation.IdentityOf(p, Preimages.DependentEd25519, Preimages.DependentNostr, seed, index) == Ok(id)
  }
}
