# Verification of did_rust

A Dafny model of the credential, identity and release-guard logic of this repository, with proofs
of what that logic is for. `dafny verify dfyconfig.toml` checks all of it.

## What is modelled

- **JSON** (`Json`, `JsonText`, `RawJson`, `JsonGrammar`, `JsonTokens`, `JsonLanguage`,
  `JsonRoundTrip`, `JsonShortest`). Order-preserving objects with serde_json's replace-or-append
  insertion and its *swap*-removal, the compact printer, and a parser on integers. The parser is
  proved to accept exactly the RFC 8259 grammar, the printer to write the shortest text.
- **Credentials** (`Credentials`, `CredentialTheorems`, `Acceptance`, `Verdicts`, `Issuance`). The
  four operations that issue and verify credentials and presentations, as functions from text to
  text and as methods that edit an object map in place. A signature covers printed bytes, so
  everything rests on the reprinted bytes being the signed ones.
- **DIDs** (`Radix`, `Base58`, `Resolver`, `DidDocuments`, `DidKeyShape`). Base conversion with
  leading zeros, the did:key codec, DID documents as JSON, the did:web URL.
- **Key derivation** (`Preimages`, `KeyDerivation`, `DerivedIdentities`). The four hash preimage
  layouts and the two bounded searches for a valid secp256k1 scalar.
- **Commit parity** (`Commits`, `ParityGuard`, `ParityTheorems`, `ParityReport`, `PushGate`). The
  checker script with its parallel arrays, its three modes and exit codes, the pre-push hook, and
  whole runs of pushes, local work, pin bumps and changes on disk.
- **Vault and login** (`Vault`, `Login`). Nonce framing and the JSON envelopes around it;
  provisioning of users at login, with database failures.

Primitives are values passed in, so every theorem holds for all of them: an Ed25519 scheme
(assumed lawful as in RFC 8032, sections 5.1.6 and 5.1.7), a hash function, an AEAD (RFC 8439,
section 2.8), the HTTP client, the date parser and the clock. `LawfulSchemeExists`,
`NotForgedIsPossible`, `OwnKeyOnlyIsPossible` and `LawfulAeadExists` show that what is assumed of
signatures and of the AEAD is not contradictory.

## Results that correct a natural expectation

- Issuing over a credential that already carries a `proof` member replaces it in place and signs
  bytes that contain the old proof; the verifier never rebuilds those bytes
  (`VerifierRebuildsSignedBytes`, `IssuedOverProofIsRejected`).
- Hash preimages of different schemes can coincide for *different* root seeds, in exactly one way
  (`PreimagesCoincide`, `OverlapHappens`); under one seed they never do.
- The pre-push hook protects a recorded pin exactly when some consumer the checker can judge builds
  from a descendant of the pin, or when a consumer's state blocks every push (`PinKeptIff`). A
  consumer's own submodule directory is enough (`PinIsJudgedIff`); without it the path dependency is
  judged instead and the pin can be dropped (`MissingDirectoryHidesPin`).
- A ref whose local name is not under `refs/heads/` is not validated: pushed by any such name, a commit
  can drop any pin, and orphans one from any state (`NameProtectsIff`, `UnguardedPushOrphans`). Pushes
  from branch refs keep published pins over every run while some consumer tracks each pin
  (`TrackedRunKeepsPins`), and no weaker condition on name and workspace would do (`NameKeepsPinsIff`).
- A credential that names a holder and has a `verifiableCredential` member can be accepted as a
  presentation once issued (`IssuedPassesAsPresentationIff`, `IssuedCredentialPassesAsPresentation`);
  the converse, a presentation accepted as a credential, never happens (`AcceptedVcWasIssued`).
- A created user's password is usable, at the end of any run, exactly when saving the unusable one
  failed and no later login has elevated the row (`CreatedPasswordUsableIff`). Only the row named
  ADMIN_DID is ever elevated, so for everyone else the failure is permanent (`UsablePasswordSticks`);
  the admin's row is repaired by the admin's next complete login, for good (`AdminStaysElevated`).
- The comment on `_get_or_create_user` says the password is made unusable on admin elevation only;
  the code does it on creation too, as the class comment says, and the model follows the code.

## Model

| member | source | states |
|---|---|---|
| Radix.ConvertBack | src/resolver.rs:53-62 | converting a digit string to another base and back, leading zeros included, is exact in both directions |
| Base58.DecodeOfEncode | src/lib.rs:160-164 | decoding a base58 text that was encoded gives the bytes, whatever their leading zeros |
| Base58.EncodeOfDecode | src/resolver.rs:53-55 | every base58 text that is accepted is the encoding of its decoding, leading `1`s included |
| Base58.Alphabet | src/resolver.rs:53-55 | the alphabet is the ASCII digits and letters without 0, O, I and l, in ASCII order |
| Bytes.HexRoundTrip | src/lib.rs:325 | hex decoding undoes hex encoding |
| Bytes.HexEncodeAt | src/lib.rs:325 | two lower-case digits a byte, the upper half first |
| Bytes.HexDecodeIff | src/lib.rs:83 | decoding accepts exactly the encodings, in either letter case |
| Bytes.Utf8Injective | src/lib.rs:153-154 | different texts have different UTF-8 bytes, so signing bytes is signing text |
| Bytes.EncodeCharLayout | src/lib.rs:153-154 | each character is encoded as section 3 of RFC 3629 lays it out |
| Bytes.LittleEndian32Is | src/crypto.rs:71 | the bytes of an index, lowest first, add up to it |
| Json.ObjectMap.InsertEntry | src/lib.rs:305-307 | the in-place map insertion: replace at the key's position or append |
| Json.ObjectMap.RemoveEntry | src/lib.rs:147-151 | the in-place removal that moves the last member into the hole |
| Json.GetIff | src/lib.rs:124-132 | looking up a key finds its member, wherever it is, and nothing else |
| Json.GetAfterInsert | src/lib.rs:305-307 | insertion changes the value of that key and of no other |
| Json.GetAfterSwapRemove | src/lib.rs:253-257 | as a key-value map, swap-removal removes that key and nothing else, and keys stay distinct |
| Json.SwapRemoveKeepsOrder | src/lib.rs:147-151 | swap-removal equals order-preserving removal if and only if the member is last or second to last |
| Json.SwapRemovePlaces | src/lib.rs:147-151 | the last member moves into the hole and no other moves |
| Json.InsertPlaces | src/lib.rs:305-307 | insertion writes the key's own place or the end and moves nothing |
| JsonText.ParsedIsValid | src/lib.rs:204-210 | whatever text is accepted, no object of the result repeats a key |
| JsonRoundTrip.ParseOfPrint | src/lib.rs:321-338 | for every value, parsing its print gives it back with repeated keys merged: the last value of each at its first position |
| JsonRoundTrip.RoundTrip | src/lib.rs:1067-1096 | parse after print is the identity exactly on values without repeated keys: nothing is lost or reordered |
| JsonLanguage.ParseIff | src/lib.rs:204-210 | the parser accepts exactly the texts of the RFC 8259 grammar with integers for numbers, white space, escapes and letter case included, each as its meaning with repeated keys merged |
| JsonLanguage.RawParseIff | src/lib.rs:204-210 | the texts that can be read, and as what, are exactly those of the grammar's trees |
| JsonTokens.UnicodeParses | src/lib.rs:204-205 | a unicode escape or a surrogate pair of them, in any letter case, is the character it encodes |
| JsonTokens.LoneSurrogateRefused | src/lib.rs:204-210 | a surrogate escape that starts no pair is an error |
| JsonShortest.PrintIsShortest | src/lib.rs:321-338 | no text that can be read as a value is shorter than the one printed for it |
| JsonShortest.PrintIs | src/lib.rs:321-338 | the printed text is the one text of a value that is as short as that and has its unicode escapes in lower case |
| JsonShortest.PlainTextPrints | src/lib.rs:321-338 | text without control characters, quotes and backslashes is printed as it is |
| JsonShortest.ControlPrints | src/lib.rs:321-338 | the other control characters are printed as two lower-case hexadecimal digits |
| JsonRoundTrip.PrintInjective | src/lib.rs:1098-1105 | different values, so also different key orders and repetitions, print differently |
| JsonRoundTrip.PayloadInjective | src/lib.rs:153-154 | different documents have different signed bytes |
| JsonRoundTrip.ReprintIsStable | src/lib.rs:147-154 | parsing, printing and parsing again gives what parsing gave |
| RawJson.RepeatedKeysInText | src/lib.rs:302-303 | for every text: it is accepted iff it can be read with its repeated keys kept, and the result is the one value that at every depth has each key once, in order of first occurrence, with its last value |
| RawJson.ParseIsMergedRaw | src/lib.rs:204-205 | for every text, parsing is reading it as it stands and merging the repeated keys of every object by map insertion |
| JsonRoundTrip.RawRoundTrip | src/lib.rs:321-338 | printing loses nothing at all: every value, repeated keys included, can be read back from its print |
| Resolver.ResolvesDidKey | src/resolver.rs:44-75 | resolving the DID of any 32-byte key returns the document of that key |
| Resolver.AcceptedDidKeyIsCanonical | src/resolver.rs:44-75 | every did:key string that resolves is the DID rebuilt from the key it decodes to |
| Resolver.DidKeyInjective | src/lib.rs:48-53 | different keys have different DIDs |
| Resolver.ResolveKeyIff | src/resolver.rs:44-75 | a did:key string resolves iff it is `did:key:z` and the base58 of 0xED, 0x01 and 32 bytes, and then to their document; else with which error |
| Resolver.KeyDocumentIs | src/resolver.rs:61-73 | that document, field by field |
| Resolver.ResolveOthers | src/resolver.rs:143-163 | did:web asks the network for one URL, did:ipfs and every other string is an error |
| Resolver.DidWebUrls | src/resolver.rs:90-103 | without slashes, two did:web strings share a URL iff they are equal or one is the other's bare domain with the segment `.well-known` |
| Resolver.SlashSharesUrl | src/resolver.rs:90-103 | every did:web string with a slash shares its URL with a different one, beyond the `.well-known` pair |
| Resolver.SplitColons | src/resolver.rs:92-95 | splitting never gives an empty list, so the branch for one is unreachable |
| DidKeyShape.KeyNumberBounds | src/crypto.rs:75-77 | the 34 multicodec bytes as a number lie between 18023 and 18024 times 58 to the 44th |
| DidKeyShape.DidKeyIsFixedShape | src/crypto.rs:75-80 | every Ed25519 DID has 56 characters and starts with `did:key:z6Mk` |
| DidDocuments.DocumentRoundTrip | src/resolver.rs:20-37 | every DID document survives being serialised and deserialised |
| DidDocuments.DocumentMembers | src/resolver.rs:20-37 | the members of a serialised document, absent texts as null |
| DidDocuments.ReadMethodIff | src/resolver.rs:27-37 | what a fetched method must hold: three texts and two optional ones |
| DidDocuments.ReadDocumentIff | src/resolver.rs:20-25 | what a fetched document must hold; a missing list of methods is the empty one |
| DidDocuments.ResolveDidText | src/lib.rs:387-392 | resolve_did prints the document, or an object with the error |
| DidDocuments.ResolveDidOfKey | src/lib.rs:387-392 | the text resolve_did prints for a did:key reads back as that key's document |
| Credentials.TryMethods | src/lib.rs:90-118 | the method loop accepts iff some method's 32-byte key verifies the signature |
| Verdicts.CarriesIff | src/lib.rs:91-107 | which key a method counts for: the base58 text if there is one, only else the multibase text with the Ed25519 prefix |
| Verdicts.CheckSignatureIff | src/lib.rs:82-121 | a signature is accepted iff it is 64 bytes in hexadecimal that verify under a key the DID's document carries |
| Verdicts.CheckSignatureErrors | src/lib.rs:82-121 | the four errors of the signature check, in order |
| Credentials.InternalVerifySignature | src/lib.rs:82-121 | hex, length, resolution and key checks in order, each with its error |
| Credentials.InternalVerifyVc | src/lib.rs:123-158 | the credential check on a document edited in place is the specification CheckVc |
| Credentials.VerifyVc | src/lib.rs:203-215 | the verdict on a credential text |
| Credentials.VerifyVp | src/lib.rs:217-299 | the verdict on a presentation text, with the first failing credential reported |
| Verdicts.CredentialVerdict | src/lib.rs:123-158 | the credential check, test by test with its errors, in terms of the members, the clock and the keys |
| Verdicts.PresentationVerdict | src/lib.rs:225-268 | the checks on a presentation before its credentials, with their errors |
| Verdicts.ListVerdict | src/lib.rs:270-298 | a signed presentation of a list, of any length, is valid iff each credential is; else the first failure is reported |
| Verdicts.SingleVerdict | src/lib.rs:270-298 | a single object is checked like a list of one |
| Verdicts.NothingPresented | src/lib.rs:270-284 | any other verifiableCredential, or none, is an error |
| Verdicts.TextVerdicts | src/lib.rs:203-299 | from text to verdict: invalid JSON, valid, or invalid with the error |
| Verdicts.OtherValuesRefused | src/lib.rs:123-231 | a value that is no object is refused for its missing proof |
| Credentials.IssueVc | src/lib.rs:301-339 | issuing by two insertions into one map, with the errors in order |
| Credentials.IssueVp | src/lib.rs:341-385 | presenting by insertion into the built map, with the errors in order |
| Issuance.IssueVcWrites | src/lib.rs:301-339 | the issued text, member by member: issuer before signing, proof of everything else after |
| Issuance.IssueVcRefuses | src/lib.rs:301-315 | the refusals of issue_vc, in order |
| Issuance.IssueVpWrites | src/lib.rs:341-385 | the presentation text, member by member, with its challenge in both places |
| Issuance.IssueVpRefuses | src/lib.rs:341-362 | the refusals of issue_vp, in order |
| Issuance.WebIdentity | src/lib.rs:160-190 | the answer to `web:` and `did:web:` requests, member by member, or the error for an empty domain |
| Issuance.KeyIdentity | src/lib.rs:191-200 | the answer to every other request |
| CredentialTheorems.BothRoutesAgree | src/lib.rs:91-107 | base58 and multibase texts of a key give the same bytes, whichever a document carries |
| CredentialTheorems.DidKeyCheck | src/lib.rs:82-121 | for a did:key the check is one signature check against the key in the DID |
| CredentialTheorems.PublishedDidWebControls | src/lib.rs:174-185 | the document handed out for a did:web identity, once served at its URL, vouches for its key |
| CredentialTheorems.VerifierRebuildsSignedBytes | src/lib.rs:305-336 | the verifier's bytes are the signed bytes if and only if the credential had no proof member |
| CredentialTheorems.IssuedVcChecks | src/lib.rs:123-158 | an issued credential is accepted, or reported as expired iff its expirationDate is text that parses to an earlier time |
| CredentialTheorems.PresentedVpChecks | src/lib.rs:217-299 | a presentation made by its holder gets the verdict of the credential in it |
| CredentialTheorems.EndToEnd | src/lib.rs:301-385 | issue, print, present, print, verify: valid both for the presentation and for the credential, for all keys their DIDs' documents hold |
| CredentialTheorems.EndToEndDidKey | src/lib.rs:301-385 | the same for every pair of did:key identities, whatever the network answers, with both verdicts for an expired credential spelled out |
| CredentialTheorems.AcceptedKeys | src/lib.rs:309-319 | the private keys accepted are exactly the base58 texts of 32-byte seeds |
| CredentialTheorems.IssueSucceedsIff | src/lib.rs:301-339 | issuing succeeds iff the text is a JSON object and the key is such a text, and then gives the issued document |
| DerivedIdentities.DerivedIdentitiesWork | src/crypto.rs:97-147 | root and dependent derived identities issue and present credentials that verify, under DIDs of the fixed shape |
| CredentialTheorems.GeneratedIdentity | src/lib.rs:160-201 | generate_did fails only for an empty domain; its text names a DID, a seed issue_vc accepts, and the document to publish |
| Acceptance.AcceptedVcWasIssued | src/lib.rs:123-158 | an accepted credential, forged under no key of its issuer's document, is, apart from its proof, one issued under that DID, of whatever method, and never a presentation |
| Acceptance.AcceptedVcOfDidKey | src/lib.rs:82-158 | for a did:key issuer it is enough that the signature was not forged under the key in the DID |
| Acceptance.AcceptedVpWasSigned | src/lib.rs:225-272 | an accepted presentation, forged under no key of its holder's document, is, apart from its proof, a signed presentation of the one credential in it, or a signed credential that names the holder and embeds credentials |
| Acceptance.AcceptedVpOfDidKey | src/lib.rs:225-272 | the same for a did:key holder, from the one key in the DID |
| Acceptance.IssuedPassesAsPresentationIff | src/lib.rs:217-339 | an issued credential is accepted as a presentation iff its holder's DID accepts the signature and its embedded credentials are all valid; where a signature fits one key, iff the holder's DID has the signing key |
| Acceptance.IssuedCredentialPassesAsPresentation | src/lib.rs:270-298 | a credential naming its issuer as holder, with an empty list, is an accepted presentation once issued |
| Acceptance.IssuedOverProofIsRejected | src/lib.rs:305-336 | issuing by any DID over a credential that had a proof gives a document that is rejected, unless the signature fits other bytes under a key of that DID |
| Acceptance.OnlyProofValueMatters | src/lib.rs:123-158 | replacing the proof in place with the same proofValue never changes the verdict |
| Acceptance.OnlyProofValueMattersInVp | src/lib.rs:225-298 | the same for a presentation: no proof field but proofValue is checked |
| Acceptance.FirstFailureIsLeast | src/lib.rs:286-296 | the error reported is that of the least index at which a credential fails |
| Acceptance.VpValidIff | src/lib.rs:217-299 | valid iff the holder signed and every credential in the list is valid, or the single object in its place |
| Acceptance.RejectedStaysRejected | src/lib.rs:134-140 | with did:key parties and a clock that never goes back, a rejected presentation is never accepted later |
| Preimages.PreimagesCoincide | src/crypto.rs:24-28 | across all seeds, schemes, indices and attempts, exactly when two hash preimages are equal |
| Preimages.OneSeedSeparates | src/crypto.rs:117-121 | under one root seed no two derivations hash the same bytes |
| Preimages.NostrDomain | src/crypto.rs:24 | the Nostr domain is the bytes of its text |
| Preimages.DependentEd25519Domain | src/crypto.rs:25 | the dependent Ed25519 domain likewise |
| Preimages.DependentNostrDomain | src/crypto.rs:26 | the dependent Nostr domain likewise |
| Preimages.OverlapHappens | src/crypto.rs:153-178 | pairs of different seeds with a shared preimage exist for every index |
| KeyDerivation.Sha256Concat | src/crypto.rs:186-195 | hashing part by part is hashing the concatenation |
| KeyDerivation.SearchFindsLeast | src/crypto.rs:149-184 | the search returns the candidate of the least valid attempt and fails iff all 256 are invalid |
| KeyDerivation.ValidScalarIff | src/crypto.rs:179 | a valid scalar is 32 bytes, not all zero, that come before the group order byte by byte |
| KeyDerivation.DeriveSecp256k1Scalar | src/crypto.rs:171-184 | the loop over collected inputs is the generic search: the hash of domain, seed and index, or of those and the least attempt byte that makes it valid |
| KeyDerivation.DeriveDependentSecp256k1Scalar | src/crypto.rs:149-169 | the loop over an incremental hasher is the same search under the other domain |
| KeyDerivation.DidOfPublicKey | src/crypto.rs:125-131 | the DID made from the filled 34-byte buffer is the DID of the key |
| KeyDerivation.DeriveEd25519Did | src/crypto.rs:67-81 | the private key is the hash of seed and index, the DID that of its public key |
| KeyDerivation.DeriveNostrKeypair | src/crypto.rs:83-95 | fails only when the search does: the second validity check never fails |
| KeyDerivation.DeriveIdentityFromPrf | src/crypto.rs:97-110 | the root identity by its hash inputs: private key, scalar of the least valid attempt, DID and Nostr key; fails iff all 256 candidates are invalid |
| KeyDerivation.DeriveDependentSubkeys | src/crypto.rs:112-147 | the dependent identity, likewise, by its own hash inputs |
| KeyDerivation.DerivationFailsIff | src/crypto.rs:149-184 | deriving an identity fails iff all 256 candidates are invalid, and its scalar is valid |
| Vault.EncryptVaultPayload | src/vault_crypto.rs:33-42 | the buffer starts with the nonce, continues with the sealed bytes, is 28 bytes longer than the plaintext, and decrypts to it |
| Vault.VaultRoundTrip | src/vault_crypto.rs:33-58 | decryption undoes encryption, the output is 28 bytes longer, and the split point recovers nonce and sealed part |
| Vault.DecryptedIff | src/vault_crypto.rs:44-58 | decryption succeeds iff there are 28 bytes and opening the rest under the first 12 does; else with which error |
| Vault.OnlyEncryptedDecrypts | src/vault_crypto.rs:33-58 | under a scheme that opens only what was sealed, whatever decrypts is an output of encryption |
| Vault.EnvelopeRoundTrip | src/lib.rs:597-653 | through both JSON envelopes the reported hex is that of the plaintext, and the text is reported iff it is UTF-8 |
| Vault.EncryptEnvelopeText | src/lib.rs:597-625 | the encryption envelope, member by member |
| Vault.DecryptEnvelopeText | src/lib.rs:627-658 | the decryption envelope of a failure |
| Vault.OpenedEnvelopeText | src/lib.rs:644-653 | the decryption envelope of a success, with text iff the plaintext is UTF-8 |
| Commits.AncestorAntisymmetric | scripts/check_did_submodules.sh:366-371 | two commits that reach each other are the same commit |
| Commits.AncestorIsReachable | scripts/check_did_submodules.sh:326 | an ancestor is what a walk from parent to parent reaches |
| Commits.AheadCount | scripts/check_did_submodules.sh:362 | the number of commits ahead is at least 1 exactly for a proper descendant |
| ParityGuard.Checker.EmitSite | scripts/check_did_submodules.sh:144-151 | the six arrays grow by one aligned row |
| ParityGuard.Checker.AddViolation | scripts/check_did_submodules.sh:153-156 | one violation is appended and no row changes |
| ParityGuard.Checker.ResolveConsumer | scripts/check_did_submodules.sh:176-238 | every consumer gets exactly one row and its violations, branch by branch |
| ParityGuard.Checker.RequireReachable | scripts/check_did_submodules.sh:321-332 | the pre-push loop reports the rows not reachable from the pushed commit, in order |
| ParityGuard.Checker.CompareWithCanonical | scripts/check_did_submodules.sh:336-375 | at most one violation: disagreement, or a canonical HEAD elsewhere, with their relation |
| ParityGuard.CheckSubmodules | scripts/check_did_submodules.sh:128-396 | the script from arguments to exit code, with its rows and violations |
| ParityGuard.ThreeSites | scripts/check_did_submodules.sh:240-242 | a run that starts reports exactly three rows |
| ParityReport.ConsumersAre | scripts/check_did_submodules.sh:240-242 | the three consumers with their repositories and submodule paths |
| ParityReport.RowType | scripts/check_did_submodules.sh:181-237 | each of the eight row types, for exactly which observations |
| ParityReport.RowColumns | scripts/check_did_submodules.sh:181-237 | the other columns of a row, by its type |
| ParityReport.RowViolation | scripts/check_did_submodules.sh:181-237 | the violation that comes with a row, by its type |
| ParityReport.OrphanedIs | scripts/check_did_submodules.sh:321-332 | pre-push mode reports exactly the rows left behind, in order |
| ParityReport.DisagreementIs | scripts/check_did_submodules.sh:333-375 | what the other modes say about three rows, case by case |
| ParityReport.RunViolations | scripts/check_did_submodules.sh:240-375 | the violations of a run: the rows' own, then the mode's |
| ParityReport.ExitCodes | scripts/check_did_submodules.sh:128-396 | 2 without a commit to compare with, else 0 or 1 by the violations |
| ParityTheorems.ResolutionSilentIff | scripts/check_did_submodules.sh:176-238 | a consumer raises no violation iff it resolves and has not drifted; unresolvable ones always raise one |
| ParityTheorems.StrictIff | scripts/check_did_submodules.sh:333-388 | strict mode passes iff all three resolve, no worktree drifted, and all build the canonical HEAD |
| ParityTheorems.TolerantIff | scripts/check_did_submodules.sh:345-375 | tolerant mode passes iff all are sound and agree on a commit the canonical HEAD descends from |
| ParityTheorems.PrePushIff | scripts/check_did_submodules.sh:321-332 | pre-push mode passes iff the pushed commit is known, all are sound, and all their commits are reachable from it |
| ParityTheorems.TolerantIsAgreementAndPrePush | scripts/check_did_submodules.sh:321-375 | tolerant mode is agreement together with pre-push mode against the canonical HEAD |
| ParityTheorems.StrictImpliesTolerant | scripts/check_did_submodules.sh:345-375 | what strict mode passes tolerant mode passes |
| ParityTheorems.PrePushCarriesOver | scripts/check_did_submodules.sh:321-332 | acceptance of a push carries over to every descendant |
| ParityTheorems.RelationsExclusive | scripts/check_did_submodules.sh:360-373 | behind, ahead and diverged are exclusive and exhaustive; what is tolerated is behind by at least one commit |
| PushGate.PrePushHook | scripts/githooks/pre-push:15-31 | the hook exits 0 iff every branch ref that is no deletion passes |
| PushGate.AcceptedPushCovers | scripts/githooks/pre-push:17-31 | an accepted push reaches both recorded pins and the commit iyou_mobile builds against |
| PushGate.NameProtectsIff | scripts/githooks/pre-push:17-31 | for every workspace, local ref name and pin: no commit let through under that name drops the pin iff the name is a branch and the pin is tracked or no push can pass |
| PushGate.EveryPublishedStateIsReachable | scripts/githooks/pre-push:3-31 | the runs considered leave nothing out: from any state they lead to every state with published pins |
| PushGate.TrackedRunKeepsPins | scripts/githooks/pre-push:3-6 | over whole runs, rewrites included, published pins stay published if each push is from a branch ref while some consumer tracks each pin |
| PushGate.NameKeepsPinsIff | scripts/githooks/pre-push:3-31 | that condition is exact: from any state, runs of work and a push by a name keep both pins iff the name is a branch and both pins are tracked or no push can pass |
| PushGate.GuardedRunKeepsPins | scripts/githooks/pre-push:3-31 | with branch refs and submodule directories in place no published pin is ever orphaned |
| PushGate.PinKeptIff | scripts/check_did_submodules.sh:192-332 | no push that passes leaves a pin behind iff some judged consumer builds from a descendant of it, or a consumer blocks every push |
| PushGate.MissingDirectoryHidesPin | scripts/check_did_submodules.sh:192-230 | a workspace without the directory whose pin an accepted push drops |
| PushGate.UnguardedPushOrphans | scripts/githooks/pre-push:17-31 | from every state with published pins, by every name that is no branch, some push is accepted and orphans one |
| Login.Backend.GetOrCreateUser | docs/ecosystem_shared/auth_pkce.py:456-500 | one login with its dirty flag and saves, faults included |
| Login.LoginsEvolve | docs/ecosystem_shared/auth_pkce.py:456-500 | over every sequence of logins usernames stay unique, flags are never lost, and only the row named by a non-empty ADMIN_DID gains them |
| Login.NobodyIsAdmin | docs/ecosystem_shared/auth_pkce.py:481-483 | without ADMIN_DID, or with the empty one, no row ever changes and none is created with a flag |
| Login.OnlyTheAdminGains | docs/ecosystem_shared/auth_pkce.py:481-498 | with one, only the row of that name ever changes or has a flag it did not have |
| Login.NoSubjectRefused | docs/ecosystem_shared/auth_pkce.py:456-477 | a login without a subject, or that cannot reach the table, changes nothing and is refused |
| Login.KnownSubject | docs/ecosystem_shared/auth_pkce.py:463-500 | what a login does to an existing row, for every state, fault and ADMIN_DID |
| Login.NewSubject | docs/ecosystem_shared/auth_pkce.py:463-500 | what the first login of a subject does, likewise |
| Login.SessionUserIsStored | docs/ecosystem_shared/auth_pkce.py:485-500 | the user of the session is the stored row: no dirty write is lost |
| Login.RepeatedLoginWritesNothing | docs/ecosystem_shared/auth_pkce.py:463-500 | a repeated login writes nothing and returns the same user |
| Login.CreatedRow | docs/ecosystem_shared/auth_pkce.py:456-477 | a row is added iff the subject is new, it holds the subject and the profile claims, and its password is usable iff saving the unusable one failed |
| Login.CreatedPasswordsUnusable | docs/ecosystem_shared/auth_pkce.py:472-474 | if saving the unusable password never fails, every created row has one |
| Login.CreatedPasswordUsableIff | docs/ecosystem_shared/auth_pkce.py:472-498 | at the end of any run a created row's password is usable iff saving the unusable one failed and no login since elevated the row |
| Login.PasswordStaysUsableIff | docs/ecosystem_shared/auth_pkce.py:485-498 | over any run a row keeps a usable password iff no login of the run elevates it |
| Login.AdminStaysElevated | docs/ecosystem_shared/auth_pkce.py:481-498 | once the admin has logged in, the admin's row keeps both flags and an unusable password for good |
| Login.UsablePasswordSticks | docs/ecosystem_shared/auth_pkce.py:463-500 | later logins of a user who is not the admin leave the row as it is |

## Left out

- Curve, hash and cipher internals and random generation: library code; they are parameters with the assumptions named above.
- JSON floating-point numbers, and with them `-0` and integers outside the ranges of i64 and u64: the parser refuses them here.
- The JSON library's nesting limit: depth is unbounded here, so a text nested deeper than the limit is accepted by the model only.
- Credentials.InternalVerifySignature: does not carry the base58 library's error text inside a resolution error, which that library decides; both callers discard it.
- Credentials.VerifyVc: does not carry the JSON library's message after `Invalid JSON`, which that library decides.
- The JSON text around verdicts: a verdict is its `valid` flag and error.
- RFC 3339 date parsing: a partial function from text to time; text it does not map is ignored, as in the code.
- HTTP fetching of did:web documents and the feature switch for it: a function from URL to document or error, constant during one verification.
- The clock: one instant serves a whole verification, while the code reads the clock once for each credential.
- Raw pointers, C strings, zeroisation and the wasm bindings: foreign calls and memory layout.
- Git and the file system: what they report is the input of the checker. Commits are compared as values, so hash collisions and shallow clones are not modelled.
- Option parsing, the printed table and the JSON report of the checker script.
- A pushed deletion and a push to other branches: they do not move the published branch of the run model.
- Concurrent logins, and profile claims that are not text: each login sees the table the previous one left.
- The PKCE request view: it reads its parameters before assigning them, so its success path never completes; also the token and userinfo calls, logout and settings lookup.
