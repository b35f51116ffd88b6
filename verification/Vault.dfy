/** src/vault_crypto.rs and its JSON envelopes: nonce, ciphertext and tag in one byte string. */
module Vault {
  import opened Wrappers
  import opened Bytes
  import opened Json
  import opened JsonText
  import opened KeyDerivation
  import JsonRoundTrip

  const NONCE_LEN := 12
  const TAG_LEN := 16
  const HEADER_LEN := NONCE_LEN + TAG_LEN

  type Nonce = s: seq<byte> | |s| == NONCE_LEN witness seq(NONCE_LEN, _ => 0)

  /** ChaCha20-Poly1305, left abstract; sealing may refuse (a plaintext too long for it). */
  datatype Aead = Aead(
    seal: (Block, Nonce, seq<byte>) -> Option<seq<byte>>,
    open: (Block, Nonce, seq<byte>) -> Option<seq<byte>>)
  {
    /** RFC 8439, section 2.8: 16 bytes of tag, and opening undoes sealing. */
    ghost predicate Lawful() {
      forall kek: Block, nonce: Nonce, plaintext: seq<byte> | seal(kek, nonce, plaintext).Some? ::
        var sealed := seal(kek, nonce, plaintext).value;
        |sealed| == |plaintext| + TAG_LEN && open(kek, nonce, sealed) == Some(plaintext)
    }

    ghost predicate SealsAll() {
      forall kek: Block, nonce: Nonce, plaintext: seq<byte> :: seal(kek, nonce, plaintext).Some?
    }
  }

  /** The assumptions contradict nothing: there is a scheme that meets them and seals every plaintext. */
  lemma LawfulAeadExists()
    ensures exists aead: Aead :: aead.Lawful() && aead.SealsAll()
  {
    var tag: seq<byte> := seq(TAG_LEN, _ => 0);
    var aead := Aead(
      (kek: Block, nonce: Nonce, plaintext: seq<byte>) => Some(plaintext + tag),
      (kek: Block, nonce: Nonce, sealed: seq<byte>) =>
        if |sealed| < TAG_LEN then None else Some(sealed[..|sealed| - TAG_LEN]));
    forall kek: Block, nonce: Nonce, plaintext: seq<byte>
      ensures aead.open(kek, nonce, aead.seal(kek, nonce, plaintext).value) == Some(plaintext)
    {
      assert (plaintext + tag)[..|plaintext|] == plaintext;
    }
    assert aead.Lawful() && aead.SealsAll();
  }

  const AEAD_FAILED := CipherOperation("AEAD authentication failed")

  function TooShort(n: nat): CryptoError {
    InvalidInput("ciphertext too short: expected at least 28 bytes, got " + PrintNat(n))
  }

  /** encrypt_vault_payload with the random nonce as a parameter. */
  method EncryptVaultPayload(aead: Aead, kek: Block, nonce: Nonce, plaintext: seq<byte>)
    returns (r: Result<seq<byte>, CryptoError>)
    ensures r.Ok? <==> aead.seal(kek, nonce, plaintext).Some?
    ensures r.Ok? ==> |r.value| >= NONCE_LEN && r.value[..NONCE_LEN] == nonce
    ensures r.Ok? ==> Some(r.value[NONCE_LEN..]) == aead.seal(kek, nonce, plaintext)
    ensures r.Ok? && aead.Lawful() ==> |r.value| == |plaintext| + HEADER_LEN
    ensures r.Ok? && aead.Lawful() ==> Decrypted(aead, kek, r.value) == Ok(plaintext)
    ensures r == Encrypted(aead, kek, nonce, plaintext)
  {
    var sealed :- aead.seal(kek, nonce, plaintext).ToResult(AEAD_FAILED);
    var output: seq<byte> := [];
    output := output + nonce;
    output := output + sealed;
    assert output == nonce + sealed;
    assert output[..NONCE_LEN] == nonce && output[NONCE_LEN..] == sealed;
    return Ok(output);
  }

  function Encrypted(aead: Aead, kek: Block, nonce: Nonce, plaintext: seq<byte>): Result<seq<byte>, CryptoError> {
    var sealed :- aead.seal(kek, nonce, plaintext).ToResult(AEAD_FAILED);
    Ok(nonce + sealed)
  }

  function Decrypted(aead: Aead, kek: Block, ciphertext: seq<byte>): Result<seq<byte>, CryptoError> {
    if |ciphertext| < HEADER_LEN then Err(TooShort(|ciphertext|))
    else aead.open(kek, ciphertext[..NONCE_LEN], ciphertext[NONCE_LEN..]).ToResult(AEAD_FAILED)
  }

  /** Decrypting what was encrypted returns it; the frame is the nonce and 16 bytes more than the plaintext. */
  lemma VaultRoundTrip(aead: Aead, kek: Block, nonce: Nonce, plaintext: seq<byte>)
    requires aead.Lawful() && Encrypted(aead, kek, nonce, plaintext).Ok?
    ensures var out := Encrypted(aead, kek, nonce, plaintext).value;
      && |out| == |plaintext| + HEADER_LEN
      && out[..NONCE_LEN] == nonce && Some(out[NONCE_LEN..]) == aead.seal(kek, nonce, plaintext)
      && Decrypted(aead, kek, out) == Ok(plaintext)
  {
    var out := Encrypted(aead, kek, nonce, plaintext).value;
    assert out[..NONCE_LEN] == nonce && out[NONCE_LEN..] == aead.seal(kek, nonce, plaintext).value;
  }

  /** Exactly when decryption succeeds and with what; and the two ways in which it does not. */
  lemma DecryptedIff(aead: Aead, kek: Block, c: seq<byte>, plaintext: seq<byte>)
    ensures Decrypted(aead, kek, c) == Ok(plaintext) <==>
      |c| >= 28 && aead.open(kek, c[..12], c[12..]) == Some(plaintext)
    ensures |c| < 28 ==>
      Decrypted(aead, kek, c)
      == Err(InvalidInput("ciphertext too short: expected at least 28 bytes, got " + PrintInt(|c|)))
    ensures |c| >= 28 && aead.open(kek, c[..12], c[12..]) == None ==>
      Decrypted(aead, kek, c) == Err(CipherOperation("AEAD authentication failed"))
  {
  }

  /** Under a scheme that opens only what was sealed, decryption succeeds on encryption's outputs only. */
  lemma OnlyEncryptedDecrypts(aead: Aead, kek: Block, c: seq<byte>, plaintext: seq<byte>)
    requires aead.Lawful() && Decrypted(aead, kek, c) == Ok(plaintext)
    requires forall nonce: Nonce, sealed: seq<byte> ::
      aead.open(kek, nonce, sealed) == Some(plaintext) ==> aead.seal(kek, nonce, plaintext) == Some(sealed)
    ensures Encrypted(aead, kek, c[..12], plaintext) == Ok(c) && |c| == |plaintext| + 28
  {
    DecryptedIff(aead, kek, c, plaintext);
    assert c == c[..12] + c[12..];
  }

  // ----- envelopes -----

  function ErrorText(e: CryptoError): string {
    match e
    case ScalarDerivationFailed => "Failed to derive a valid scalar from seed material"
    case InvalidInput(message) => "Invalid input: " + message
    case CipherOperation(message) => "Cipher operation failed: " + message
  }

  function EncryptEnvelope(aead: Aead, kek: Block, nonce: Nonce, plaintext: seq<byte>): string {
    Print(Obj(match Encrypted(aead, kek, nonce, plaintext)
              case Ok(sealed) => [Member("valid", Bool(true)), Member("ciphertext_hex", Str(HexEncode(sealed))),
                                  Member("error", Null)]
              case Err(e) => [Member("valid", Bool(false)), Member("ciphertext_hex", Str("")),
                              Member("error", Str(ErrorText(e)))]))
  }

  ghost function TextOrNull(t: Option<string>): Json {
    match t case Some(s) => Str(s) case None => Null
  }

  ghost function DecryptedMembers(aead: Aead, kek: Block, ciphertext: seq<byte>): Members {
    match Decrypted(aead, kek, ciphertext)
    case Ok(plaintext) =>
      [Member("valid", Bool(true)), Member("plaintext_utf8", TextOrNull(FromUtf8(plaintext))),
       Member("plaintext_hex", Str(HexEncode(plaintext))), Member("error", Null)]
    case Err(e) =>
      [Member("valid", Bool(false)), Member("plaintext_utf8", Null),
       Member("plaintext_hex", Str("")), Member("error", Str(ErrorText(e)))]
  }

  ghost function DecryptEnvelope(aead: Aead, kek: Block, ciphertext: seq<byte>): string {
    Print(Obj(DecryptedMembers(aead, kek, ciphertext)))
  }

  ghost function Field(envelope: string, key: string): Option<Json> {
    match Parse(envelope)
    case Some(Obj(ms)) => Get(ms, key)
    case _ => None
  }

  /** Every member of a printed object can be read from its text. */
  lemma FieldOf(ms: Members, i: nat)
    requires Valid(Obj(ms)) && i < |ms|
    ensures Field(Print(Obj(ms)), ms[i].key) == Some(ms[i].value)
  {
    JsonRoundTrip.RoundTrip(Obj(ms));
    IndexIsUnique(ms, i);
  }

  lemma EncryptEnvelopeFields(aead: Aead, kek: Block, nonce: Nonce, plaintext: seq<byte>)
    requires Encrypted(aead, kek, nonce, plaintext).Ok?
    ensures Field(EncryptEnvelope(aead, kek, nonce, plaintext), "ciphertext_hex")
      == Some(Str(HexEncode(Encrypted(aead, kek, nonce, plaintext).value)))
  {
    var ms := [Member("valid", Bool(true)),
      Member("ciphertext_hex", Str(HexEncode(Encrypted(aead, kek, nonce, plaintext).value))), Member("error", Null)];
    assert |ms[0].key| == 5 && |ms[1].key| == 14 && ms[0].key[0] == 'v' && ms[2].key[0] == 'e';
    FieldOf(ms, 1);
  }

  lemma EnvelopeKeys(ms: Members)
    requires |ms| == 4 && |ms[1].key| == 14 && |ms[2].key| == 13
    requires |ms[0].key| == |ms[3].key| == 5 && ms[0].key[0] != ms[3].key[0]
    ensures DistinctKeys(ms)
  {
  }

  lemma DecryptEnvelopeFields(aead: Aead, kek: Block, ciphertext: seq<byte>, plaintext: seq<byte>)
    requires Decrypted(aead, kek, ciphertext) == Ok(plaintext)
    ensures Field(DecryptEnvelope(aead, kek, ciphertext), "valid") == Some(Bool(true))
    ensures Field(DecryptEnvelope(aead, kek, ciphertext), "plaintext_hex") == Some(Str(HexEncode(plaintext)))
    ensures Field(DecryptEnvelope(aead, kek, ciphertext), "plaintext_utf8") == Some(TextOrNull(FromUtf8(plaintext)))
  {
    var ms := DecryptedMembers(aead, kek, ciphertext);
    assert |ms[0].key| == 5 && |ms[1].key| == 14 && |ms[2].key| == 13 && ms[0].key[0] == 'v' && ms[3].key[0] == 'e';
    EnvelopeKeys(ms);
    FieldOf(ms, 0);
    FieldOf(ms, 1);
    FieldOf(ms, 2);
  }

  /** The envelope of a vault operation that failed. */
  ghost predicate Refuses(envelope: string, error: string) {
    envelope == Print(Obj(
      [Member("valid", Bool(false)), Member("plaintext_utf8", Null), Member("plaintext_hex", Str("")),
       Member("error", Str(error))]))
  }

  /** Both envelopes are the compact text of an object with exactly these members, in this order. */
  lemma EncryptEnvelopeText(aead: Aead, kek: Block, nonce: Nonce, plaintext: seq<byte>)
    ensures EncryptEnvelope(aead, kek, nonce, plaintext) == Print(Obj(
      match aead.seal(kek, nonce, plaintext)
      case Some(sealed) => [Member("valid", Bool(true)), Member("ciphertext_hex", Str(HexEncode(nonce + sealed))),
                            Member("error", Null)]
      case None => [Member("valid", Bool(false)), Member("ciphertext_hex", Str("")),
                    Member("error", Str("Cipher operation failed: " + "AEAD authentication failed"))]))
  {
  }

  lemma DecryptEnvelopeText(aead: Aead, kek: Block, c: seq<byte>)
    ensures |c| < 28 ==>
      Refuses(DecryptEnvelope(aead, kek, c),
        "Invalid input: " + ("ciphertext too short: expected at least 28 bytes, got " + PrintInt(|c|)))
    ensures |c| >= 28 && aead.open(kek, c[..12], c[12..]) == None ==>
      Refuses(DecryptEnvelope(aead, kek, c), "Cipher operation failed: " + "AEAD authentication failed")
  {
  }

  /** On success the text is reported exactly if the plaintext is UTF-8. */
  lemma OpenedEnvelopeText(aead: Aead, kek: Block, c: seq<byte>, plaintext: seq<byte>, text: Json)
    requires |c| >= 28 && aead.open(kek, c[..12], c[12..]) == Some(plaintext)
    requires if text.Str? then Utf8(text.s) == plaintext else text.Null? && forall t: string :: Utf8(t) != plaintext
    ensures DecryptEnvelope(aead, kek, c) == Print(Obj(
      [Member("valid", Bool(true)), Member("plaintext_utf8", text),
       Member("plaintext_hex", Str(HexEncode(plaintext))), Member("error", Null)]))
  {
    if text.Str? {
      Utf8Injective(text.s, FromUtf8(plaintext).value);
    }
  }

  /**
   Through both envelopes, as text: the hexadecimal ciphertext read from the first decodes to
   bytes whose decryption reports the hexadecimal of the plaintext, and its text when it is UTF-8.
   */
  lemma EnvelopeRoundTrip(aead: Aead, kek: Block, nonce: Nonce, plaintext: seq<byte>, hex: string)
    requires aead.Lawful() && Encrypted(aead, kek, nonce, plaintext).Ok?
    requires Field(EncryptEnvelope(aead, kek, nonce, plaintext), "ciphertext_hex") == Some(Str(hex))
    ensures HexDecode(hex).Some?
    ensures var envelope := DecryptEnvelope(aead, kek, HexDecode(hex).value);
      && Field(envelope, "valid") == Some(Bool(true))
      && Field(envelope, "plaintext_hex") == Some(Str(HexEncode(plaintext)))
      && forall t: string :: Field(envelope, "plaintext_utf8") == Some(Str(t)) <==> Utf8(t) == plaintext
  {
    EncryptEnvelopeFields(aead, kek, nonce, plaintext);
    var out := Encrypted(aead, kek, nonce, plaintext).value;
    HexRoundTrip(out);
    VaultRoundTrip(aead, kek, nonce, plaintext);
    DecryptEnvelopeFields(aead, kek, out, plaintext);
    forall t: string | Utf8(t) == plaintext && FromUtf8(plaintext).Some? ensures FromUtf8(plaintext) == Some(t) {
      Utf8Injective(t, FromUtf8(plaintext).value);
    }
  }
}
