/**
 The verdicts of verify_vc and verify_vp, decided by what a document says: each check in its order
 with its error, down to the texts of keys and signatures.
 */
module Verdicts {
  import opened Wrappers
  import opened Bytes
  import opened Json
  import opened JsonText
  import opened Resolver
  import opened Credentials
  import opened CredentialTheorems
  import opened Acceptance
  import Base58

  // ----- signatures -----

  /**
   The method carries this key: its base58 text, if it has one, is the key's; only without one does
   the multibase text count.
   */
  predicate Carries(m: VerificationMethod, key: Block) {
    match m.publicKeyBase58
    case Some(text) => text == Base58.Encode(key)
    case None => m.publicKeyMultibase == Some("z" + Base58.Encode([0xED, 0x01] + key))
  }

  lemma CarriesIff(m: VerificationMethod, key: Block)
    ensures KeyBytes(m) == key <==> Carries(m, key)
  {
    if m.publicKeyBase58.Some? {
      Base58Is(m.publicKeyBase58.value, key);
    } else if m.publicKeyMultibase.Some? && "z" <= m.publicKeyMultibase.value {
      MultibaseIs(m.publicKeyMultibase.value, key);
    }
  }

  lemma Base58Is(text: string, bytes: seq<byte>)
    ensures Base58.Decode(text) == Some(bytes) <==> text == Base58.Encode(bytes)
  {
    Base58.DecodeOfEncode(bytes);
    if Base58.Decode(text) == Some(bytes) {
      Base58.EncodeOfDecode(text);
    }
  }

  lemma MultibaseIs(text: string, key: Block)
    requires "z" <= text
    ensures (match Base58.Decode(text[1..]) case Some(s) => IsEd25519Multicodec(s) && s[2..] == key case None => false)
      <==> text == "z" + Base58.Encode([0xED, 0x01] + key)
  {
    var coded := [0xED, 0x01] + key;
    Base58Is(text[1..], coded);
    assert text == "z" + text[1..];
    assert coded[2..] == key;
    if Base58.Decode(text[1..]).Some? {
      var s := Base58.Decode(text[1..]).value;
      assert IsEd25519Multicodec(s) && s[2..] == key ==> s == coded;
    }
  }

  /** The DID resolves to a document that carries this key. */
  ghost predicate Publishes(w: World, did: string, key: Block) {
    && Resolve(did, w.fetch).Ok?
    && exists i | 0 <= i < |Resolve(did, w.fetch).value.verificationMethod| ::
         Carries(Resolve(did, w.fetch).value.verificationMethod[i], key)
  }

  /** The text is a signature of 64 bytes in hexadecimal, of this payload by a key that the DID publishes. */
  ghost predicate SignedBy(w: World, did: string, payload: seq<byte>, text: string) {
    exists key: Block, sig: seq<byte> ::
      w.ed.verify(key, payload, sig) && |sig| == 64 && SpellsBytes(text, sig) && Publishes(w, did, key)
  }

  lemma CheckSignatureIff(w: World, payload: seq<byte>, text: string, did: string)
    ensures CheckSignature(w, payload, text, did) == Ok(()) <==> SignedBy(w, did, payload, text)
  {
    if CheckSignature(w, payload, text, did).Ok? {
      var sig := HexDecode(text).value;
      HexDecodeIff(text, sig);
      var methods := Resolve(did, w.fetch).value.verificationMethod;
      var i :| 0 <= i < |methods| && MethodVerifies(w.ed, methods[i], payload, sig);
      CarriesIff(methods[i], KeyBytes(methods[i]));
    }
    if key: Block, sig: seq<byte> :|
      w.ed.verify(key, payload, sig) && |sig| == 64 && SpellsBytes(text, sig) && Publishes(w, did, key)
    {
      HexDecodeIff(text, sig);
      var methods := Resolve(did, w.fetch).value.verificationMethod;
      var i :| 0 <= i < |methods| && Carries(methods[i], key);
      CarriesIff(methods[i], key);
      assert MethodVerifies(w.ed, methods[i], payload, sig);
    }
  }

  /** The four ways in which the signature check fails, in their order. */
  lemma CheckSignatureErrors(w: World, payload: seq<byte>, text: string, did: string)
    requires CheckSignature(w, payload, text, did).Err?
    ensures CheckSignature(w, payload, text, did).error ==
      if HexDecode(text).None? then "Invalid hex signature"
      else if |HexDecode(text).value| != 64 then "Invalid signature length"
      else
        match Resolve(did, w.fetch)
        case Err(e) => "DID resolution failed: " + e
        case Ok(_) => "Signature verification failed"
  {
  }

  // ----- credentials -----

  /** verify_vc on an object, check by check. */
  lemma CredentialVerdict(w: World, ms: Members)
    ensures CheckVc(w, Obj(ms)) ==
      match Get(ms, "proof")
      case Some(Obj(proof)) =>
        (match Get(ms, "issuer")
         case Some(Str(issuer)) =>
           var expired :=
             match Get(ms, "expirationDate")
             case Some(Str(t)) => w.timestamp(t).Some? && w.now > w.timestamp(t).value
             case _ => false;
           if expired then Err("VC is expired")
           else
             (match Get(proof, "proofValue")
              case Some(Str(text)) =>
                if SignedBy(w, issuer, Utf8(Print(Obj(SwapRemove(ms, "proof")))), text) then Ok(())
                else Err("VC Signature Failure")
              case _ => Err("Missing proofValue"))
         case _ => Err("Missing issuer DID"))
      case _ => Err("Missing proof object")
  {
    var proof, issuer := Obj(ms).ObjectAt("proof"), Obj(ms).TextAt("issuer");
    if proof.Some? && issuer.Some? && Obj(proof.value).TextAt("proofValue").Some? {
      CheckSignatureIff(w, Payload(Obj(ms)), Obj(proof.value).TextAt("proofValue").value, issuer.value);
    }
  }

  /** Whatever is no object has no proof. */
  lemma OtherValuesRefused(w: World, v: Json)
    requires !v.Obj?
    ensures CheckVc(w, v) == Err("Missing proof object") && CheckVp(w, v) == Err("VP is missing proof")
  {
  }

  // ----- presentations -----

  /** The checks on the presentation itself, before any credential in it is looked at. */
  lemma PresentationVerdict(w: World, ms: Members)
    ensures HolderSigned(w, Obj(ms)) <==> HolderProved(w, ms)
    ensures !HolderProved(w, ms) ==>
      CheckVp(w, Obj(ms)) ==
      match Get(ms, "proof")
      case Some(Obj(proof)) =>
        (match Get(ms, "holder")
         case Some(Str(_)) =>
           (match Get(proof, "proofValue")
            case Some(Str(_)) => Err("VP Signature Failure")
            case _ => Err("VP proof missing proofValue"))
         case _ => Err("VP is missing holder DID"))
      case _ => Err("VP is missing proof")
  {
    var proof, holder := Obj(ms).ObjectAt("proof"), Obj(ms).TextAt("holder");
    if proof.Some? && holder.Some? && Obj(proof.value).TextAt("proofValue").Some? {
      CheckSignatureIff(w, Payload(Obj(ms)), Obj(proof.value).TextAt("proofValue").value, holder.value);
    }
  }

  /** The holder that the presentation names signed everything in it but the proof. */
  ghost predicate HolderProved(w: World, ms: Members) {
    match Get(ms, "proof")
    case Some(Obj(proof)) =>
      (match Get(ms, "holder")
       case Some(Str(holder)) =>
         (match Get(proof, "proofValue")
          case Some(Str(text)) => SignedBy(w, holder, Utf8(Print(Obj(SwapRemove(ms, "proof")))), text)
          case _ => false)
       case _ => false)
    case _ => false
  }

  /** The report on the first credential that fails. */
  ghost predicate ReportsFirstFailure(w: World, items: seq<Json>, r: Result<(), string>) {
    exists i | 0 <= i < |items| ::
      && CheckVc(w, items[i]).Err? && (forall j | 0 <= j < i :: CheckVc(w, items[j]).Ok?)
      && r == Err(if CheckVc(w, items[i]).error == "VC Signature Failure" then "VC Signature Failure"
                  else "VC Verification Failure: " + CheckVc(w, items[i]).error)
  }

  lemma JudgedByCredentials(w: World, vp: Json, vcs: seq<Json>)
    requires HolderSigned(w, vp) && Embedded(vp) == Some(vcs)
    ensures CheckVp(w, vp) == match FirstFailure(w, vcs) case None => Ok(()) case Some(e) => Err(e)
  {
  }

  lemma FirstFailureReport(w: World, items: seq<Json>)
    ensures FirstFailure(w, items).None? <==> forall i | 0 <= i < |items| :: CheckVc(w, items[i]).Ok?
    ensures FirstFailure(w, items).Some? ==> ReportsFirstFailure(w, items, Err(FirstFailure(w, items).value))
  {
    FirstFailureIsLeast(w, items);
    assert AllPass(w, items) <==> forall i | 0 <= i < |items| :: CheckVc(w, items[i]).Ok? by {
      assert forall i | 0 <= i < |items| :: Passes(w, items[i]) <==> CheckVc(w, items[i]).Ok?;
    }
    if FirstFailure(w, items).Some? {
      var i :| 0 <= i < |items| && ReportsFailureAt(w, items, i, FirstFailure(w, items).value);
      assert forall j | 0 <= j < i :: Passes(w, items[j]) ==> CheckVc(w, items[j]).Ok?;
    }
  }

  /** A list of credentials, of whatever length: valid if and only if each of them is. */
  lemma ListVerdict(w: World, ms: Members, items: seq<Json>)
    requires HolderProved(w, ms) && Get(ms, "verifiableCredential") == Some(Arr(items))
    ensures CheckVp(w, Obj(ms)) == Ok(()) <==> forall i | 0 <= i < |items| :: CheckVc(w, items[i]).Ok?
    ensures CheckVp(w, Obj(ms)).Err? ==> ReportsFirstFailure(w, items, CheckVp(w, Obj(ms)))
  {
    PresentationVerdict(w, ms);
    JudgedByCredentials(w, Obj(ms), items);
    FirstFailureReport(w, items);
  }

  /** A single object is checked like a list of one. */
  lemma SingleVerdict(w: World, ms: Members, credential: Members)
    requires HolderProved(w, ms) && Get(ms, "verifiableCredential") == Some(Obj(credential))
    ensures CheckVp(w, Obj(ms)) ==
      match CheckVc(w, Obj(credential))
      case Ok(_) => Ok(())
      case Err(e) =>
        if e == "VC Signature Failure" then Err("VC Signature Failure") else Err("VC Verification Failure: " + e)
  {
    PresentationVerdict(w, ms);
    OneFailure(w, Obj(credential));
    assert Embedded(Obj(ms)) == Some([Obj(credential)]);
  }

  /** Anything else in that place is an error. */
  lemma NothingPresented(w: World, ms: Members)
    requires HolderProved(w, ms)
    requires match Get(ms, "verifiableCredential") case Some(Arr(_)) => false case Some(Obj(_)) => false case _ => true
    ensures CheckVp(w, Obj(ms)) == Err("VP is missing verifiableCredential")
  {
    PresentationVerdict(w, ms);
  }

  // ----- texts -----

  /** The two functions from text to verdict. */
  lemma TextVerdicts(w: World, text: string)
    ensures VcVerdict(w, text) ==
      match Parse(text)
      case None => Verdict(false, "Invalid JSON")
      case Some(vc) => (match CheckVc(w, vc) case Ok(_) => Verdict(true, "") case Err(e) => Verdict(false, e))
    ensures VpVerdict(w, text) ==
      match Parse(text)
      case None => Verdict(false, "Invalid JSON")
      case Some(vp) => (match CheckVp(w, vp) case Ok(_) => Verdict(true, "") case Err(e) => Verdict(false, e))
  {
  }
}
