/** src/crypto.rs: deterministic derivation of Ed25519 and secp256k1 keys from a root seed. */
module KeyDerivation {
  import opened Wrappers
  import opened Bytes
  import opened Preimages
  import Base58
  import DidKeyShape
  import Resolver
  import Radix

  /** SHA-256 and the two public-key computations, left abstract. */
  datatype Primitives = Primitives(
    hash: seq<byte> -> Block, edPublicKey: Block -> Block, nostrPublicKey: Block -> Block)

  datatype CryptoError = ScalarDerivationFailed | InvalidInput(message: string) | CipherOperation(message: string)

  /** The order of secp256k1 (SEC 2, section 2.4.1). */
  const CURVE_ORDER := 0xFFFFFFFF_FFFFFFFF_FFFFFFFF_FFFFFFFE_BAAEDCE6_AF48A03B_BFD25E8C_D0364141

  /** SecretKey::from_bytes accepts the block. */
  predicate ValidScalar(b: Block) {
    0 < BigEndian(b) < CURVE_ORDER
  }

  /** The group order as 32 bytes, most significant first. */
  const ORDER_BYTES: Block :=
    [0xFF, 0xFF, 0xFF, 0xFF, 0xFF, 0xFF, 0xFF, 0xFF] + [0xFF, 0xFF, 0xFF, 0xFF, 0xFF, 0xFF, 0xFF, 0xFE]
    + [0xBA, 0xAE, 0xDC, 0xE6, 0xAF, 0x48, 0xA0, 0x3B] + [0xBF, 0xD2, 0x5E, 0x8C, 0xD0, 0x36, 0x41, 0x41]

  /** The first byte in which they differ is smaller. */
  predicate Below(a: seq<byte>, b: seq<byte>) {
    exists k | 0 <= k < |a| && k < |b| :: a[..k] == b[..k] && a[k] < b[k]
  }

  lemma {:induction false} BelowIff(a: seq<byte>, b: seq<byte>)
    requires |a| == |b|
    ensures Below(a, b) <==> BigEndian(a) < BigEndian(b)
    ensures a == b <==> BigEndian(a) == BigEndian(b)
  {
    if a != [] {
      var n := |a| - 1;
      BelowIff(a[..n], b[..n]);
      BelowSnoc(a, b);
    }
  }

  lemma BelowSnoc(a: seq<byte>, b: seq<byte>)
    requires |a| == |b| > 0
    ensures var n := |a| - 1; Below(a, b) <==> Below(a[..n], b[..n]) || (a[..n] == b[..n] && a[n] < b[n])
    ensures var n := |a| - 1; a == b <==> a[..n] == b[..n] && a[n] == b[n]
  {
    var n := |a| - 1;
    var x, y := a[..n], b[..n];
    assert a == x + [a[n]] && b == y + [b[n]];
    if Below(x, y) {
      var k :| 0 <= k < n && x[..k] == y[..k] && x[k] < y[k];
      assert a[..k] == x[..k] && b[..k] == y[..k];
    }
    if k :| 0 <= k < |a| && a[..k] == b[..k] && a[k] < b[k] {
      if k < n {
        assert a[..k] == x[..k] && b[..k] == y[..k];
        assert x[..k] == y[..k] && x[k] < y[k];
      }
    }
  }

  /** The valid scalars, byte by byte: not all zero, and below the group order. */
  lemma ValidScalarIff(b: Block)
    ensures ValidScalar(b) <==> b != seq(32, _ => 0) && Below(b, ORDER_BYTES)
  {
    var zeros: Block := seq(32, _ => 0);
    OrderValue();
    ZerosValue(32);
    BelowIff(b, ORDER_BYTES);
    BelowIff(b, zeros);
  }

  lemma {:induction false} ZerosValue(n: nat)
    ensures BigEndian(seq(n, _ => 0)) == 0
    decreases n
  {
    if n > 0 {
      var zeros: seq<byte> := seq(n, _ => 0);
      assert zeros[..n - 1] == seq(n - 1, _ => 0);
      ZerosValue(n - 1);
    }
  }

  lemma OrderValue()
    ensures BigEndian(ORDER_BYTES) == CURVE_ORDER
  {
    var a, b: seq<byte> :=
      [0xFF, 0xFF, 0xFF, 0xFF, 0xFF, 0xFF, 0xFF, 0xFF], [0xFF, 0xFF, 0xFF, 0xFF, 0xFF, 0xFF, 0xFF, 0xFE];
    var c, d: seq<byte> :=
      [0xBA, 0xAE, 0xDC, 0xE6, 0xAF, 0x48, 0xA0, 0x3B], [0xBF, 0xD2, 0x5E, 0x8C, 0xD0, 0x36, 0x41, 0x41];
    EightBytes(a, 0xFF, 0xFF, 0xFF, 0xFF, 0xFF, 0xFF, 0xFF, 0xFF);
    EightBytes(b, 0xFF, 0xFF, 0xFF, 0xFF, 0xFF, 0xFF, 0xFF, 0xFE);
    EightBytes(c, 0xBA, 0xAE, 0xDC, 0xE6, 0xAF, 0x48, 0xA0, 0x3B);
    EightBytes(d, 0xBF, 0xD2, 0x5E, 0x8C, 0xD0, 0x36, 0x41, 0x41);
    FourWords(a, b, c, d);
  }

  lemma FourWords(a: seq<byte>, b: seq<byte>, c: seq<byte>, d: seq<byte>)
    requires |a| == |b| == |c| == |d| == 8
    ensures var word := 0x1_00000000_00000000;
      BigEndian(a + b + c + d) ==
        ((BigEndian(a) * word + BigEndian(b)) * word + BigEndian(c)) * word + BigEndian(d)
  {
    assert Radix.Power(256, 8) == 0x1_00000000_00000000;
    Radix.ValueOfConcat(a, b, 256);
    Radix.ValueOfConcat(a + b, c, 256);
    Radix.ValueOfConcat(a + b + c, d, 256);
  }

  lemma BigEndianSnoc(s: seq<byte>, b: byte)
    ensures BigEndian(s + [b]) == BigEndian(s) * 256 + b
  {
    assert (s + [b])[..|s|] == s;
  }

  lemma FourBytes(s: seq<byte>, a: byte, b: byte, c: byte, d: byte)
    requires s == [a, b, c, d]
    ensures BigEndian(s) == ((a as int * 256 + b) * 256 + c) * 256 + d
  {
    assert [] + [a] == [a] && [a] + [b] == [a, b] && [a, b] + [c] == [a, b, c] && [a, b, c] + [d] == s;
    BigEndianSnoc([], a);
    BigEndianSnoc([a], b);
    BigEndianSnoc([a, b], c);
    BigEndianSnoc([a, b, c], d);
  }

  lemma EightBytes(s: seq<byte>, a: byte, b: byte, c: byte, d: byte, e: byte, f: byte, g: byte, h: byte)
    requires s == [a, b, c, d, e, f, g, h]
    ensures BigEndian(s) == (((a as int * 256 + b) * 256 + c) * 256 + d) * 0x1_0000_0000
                            + (((e as int * 256 + f) * 256 + g) * 256 + h)
  {
    assert Radix.Power(256, 4) == 0x1_0000_0000;
    FourBytes([a, b, c, d], a, b, c, d);
    FourBytes([e, f, g, h], e, f, g, h);
    assert s == [a, b, c, d] + [e, f, g, h];
    Radix.ValueOfConcat([a, b, c, d], [e, f, g, h], 256);
  }

  /** The streaming hasher: updates accumulate, and the digest is of all of them in order. */
  class Hasher {
    var absorbed: seq<byte>

    constructor ()
      ensures absorbed == []
    {
      absorbed := [];
    }

    method Update(part: seq<byte>)
      modifies this
      ensures absorbed == old(absorbed) + part
    {
      absorbed := absorbed + part;
    }

    method Finalize(p: Primitives) returns (digest: Block)
      ensures digest == p.hash(absorbed)
    {
      digest := p.hash(absorbed);
    }
  }

  function Concat(parts: seq<seq<byte>>): seq<byte> {
    if parts == [] then [] else Concat(parts[..|parts| - 1]) + parts[|parts| - 1]
  }

  /** Hashing part by part is hashing the concatenation. */
  method Sha256Concat(p: Primitives, parts: seq<seq<byte>>) returns (digest: Block)
    ensures digest == p.hash(Concat(parts))
  {
    var hasher := new Hasher();
    for i := 0 to |parts|
      invariant hasher.absorbed == Concat(parts[..i])
    {
      hasher.Update(parts[i]);
      assert parts[..i + 1][..i] == parts[..i];
    }
    assert parts[..|parts|] == parts;
    digest := hasher.Finalize(p);
  }

  function Digest(p: Primitives, scheme: Scheme, seed: Block, index: u32, attempt: byte): Block {
    p.hash(Preimage(Derivation(scheme, seed, index, attempt)))
  }

  /** The first valid candidate from an attempt on. */
  function Search(p: Primitives, scheme: Scheme, seed: Block, index: u32, attempt: nat): Option<Block>
    requires attempt <= 256
    decreases 256 - attempt
  {
    if attempt == 256 then None
    else if ValidScalar(Digest(p, scheme, seed, index, attempt)) then Some(Digest(p, scheme, seed, index, attempt))
    else Search(p, scheme, seed, index, attempt + 1)
  }

  predicate ValidAt(p: Primitives, scheme: Scheme, seed: Block, index: u32, a: byte) {
    ValidScalar(Digest(p, scheme, seed, index, a))
  }

  predicate NoneValidIn(p: Primitives, scheme: Scheme, seed: Block, index: u32, lo: nat, hi: nat)
    requires hi <= 256
  {
    forall a: nat | lo <= a < hi :: !ValidAt(p, scheme, seed, index, a)
  }

  predicate IsLeastValid(p: Primitives, scheme: Scheme, seed: Block, index: u32, from: nat, a: byte) {
    from <= a && ValidAt(p, scheme, seed, index, a) && NoneValidIn(p, scheme, seed, index, from, a)
  }

  lemma {:induction false} SearchFails(p: Primitives, scheme: Scheme, seed: Block, index: u32, attempt: nat)
    requires attempt <= 256
    ensures Search(p, scheme, seed, index, attempt).None? <==> NoneValidIn(p, scheme, seed, index, attempt, 256)
    decreases 256 - attempt
  {
    if attempt < 256 {
      SearchFails(p, scheme, seed, index, attempt + 1);
      assert NoneValidIn(p, scheme, seed, index, attempt, 256) <==>
        !ValidAt(p, scheme, seed, index, attempt) && NoneValidIn(p, scheme, seed, index, attempt + 1, 256);
    }
  }

  lemma {:induction false} SearchSucceeds(p: Primitives, scheme: Scheme, seed: Block, index: u32, attempt: nat)
    returns (a: byte)
    requires attempt <= 256 && Search(p, scheme, seed, index, attempt).Some?
    ensures IsLeastValid(p, scheme, seed, index, attempt, a)
    ensures Search(p, scheme, seed, index, attempt) == Some(Digest(p, scheme, seed, index, a))
    decreases 256 - attempt
  {
    if ValidAt(p, scheme, seed, index, attempt) {
      a := attempt;
    } else {
      a := SearchSucceeds(p, scheme, seed, index, attempt + 1);
    }
  }

  /** The search returns the candidate of the least valid attempt, and fails only when all 256 are invalid. */
  lemma SearchFindsLeast(p: Primitives, scheme: Scheme, seed: Block, index: u32, attempt: nat)
    requires attempt <= 256
    ensures Search(p, scheme, seed, index, attempt).None? <==> NoneValidIn(p, scheme, seed, index, attempt, 256)
    ensures Search(p, scheme, seed, index, attempt).Some? ==>
      exists a: byte :: IsLeastValid(p, scheme, seed, index, attempt, a)
        && Search(p, scheme, seed, index, attempt) == Some(Digest(p, scheme, seed, index, a))
  {
    SearchFails(p, scheme, seed, index, attempt);
    if Search(p, scheme, seed, index, attempt).Some? {
      var a := SearchSucceeds(p, scheme, seed, index, attempt);
    }
  }

  /**
   What the scalar searches promise, spelled out: the digest of the prefix if that is a valid
   scalar, or else of the prefix and the least byte from 1 on that makes it one, if any does.
   */
  ghost predicate FirstValid(p: Primitives, prefix: seq<byte>, r: Option<Block>) {
    if ValidScalar(p.hash(prefix)) then r == Some(p.hash(prefix))
    else if r.Some? then exists a: byte | a > 0 ::
      && r.value == p.hash(prefix + [a]) && ValidScalar(p.hash(prefix + [a]))
      && forall k: byte | 0 < k < a :: !ValidScalar(p.hash(prefix + [k]))
    else forall k: byte | k > 0 :: !ValidScalar(p.hash(prefix + [k]))
  }

  function Found<T>(r: Result<T, CryptoError>): Option<T> {
    if r.Ok? then Some(r.value) else None
  }

  /** The bytes before the attempt byte, for each of the two searches. */
  lemma SearchIsFirstValid(p: Primitives, scheme: Scheme, seed: Block, index: u32, domain: seq<byte>)
    requires scheme.RootNostr? || scheme.DependentNostr?
    requires domain == if scheme.RootNostr? then NOSTR_DOMAIN else DEPENDENT_NOSTR_DOMAIN
    ensures FirstValid(p, domain + seed + LittleEndian32(index), Search(p, scheme, seed, index, 0))
  {
    var prefix := domain + seed + LittleEndian32(index);
    assert prefix + [] == prefix;
    assert forall a: byte ::
      Digest(p, scheme, seed, index, a) == if a > 0 then p.hash(prefix + [a]) else p.hash(prefix);
    SearchFindsLeast(p, scheme, seed, index, 0);
    assert ValidAt(p, scheme, seed, index, 0) <==> ValidScalar(p.hash(prefix));
    forall k: byte | k > 0 ensures ValidAt(p, scheme, seed, index, k) <==> ValidScalar(p.hash(prefix + [k])) {
    }
  }

  method DeriveSecp256k1Scalar(p: Primitives, seed: Block, index: u32) returns (r: Result<Block, CryptoError>)
    ensures r == Search(p, RootNostr, seed, index, 0).ToResult(ScalarDerivationFailed)
    ensures r.Ok? ==> ValidScalar(r.value)
    ensures FirstValid(p, NOSTR_DOMAIN + seed + LittleEndian32(index), Found(r))
  {
    SearchIsFirstValid(p, RootNostr, seed, index, NOSTR_DOMAIN);
    for attempt := 0 to 256
      invariant Search(p, RootNostr, seed, index, 0) == Search(p, RootNostr, seed, index, attempt)
    {
      var inputs := [NOSTR_DOMAIN, seed, LittleEndian32(index)];
      if attempt > 0 {
        inputs := inputs + [[attempt]];
      }
      var candidate := Sha256Concat(p, inputs);
      NostrInputs(seed, index, attempt);
      if ValidScalar(candidate) {
        return Ok(candidate);
      }
    }
    return Err(ScalarDerivationFailed);
  }

  lemma NostrInputs(seed: Block, index: u32, attempt: byte)
    ensures var inputs := [NOSTR_DOMAIN, seed, LittleEndian32(index)];
      Concat(if attempt > 0 then inputs + [[attempt]] else inputs)
      == Preimage(Derivation(RootNostr, seed, index, attempt))
  {
    var a, b, c := NOSTR_DOMAIN, seed, LittleEndian32(index);
    ConcatOfThree(a, b, c);
    if attempt > 0 {
      var inputs := [a, b, c] + [[attempt]];
      assert inputs[..|inputs| - 1] == [a, b, c];
    }
  }

  lemma ConcatOfThree(a: seq<byte>, b: seq<byte>, c: seq<byte>)
    ensures Concat([a, b, c]) == a + b + c
  {
    assert [a, b, c][..2] == [a, b] && [a, b][..1] == [a] && [a][..0] == [];
    assert Concat([a]) == [] + a == a;
    assert Concat([a, b]) == a + b;
  }

  lemma DependentNostrInput(seed: Block, index: u32, attempt: byte)
    ensures [] + DEPENDENT_NOSTR_DOMAIN + seed + LittleEndian32(index) + AttemptBytes(attempt)
      == Preimage(Derivation(DependentNostr, seed, index, attempt))
  {
    assert [] + DEPENDENT_NOSTR_DOMAIN == DEPENDENT_NOSTR_DOMAIN;
  }

  method DeriveDependentSecp256k1Scalar(p: Primitives, seed: Block, index: u32)
    returns (r: Result<Block, CryptoError>)
    ensures r == Search(p, DependentNostr, seed, index, 0).ToResult(ScalarDerivationFailed)
    ensures r.Ok? ==> ValidScalar(r.value)
    ensures FirstValid(p, DEPENDENT_NOSTR_DOMAIN + seed + LittleEndian32(index), Found(r))
  {
    SearchIsFirstValid(p, DependentNostr, seed, index, DEPENDENT_NOSTR_DOMAIN);
    for attempt := 0 to 256
      invariant Search(p, DependentNostr, seed, index, 0) == Search(p, DependentNostr, seed, index, attempt)
    {
      var hasher := new Hasher();
      hasher.Update(DEPENDENT_NOSTR_DOMAIN);
      hasher.Update(seed);
      hasher.Update(LittleEndian32(index));
      if attempt > 0 {
        hasher.Update([attempt]);
      } else {
        assert hasher.absorbed == hasher.absorbed + AttemptBytes(0);
      }
      var candidate := hasher.Finalize(p);
      DependentNostrInput(seed, index, attempt);
      if ValidScalar(candidate) {
        return Ok(candidate);
      }
    }
    return Err(ScalarDerivationFailed);
  }

  /** The DID of a public key, from the 34-byte buffer the code fills. */
  method DidOfPublicKey(key: Block) returns (did: string)
    ensures did == Resolver.DidKey(key)
    ensures did == "did:key:z" + Base58.Encode([0xED, 0x01] + key)
    ensures |did| == 56 && did[..12] == "did:key:z6Mk"
  {
    DidKeyShape.DidKeyIsFixedShape(key);
    var multicodec := new byte[34](_ => 0);
    forall i | 0 <= i < 2 {
      multicodec[i] := Resolver.MULTICODEC[i];
    }
    forall i | 0 <= i < 32 {
      multicodec[2 + i] := key[i];
    }
    assert multicodec[..] == Resolver.MULTICODEC + key;
    did := "did:key:" + "z" + Base58.Encode(multicodec[..]);
    assert did == "did:key:" + ("z" + Base58.Encode(multicodec[..]));
    assert did == "did:key:z" + Base58.Encode(multicodec[..]);
  }

  /** The keys of one identity: DID, Nostr public key in hex, and the two private keys. */
  datatype Identity = Identity(did: string, nostrHex: string, edSeed: Block, scalar: Block)

  /** What is derived for a root (or dependent) identity: the same shape under other domains. */
  function IdentityOf(p: Primitives, ed: Scheme, nostr: Scheme, seed: Block, index: u32)
    : Result<Identity, CryptoError>
  {
    var edSeed := Digest(p, ed, seed, index, 0);
    var scalar :- Search(p, nostr, seed, index, 0).ToResult(ScalarDerivationFailed);
    Ok(Identity(Resolver.DidKey(p.edPublicKey(edSeed)), HexEncode(p.nostrPublicKey(scalar)), edSeed, scalar))
  }

  method DeriveEd25519Did(p: Primitives, seed: Block, index: u32) returns (did: string, edSeed: Block)
    ensures edSeed == Digest(p, RootEd25519, seed, index, 0)
    ensures edSeed == p.hash(seed + LittleEndian32(index))
    ensures did == Resolver.DidKey(p.edPublicKey(edSeed))
    ensures did == "did:key:z" + Base58.Encode([0xED, 0x01] + p.edPublicKey(edSeed))
    ensures |did| == 56 && did[..12] == "did:key:z6Mk"
  {
    var parts := [seed, LittleEndian32(index)];
    assert parts[..1] == [seed] && [seed][..0] == [];
    assert Concat([seed]) == seed;
    edSeed := Sha256Concat(p, parts);
    did := DidOfPublicKey(p.edPublicKey(edSeed));
  }

  method DeriveNostrKeypair(p: Primitives, seed: Block, index: u32) returns (r: Result<(string, Block), CryptoError>)
    ensures r.Ok? <==> Search(p, RootNostr, seed, index, 0).Some?
    ensures r.Ok? ==> Some(r.value.1) == Search(p, RootNostr, seed, index, 0)
    ensures r.Ok? ==> r.value.0 == HexEncode(p.nostrPublicKey(r.value.1))
    ensures r.Err? ==> r.error == ScalarDerivationFailed
    ensures FirstValid(p, NOSTR_DOMAIN + seed + LittleEndian32(index), if r.Ok? then Some(r.value.1) else None)
  {
    var scalar :- DeriveSecp256k1Scalar(p, seed, index);
    // The second SecretKey::from_bytes cannot fail: the search only returns valid scalars.
    assert ValidScalar(scalar);
    return Ok((HexEncode(p.nostrPublicKey(scalar)), scalar));
  }

  /** An identity's private keys by their hash inputs, and what is published of them. */
  ghost predicate DerivedFrom(p: Primitives, edInput: seq<byte>, prefix: seq<byte>, r: Result<Identity, CryptoError>) {
    match r
    case Ok(id) =>
      && id.edSeed == p.hash(edInput) && FirstValid(p, prefix, Some(id.scalar))
      && id.did == "did:key:z" + Base58.Encode([0xED, 0x01] + p.edPublicKey(id.edSeed))
      && id.nostrHex == HexEncode(p.nostrPublicKey(id.scalar))
    case Err(e) => e == ScalarDerivationFailed && FirstValid(p, prefix, None)
  }

  method DeriveIdentityFromPrf(p: Primitives, seed: Block, index: u32) returns (r: Result<Identity, CryptoError>)
    ensures r == IdentityOf(p, RootEd25519, RootNostr, seed, index)
    ensures DerivedFrom(p, seed + LittleEndian32(index), NOSTR_DOMAIN + seed + LittleEndian32(index), r)
    ensures r.Err? <==> NoneValidIn(p, RootNostr, seed, index, 0, 256)
    ensures r.Ok? ==> ValidScalar(r.value.scalar) && |r.value.did| == 56 && r.value.did[..12] == "did:key:z6Mk"
  {
    DerivationFailsIff(p, RootEd25519, RootNostr, seed, index);
    var did, edSeed := DeriveEd25519Did(p, seed, index);
    var nostr :- DeriveNostrKeypair(p, seed, index);
    return Ok(Identity(did, nostr.0, edSeed, nostr.1));
  }

  /** The incremental hash over the seed, the domain and the index. */
  method DependentEdSeed(p: Primitives, seed: Block, index: u32) returns (edSeed: Block)
    ensures edSeed == Digest(p, DependentEd25519, seed, index, 0)
    ensures edSeed == p.hash(seed + DEPENDENT_ED25519_DOMAIN + LittleEndian32(index))
  {
    var hasher := new Hasher();
    hasher.Update(seed);
    hasher.Update(DEPENDENT_ED25519_DOMAIN);
    hasher.Update(LittleEndian32(index));
    edSeed := hasher.Finalize(p);
    assert hasher.absorbed == Preimage(Derivation(DependentEd25519, seed, index, 0));
  }

  method DeriveDependentSubkeys(p: Primitives, seed: Block, index: u32) returns (r: Result<Identity, CryptoError>)
    ensures r == IdentityOf(p, DependentEd25519, DependentNostr, seed, index)
    ensures DerivedFrom(p, seed + DEPENDENT_ED25519_DOMAIN + LittleEndian32(index),
                        DEPENDENT_NOSTR_DOMAIN + seed + LittleEndian32(index), r)
    ensures r.Err? <==> NoneValidIn(p, DependentNostr, seed, index, 0, 256)
    ensures r.Ok? ==> ValidScalar(r.value.scalar) && |r.value.did| == 56 && r.value.did[..12] == "did:key:z6Mk"
  {
    DerivationFailsIff(p, DependentEd25519, DependentNostr, seed, index);
    var edSeed := DependentEdSeed(p, seed, index);
    var did := DidOfPublicKey(p.edPublicKey(edSeed));
    var scalar :- DeriveDependentSecp256k1Scalar(p, seed, index);
    assert ValidScalar(scalar);
    return Ok(Identity(did, HexEncode(p.nostrPublicKey(scalar)), edSeed, scalar));
  }

  /** Derivation fails exactly when all 256 candidates are invalid, and its scalar is always valid. */
  lemma DerivationFailsIff(p: Primitives, ed: Scheme, nostr: Scheme, seed: Block, index: u32)
    ensures var r := IdentityOf(p, ed, nostr, seed, index);
      && (r.Err? <==> NoneValidIn(p, nostr, seed, index, 0, 256))
      && (r.Ok? ==> ValidScalar(r.value.scalar))
  {
    SearchFindsLeast(p, nostr, seed, index, 0);
  }
}
