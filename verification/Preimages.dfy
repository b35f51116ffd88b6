/** The four hash preimage layouts of src/crypto.rs and when two of them coincide. */
module Preimages {
  import opened Bytes

  /** The ASCII bytes of `secp256k1-nostr`, `iyou/dependent/` and `secp256k1-nostr/dependent/`. */
  const NOSTR_DOMAIN: seq<byte> := [115, 101, 99, 112, 50, 53, 54, 107, 49, 45, 110, 111, 115, 116, 114]
  const DEPENDENT_ED25519_DOMAIN: seq<byte> := [105, 121, 111, 117, 47, 100, 101, 112, 101, 110, 100, 101, 110, 116, 47]
  const DEPENDENT_NOSTR_DOMAIN: seq<byte> := NOSTR_DOMAIN + [47, 100, 101, 112, 101, 110, 100, 101, 110, 116, 47]

  /** The domains are the bytes of their texts. */
  lemma NostrDomain(text: string)
    requires text == "secp256k1-nostr"
    ensures NOSTR_DOMAIN == Utf8(text)
  {
    DomainText(NOSTR_DOMAIN, text);
  }

  lemma DependentEd25519Domain(text: string)
    requires text == "iyou/dependent/"
    ensures DEPENDENT_ED25519_DOMAIN == Utf8(text)
  {
    DomainText(DEPENDENT_ED25519_DOMAIN, text);
  }

  lemma DependentNostrDomain(text: string)
    requires text == "secp256k1-nostr/dependent/"
    ensures DEPENDENT_NOSTR_DOMAIN == Utf8(text)
  {
    DomainText(DEPENDENT_NOSTR_DOMAIN, text);
  }

  lemma DomainText(domain: seq<byte>, text: string)
    requires |domain| == |text| && forall i | 0 <= i < |text| :: text[i] as int == domain[i] < 0x80
    ensures domain == Utf8(text)
  {
    Utf8OfAscii(text);
  }

  datatype Scheme = RootEd25519 | DependentEd25519 | RootNostr | DependentNostr

  /** Everything that determines one derived key candidate. */
  datatype Derivation = Derivation(scheme: Scheme, seed: Block, index: u32, attempt: byte) {
    /** Only the scalar searches retry. */
    predicate Used() {
      scheme.RootEd25519? || scheme.DependentEd25519? ==> attempt == 0
    }
  }

  /** The retry counter is hashed from the second attempt on. */
  function AttemptBytes(attempt: byte): seq<byte> {
    if attempt > 0 then [attempt] else []
  }

  function Preimage(d: Derivation): seq<byte> {
    match d.scheme
    case RootEd25519 => d.seed + LittleEndian32(d.index)
    case DependentEd25519 => d.seed + DEPENDENT_ED25519_DOMAIN + LittleEndian32(d.index)
    case RootNostr => NOSTR_DOMAIN + d.seed + LittleEndian32(d.index) + AttemptBytes(d.attempt)
    case DependentNostr => DEPENDENT_NOSTR_DOMAIN + d.seed + LittleEndian32(d.index) + AttemptBytes(d.attempt)
  }

  lemma PreimageLength(d: Derivation)
    ensures |Preimage(d)| ==
      match d.scheme
      case RootEd25519 => 36
      case DependentEd25519 => 51
      case RootNostr => if d.attempt > 0 then 52 else 51
      case DependentNostr => if d.attempt > 0 then 63 else 62
  {
  }

  lemma IndexInjective(i: u32, j: u32)
    requires LittleEndian32(i) == LittleEndian32(j)
    ensures i == j
  {
    LittleEndian32RoundTrip(i);
    LittleEndian32RoundTrip(j);
  }

  /** Equal texts with parts of equal length have equal parts. */
  lemma EqualParts(a: seq<byte>, b: seq<byte>, c: seq<byte>, a': seq<byte>, b': seq<byte>, c': seq<byte>)
    requires a + b + c == a' + b' + c' && |a| == |a'| && |b| == |b'|
    ensures a == a' && b == b' && c == c'
  {
    var s, s' := a + b + c, a' + b' + c';
    assert s[..|a|] == a && s'[..|a'|] == a';
    assert s[|a|..|a| + |b|] == b && s'[|a|..|a| + |b|] == b';
    assert s[|a| + |b|..] == c && s'[|a| + |b|..] == c';
  }

  lemma SameSchemeInjective(d: Derivation, e: Derivation)
    requires d.scheme == e.scheme && d.Used() && e.Used() && Preimage(d) == Preimage(e)
    ensures d == e
  {
    var i, j := LittleEndian32(d.index), LittleEndian32(e.index);
    PreimageLength(d);
    PreimageLength(e);
    match d.scheme
    case RootEd25519 =>
      assert [] + d.seed + i == d.seed + i && [] + e.seed + j == e.seed + j;
      EqualParts([], d.seed, i, [], e.seed, j);
      IndexInjective(d.index, e.index);
    case DependentEd25519 =>
      EqualParts(d.seed, DEPENDENT_ED25519_DOMAIN, i, e.seed, DEPENDENT_ED25519_DOMAIN, j);
      IndexInjective(d.index, e.index);
    case RootNostr =>
      SameNostr(NOSTR_DOMAIN, d, e);
    case DependentNostr =>
      SameNostr(DEPENDENT_NOSTR_DOMAIN, d, e);
  }

  lemma SameNostr(domain: seq<byte>, d: Derivation, e: Derivation)
    requires domain + d.seed + LittleEndian32(d.index) + AttemptBytes(d.attempt)
      == domain + e.seed + LittleEndian32(e.index) + AttemptBytes(e.attempt)
    ensures d.seed == e.seed && d.index == e.index && d.attempt == e.attempt
  {
    EqualParts(domain + d.seed, LittleEndian32(d.index), AttemptBytes(d.attempt),
               domain + e.seed, LittleEndian32(e.index), AttemptBytes(e.attempt));
    assert domain + d.seed + [] == domain + d.seed && domain + e.seed + [] == domain + e.seed;
    EqualParts(domain, d.seed, [], domain, e.seed, []);
    IndexInjective(d.index, e.index);
    assert AttemptBytes(d.attempt) == AttemptBytes(e.attempt);
    assert d.attempt > 0 && e.attempt > 0 ==> [d.attempt][0] == [e.attempt][0];
  }

  /**
   The one way in which different derivations share a preimage: a dependent Ed25519 seed and a
   first Nostr attempt, for the same index, whose root seeds overlap by the two domain strings.
   */
  predicate Overlap(ed: Derivation, nostr: Derivation) {
    && ed.scheme.DependentEd25519? && nostr.scheme.RootNostr? && nostr.attempt == 0
    && ed.index == nostr.index
    && ed.seed == NOSTR_DOMAIN + nostr.seed[..17]
    && nostr.seed[17..] == DEPENDENT_ED25519_DOMAIN
  }

  lemma OverlapIff(ed: Derivation, nostr: Derivation)
    requires ed.scheme.DependentEd25519? && nostr.scheme.RootNostr? && ed.Used()
    ensures Preimage(ed) == Preimage(nostr) <==> Overlap(ed, nostr)
  {
    PreimageLength(nostr);
    if nostr.attempt == 0 {
      var i, j := LittleEndian32(ed.index), LittleEndian32(nostr.index);
      var head, tail := nostr.seed[..17], nostr.seed[17..];
      assert nostr.seed == head + tail;
      assert NOSTR_DOMAIN + nostr.seed + j + [] == NOSTR_DOMAIN + head + tail + j;
      if Preimage(ed) == Preimage(nostr) {
        EqualParts(ed.seed, DEPENDENT_ED25519_DOMAIN, i, NOSTR_DOMAIN + head, tail, j);
        IndexInjective(ed.index, nostr.index);
      }
    }
  }

  /** Across all seeds, schemes, indices and attempts: exactly when two preimages are the same. */
  lemma PreimagesCoincide(d: Derivation, e: Derivation)
    requires d.Used() && e.Used()
    ensures Preimage(d) == Preimage(e) <==> d == e || Overlap(d, e) || Overlap(e, d)
  {
    PreimageLength(d);
    PreimageLength(e);
    if d.scheme == e.scheme {
      if Preimage(d) == Preimage(e) {
        SameSchemeInjective(d, e);
      }
    } else if d.scheme.DependentEd25519? && e.scheme.RootNostr? {
      OverlapIff(d, e);
    } else if e.scheme.DependentEd25519? && d.scheme.RootNostr? {
      OverlapIff(e, d);
    }
  }

  /** Domain separation: under one root seed no two derivations hash the same bytes. */
  lemma OneSeedSeparates(d: Derivation, e: Derivation)
    requires d.Used() && e.Used() && d.seed == e.seed
    ensures Preimage(d) == Preimage(e) <==> d == e
  {
    PreimagesCoincide(d, e);
    NoSelfOverlap(d, e);
    NoSelfOverlap(e, d);
  }

  /** Byte 17 would have to be both the `i` of one domain and a copy of byte 2, the `c` of the other. */
  lemma NoSelfOverlap(d: Derivation, e: Derivation)
    requires d.seed == e.seed
    ensures !Overlap(d, e)
  {
    var head, tail := e.seed[..17], e.seed[17..];
    assert head[2] == e.seed[2] && tail[0] == e.seed[17];
    assert (NOSTR_DOMAIN + head)[2] == 99 && (NOSTR_DOMAIN + head)[17] == head[2];
  }

  /** Overlapping seeds exist: any 17 bytes make a pair of them, for every index. */
  lemma OverlapHappens(head: seq<byte>, index: u32) returns (ed: Derivation, nostr: Derivation)
    requires |head| == 17
    ensures ed.Used() && nostr.Used() && ed != nostr && Preimage(ed) == Preimage(nostr)
    ensures nostr.seed[..17] == head && ed.index == nostr.index == index
  {
    nostr := Derivation(RootNostr, head + DEPENDENT_ED25519_DOMAIN, index, 0);
    ed := Derivation(DependentEd25519, NOSTR_DOMAIN + head, index, 0);
    assert nostr.seed[..17] == head && nostr.seed[17..] == DEPENDENT_ED25519_DOMAIN;
    PreimagesCoincide(ed, nostr);
  }
}
