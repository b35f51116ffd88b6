/** The fixed shape of an Ed25519 did:key: 56 characters that start with `did:key:z6Mk`. */
module DidKeyShape {
  import opened Bytes
  import opened Resolver
  import Base58
  import Radix

  const POWER_58_44 := 0x35dc5d77b83d07b8feef18a81bd06d803b1ab9dcf25b6a6aed55f100000000000
  const POWER_256_32 := 0x10000000000000000000000000000000000000000000000000000000000000000

  lemma PowerConstants()
    ensures Radix.Power(58, 44) == POWER_58_44
    ensures Radix.Power(256, 32) == POWER_256_32
  {
    assert Radix.Power(58, 11) == 0x15ac264554f032800;
    Radix.PowerSum(58, 11, 11);
    Radix.PowerSum(58, 22, 22);
    assert Radix.Power(256, 8) == 0x10000000000000000;
    Radix.PowerSum(256, 8, 8);
    Radix.PowerSum(256, 16, 16);
  }

  /** The 34 bytes, read as a number, lie between 18023 and 18024 times 58 to the 44th. */
  lemma KeyNumberBounds(key: Block)
    ensures var n := Radix.Value(MULTICODEC + key, 256);
      60673 * Radix.Power(256, 32) <= n < 60674 * Radix.Power(256, 32) &&
      18023 * Radix.Power(58, 44) <= n < 18024 * Radix.Power(58, 44)
  {
    Radix.ValueOfConcat(MULTICODEC, key, 256);
    Radix.ValueBound(key, 256);
    assert MULTICODEC[..1] == [0xED];
    assert Radix.Value([0xED], 256) == 0xED;
    assert Radix.Value(MULTICODEC, 256) == 60673;
    PowerConstants();
  }

  lemma TopDigits()
    ensures Radix.Expand(18023, 58) == [5, 20, 43]
  {
    assert Radix.Expand(5, 58) == [5];
    assert Radix.Expand(310, 58) == [5, 20];
  }

  lemma FirstDigits(n: nat)
    requires 18023 * Radix.Power(58, 44) <= n < 18024 * Radix.Power(58, 44)
    ensures |Radix.Expand(n, 58)| == 47 && Radix.Expand(n, 58)[..3] == [5, 20, 43]
  {
    Radix.DropDigitsBetween(n, 18023, 18024, 58, 44);
    var top := Radix.DropDigits(n, 58, 44);
    assert top == 18023;
    TopDigits();
    Radix.ExpandTop(n, 58, 44);
  }

  lemma KeyNumeral(key: Block)
    ensures var ds := Radix.Convert(MULTICODEC + key, 256, 58);
      Radix.IsNumeral(ds, 58) && |ds| == 47 && ds[..3] == [5, 20, 43]
  {
    var s := MULTICODEC + key;
    var n := Radix.Value(s, 256);
    KeyNumberBounds(key);
    FirstDigits(n);
    assert Radix.LeadingZeros(s) == 0;
    assert Radix.Zeros(0) + Radix.Expand(n, 58) == Radix.Expand(n, 58);
  }

  /** Whatever the public key is. */
  lemma DidKeyIsFixedShape(key: Block)
    ensures |DidKey(key)| == 56 && DidKey(key)[..12] == "did:key:z6Mk"
  {
    KeyNumeral(key);
    var ds := Radix.Convert(MULTICODEC + key, 256, 58);
    var text := Base58.Encode(MULTICODEC + key);
    assert text[0] == Base58.DigitChar(ds[..3][0]) && text[1] == Base58.DigitChar(ds[..3][1])
      && text[2] == Base58.DigitChar(ds[..3][2]);
    assert text[..3] == "6Mk";
    assert DidKey(key)[..12] == "did:key:z" + text[..3];
  }
}
