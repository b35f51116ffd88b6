/** bs58 with its default (Bitcoin) alphabet. */
module Base58 {
  import opened Wrappers
  import opened Bytes
  import Radix

  // 123456789 ABCDEFGH JKLMN PQRSTUVWXYZ abcdefghijk mnopqrstuvwxyz: the digits and letters
  // without 0, O, I and l.

  function DigitChar(d: nat): (c: char)
    requires d < 58
  {
    if d < 9 then ('1' as int + d) as char
    else if d < 17 then ('A' as int + (d - 9)) as char
    else if d < 22 then ('J' as int + (d - 17)) as char
    else if d < 33 then ('P' as int + (d - 22)) as char
    else if d < 44 then ('a' as int + (d - 33)) as char
    else ('m' as int + (d - 44)) as char
  }

  function CharDigit(c: char): (d: Option<nat>)
    ensures d.Some? ==> d.value < 58
  {
    if '1' <= c <= '9' then Some(c as int - '1' as int)
    else if 'A' <= c <= 'H' then Some(c as int - 'A' as int + 9)
    else if 'J' <= c <= 'N' then Some(c as int - 'J' as int + 17)
    else if 'P' <= c <= 'Z' then Some(c as int - 'P' as int + 22)
    else if 'a' <= c <= 'k' then Some(c as int - 'a' as int + 33)
    else if 'm' <= c <= 'z' then Some(c as int - 'm' as int + 44)
    else None
  }

  /** The alphabet is a bijection between digits and the characters that have a digit. */
  lemma AlphabetBijection(d: nat, c: char)
    requires d < 58
    ensures CharDigit(c) == Some(d) <==> DigitChar(d) == c
  {
  }

  /** The alphabet: the ASCII digits and letters without 0, O, I and l, in their ASCII order. */
  lemma Alphabet(c: char, d: nat, e: nat)
    requires d < e < 58
    ensures DigitChar(d) < DigitChar(e)
    ensures CharDigit(c).Some? <==>
      ('0' <= c <= '9' || 'A' <= c <= 'Z' || 'a' <= c <= 'z') && c != '0' && c != 'O' && c != 'I' && c != 'l'
  {
  }

  function Encode(s: seq<byte>): string {
    Radix.ConvertBack(s, 256, 58);
    Spell(Radix.Convert(s, 256, 58))
  }

  function Spell(ds: seq<nat>): (t: string)
    requires Radix.IsNumeral(ds, 58)
  {
    seq(|ds|, i requires 0 <= i < |ds| => DigitChar(ds[i]))
  }

  function Digits(t: string): (ds: Option<seq<nat>>)
    ensures ds.Some? ==> Radix.IsNumeral(ds.value, 58) && |ds.value| == |t|
  {
    if t == "" then Some([])
    else
      var d :- CharDigit(t[0]);
      var rest :- Digits(t[1..]);
      Some([d] + rest)
  }

  /** None stands for the decoder's error, which a character outside the alphabet causes. */
  function Decode(t: string): Option<seq<byte>> {
    var ds :- Digits(t);
    Radix.ConvertBack(ds, 58, 256);
    Some(Radix.Convert(ds, 58, 256))
  }

  lemma {:induction false} DigitsOfSpell(ds: seq<nat>)
    requires Radix.IsNumeral(ds, 58)
    ensures Digits(Spell(ds)) == Some(ds)
  {
    if ds != [] {
      AlphabetBijection(ds[0], DigitChar(ds[0]));
      DigitsOfSpell(ds[1..]);
      assert Spell(ds)[1..] == Spell(ds[1..]);
      assert ds == [ds[0]] + ds[1..];
    }
  }

  lemma {:induction false} SpellOfDigits(t: string)
    requires Digits(t).Some?
    ensures Spell(Digits(t).value) == t
  {
    if t != "" {
      var ds := Digits(t).value;
      AlphabetBijection(ds[0], t[0]);
      SpellOfDigits(t[1..]);
      assert ds[1..] == Digits(t[1..]).value;
      assert Spell(ds) == [DigitChar(ds[0])] + Spell(ds[1..]);
    }
  }

  /** bs58 decoding undoes encoding, leading zero bytes included. */
  lemma DecodeOfEncode(s: seq<byte>)
    ensures Decode(Encode(s)) == Some(s)
  {
    Radix.ConvertBack(s, 256, 58);
    DigitsOfSpell(Radix.Convert(s, 256, 58));
  }

  /** Every accepted text is the encoding of what it decodes to, leading `1`s included. */
  lemma EncodeOfDecode(t: string)
    requires Decode(t).Some?
    ensures Encode(Decode(t).value) == t
  {
    Radix.ConvertBack(Digits(t).value, 58, 256);
    SpellOfDigits(t);
  }
}
