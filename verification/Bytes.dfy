/** Byte strings, hexadecimal text, little-endian integers and UTF-8. */
module Bytes {
  import opened Wrappers
  import Radix

  type byte = x: int | 0 <= x < 0x100
  type u32 = x: int | 0 <= x < 0x1_0000_0000

  /** A 32-byte block: key seeds, public keys, digests. */
  type Block = s: seq<byte> | |s| == 32 witness seq(32, _ => 0)

  function BigEndian(s: seq<byte>): nat {
    Radix.Value(s, 256)
  }

  function LittleEndian32(n: u32): (s: seq<byte>)
    ensures |s| == 4
  {
    [n % 256, n / 0x100 % 256, n / 0x1_0000 % 256, n / 0x100_0000]
  }

  function FromLittleEndian32(s: seq<byte>): int
    requires |s| == 4
  {
    ((s[3] as int * 256 + s[2]) * 256 + s[1]) * 256 + s[0]
  }

  lemma LittleEndian32RoundTrip(n: u32)
    ensures FromLittleEndian32(LittleEndian32(n)) == n
  {
    assert n / 0x100 / 0x100 == n / 0x1_0000 && n / 0x1_0000 / 0x100 == n / 0x100_0000;
  }

  /** Little-endian: the first byte is the lowest. */
  lemma LittleEndian32Is(n: u32)
    ensures var s := LittleEndian32(n);
      s[0] as int + 0x100 * (s[1] as int) + 0x1_0000 * (s[2] as int) + 0x100_0000 * (s[3] as int) == n
  {
    assert n / 0x100 / 0x100 == n / 0x1_0000 && n / 0x1_0000 / 0x100 == n / 0x100_0000;
  }

  // ----- hexadecimal -----

  function HexDigit(d: nat): (c: char)
    requires d < 16
  {
    if d < 10 then ('0' as int + d) as char else ('a' as int + (d - 10)) as char
  }

  function HexValue(c: char): (d: Option<nat>)
    ensures d.Some? ==> d.value < 16
  {
    if '0' <= c <= '9' then Some(c as int - '0' as int)
    else if 'a' <= c <= 'f' then Some(c as int - 'a' as int + 10)
    else if 'A' <= c <= 'F' then Some(c as int - 'A' as int + 10)
    else None
  }

  function HexEncode(s: seq<byte>): string {
    if s == [] then "" else [HexDigit(s[0] / 16), HexDigit(s[0] % 16)] + HexEncode(s[1..])
  }

  /** Accepts both letter cases and refuses an odd number of digits. */
  function HexDecode(t: string): Option<seq<byte>> {
    if t == "" then Some([])
    else if |t| == 1 then None
    else
      var hi :- HexValue(t[0]);
      var lo :- HexValue(t[1]);
      var rest :- HexDecode(t[2..]);
      Some([hi * 16 + lo] + rest)
  }

  lemma {:induction false} HexRoundTrip(s: seq<byte>)
    ensures HexDecode(HexEncode(s)) == Some(s)
  {
    if s != [] {
      HexRoundTrip(s[1..]);
      assert HexEncode(s)[2..] == HexEncode(s[1..]);
      assert s == [s[0]] + s[1..];
    }
  }

  /** Two lower-case digits a byte, the upper half first. */
  lemma {:induction false} HexEncodeAt(s: seq<byte>, i: nat)
    requires i < |s|
    ensures |HexEncode(s)| == 2 * |s|
    ensures HexEncode(s)[2 * i] == "0123456789abcdef"[s[i] / 16]
    ensures HexEncode(s)[2 * i + 1] == "0123456789abcdef"[s[i] % 16]
  {
    HexDigitIs(s[i] / 16);
    HexDigitIs(s[i] % 16);
    if |s| == 1 {
      assert HexEncode(s[1..]) == "";
    } else {
      HexEncodeAt(s[1..], if i > 0 then i - 1 else 0);
    }
  }

  lemma HexDigitIs(d: nat)
    requires d < 16
    ensures HexDigit(d) == "0123456789abcdef"[d]
  {
  }

  function LowerHex(c: char): char {
    if 'A' <= c <= 'F' then (c as int - 'A' as int + 'a' as int) as char else c
  }

  /** t is s in hexadecimal, in whatever letter case. */
  ghost predicate SpellsBytes(t: string, s: seq<byte>) {
    |t| == |HexEncode(s)| && forall i | 0 <= i < |t| :: LowerHex(t[i]) == HexEncode(s)[i]
  }

  lemma HexValueIs(c: char, d: nat)
    requires d < 16
    ensures HexValue(c) == Some(d) <==> LowerHex(c) == HexDigit(d)
  {
  }

  /** Decoding accepts exactly the encodings, in either letter case. */
  lemma {:induction false} HexDecodeIff(t: string, s: seq<byte>)
    ensures HexDecode(t) == Some(s) <==> SpellsBytes(t, s)
  {
    if s == [] {
      assert HexEncode(s) == "";
    } else if |t| >= 2 {
      HexDecodeIff(t[2..], s[1..]);
      HexValueIs(t[0], s[0] / 16);
      HexValueIs(t[1], s[0] % 16);
      var e := HexEncode(s);
      assert e[2..] == HexEncode(s[1..]);
      assert SpellsBytes(t, s) <==>
        LowerHex(t[0]) == e[0] && LowerHex(t[1]) == e[1] && SpellsBytes(t[2..], s[1..]) by {
        SpellsBytesStep(t, s);
      }
      HexDecodeStep(t, s);
    }
  }

  lemma SpellsBytesStep(t: string, s: seq<byte>)
    requires |t| >= 2 && s != []
    ensures SpellsBytes(t, s) <==>
      LowerHex(t[0]) == HexEncode(s)[0] && LowerHex(t[1]) == HexEncode(s)[1] && SpellsBytes(t[2..], s[1..])
  {
    var e, u := HexEncode(s), t[2..];
    assert e[2..] == HexEncode(s[1..]);
    if SpellsBytes(t, s) {
      assert forall i | 0 <= i < |u| :: u[i] == t[i + 2] && e[2..][i] == e[i + 2];
    }
    if LowerHex(t[0]) == e[0] && LowerHex(t[1]) == e[1] && SpellsBytes(u, s[1..]) {
      forall i | 0 <= i < |t| ensures LowerHex(t[i]) == e[i] {
        if i >= 2 {
          assert t[i] == u[i - 2] && e[i] == e[2..][i - 2];
        }
      }
    }
  }

  lemma HexDecodeStep(t: string, s: seq<byte>)
    requires |t| >= 2 && s != []
    ensures HexDecode(t) == Some(s) <==>
      HexValue(t[0]) == Some(s[0] / 16) && HexValue(t[1]) == Some(s[0] % 16) && HexDecode(t[2..]) == Some(s[1..])
  {
    assert s == [s[0]] + s[1..];
    if HexDecode(t) == Some(s) {
      var rest := HexDecode(t[2..]).value;
      assert s[1..] == rest;
    }
  }

  // ----- UTF-8 -----

  function EncodeChar(c: char): (s: seq<byte>)
    ensures 1 <= |s| <= 4
  {
    var v := c as int;
    if v < 0x80 then [v]
    else if v < 0x800 then [0xC0 + v / 0x40, 0x80 + v % 0x40]
    else if v < 0x1_0000 then [0xE0 + v / 0x1000, 0x80 + v / 0x40 % 0x40, 0x80 + v % 0x40]
    else [0xF0 + v / 0x4_0000, 0x80 + v / 0x1000 % 0x40, 0x80 + v / 0x40 % 0x40, 0x80 + v % 0x40]
  }

  /** The UTF-8 bytes of a text; a Rust string is stored as exactly these bytes. */
  function Utf8(t: string): seq<byte> {
    if t == "" then [] else EncodeChar(t[0]) + Utf8(t[1..])
  }

  lemma LeadByteTellsLength(c: char, d: char)
    requires EncodeChar(c)[0] == EncodeChar(d)[0]
    ensures |EncodeChar(c)| == |EncodeChar(d)|
  {
  }

  /** The scalar value that the bytes of one encoded character spell. */
  function Scalar(s: seq<byte>): int
    requires 1 <= |s| <= 4
  {
    if |s| == 1 then s[0]
    else
      var a, b := s[0] as int, s[1] as int;
      if |s| == 2 then (a - 0xC0) * 0x40 + (b - 0x80)
      else
        var c := s[2] as int;
        if |s| == 3 then (a - 0xE0) * 0x1000 + (b - 0x80) * 0x40 + (c - 0x80)
        else (a - 0xF0) * 0x4_0000 + (b - 0x80) * 0x1000 + (c - 0x80) * 0x40 + (s[3] as int - 0x80)
  }

  lemma SixBitGroups(v: nat)
    ensures v == v / 0x40 * 0x40 + v % 0x40
    ensures v / 0x40 == v / 0x1000 * 0x40 + v / 0x40 % 0x40
    ensures v / 0x1000 == v / 0x4_0000 * 0x40 + v / 0x1000 % 0x40
  {
    assert v / 0x40 / 0x40 == v / 0x1000;
    assert v / 0x1000 / 0x40 == v / 0x4_0000;
  }

  /**
   Section 3 of RFC 3629: a character takes as many bytes as its range says; the lead byte says how
   many, the others continue it, and their payload bits, highest first, are the character.
   */
  lemma EncodeCharLayout(c: char)
    ensures var s, v := EncodeChar(c), c as int;
      if v < 0x80 then s == [v]
      else if v < 0x800 then |s| == 2 && 0xC0 <= s[0] < 0xE0 && Continues(s[1..])
      else if v < 0x1_0000 then |s| == 3 && 0xE0 <= s[0] < 0xF0 && Continues(s[1..])
      else |s| == 4 && 0xF0 <= s[0] < 0xF8 && Continues(s[1..])
    ensures var s, v := EncodeChar(c), c as int;
      && (|s| == 2 ==> (s[0] as int - 0xC0) * 0x40 + (s[1] as int - 0x80) == v)
      && (|s| == 3 ==> (s[0] as int - 0xE0) * 0x1000 + (s[1] as int - 0x80) * 0x40 + (s[2] as int - 0x80) == v)
      && (|s| == 4 ==> (s[0] as int - 0xF0) * 0x4_0000 + (s[1] as int - 0x80) * 0x1000
                       + (s[2] as int - 0x80) * 0x40 + (s[3] as int - 0x80) == v)
  {
    ScalarOfEncodeChar(c);
  }

  predicate Continues(s: seq<byte>) {
    forall i | 0 <= i < |s| :: 0x80 <= s[i] < 0xC0
  }

  /** ASCII text is its own bytes. */
  lemma {:induction false} Utf8OfAscii(t: string)
    requires forall i | 0 <= i < |t| :: t[i] as int < 0x80
    ensures |Utf8(t)| == |t| && forall i | 0 <= i < |t| :: Utf8(t)[i] == t[i] as int
  {
    if t != "" {
      Utf8OfAscii(t[1..]);
    }
  }

  lemma ScalarOfEncodeChar(c: char)
    ensures Scalar(EncodeChar(c)) == c as int
  {
    SixBitGroups(c as int);
  }

  lemma {:induction false} Utf8Injective(t: string, u: string)
    requires Utf8(t) == Utf8(u)
    ensures t == u
  {
    if t != "" && u != "" {
      var a, b := EncodeChar(t[0]), EncodeChar(u[0]);
      assert Utf8(t)[0] == a[0] && Utf8(u)[0] == b[0];
      LeadByteTellsLength(t[0], u[0]);
      assert a == Utf8(t)[..|a|] == Utf8(u)[..|a|] == b;
      ScalarOfEncodeChar(t[0]);
      ScalarOfEncodeChar(u[0]);
      assert Utf8(t[1..]) == Utf8(t)[|a|..] == Utf8(u)[|a|..] == Utf8(u[1..]);
      Utf8Injective(t[1..], u[1..]);
      assert t == [t[0]] + t[1..] && u == [u[0]] + u[1..];
    }
  }

  /** std::str::from_utf8: the text these bytes encode, if there is one; Utf8Injective makes it unique. */
  ghost function FromUtf8(s: seq<byte>): (t: Option<string>)
    ensures t.Some? ==> Utf8(t.value) == s
    ensures t.None? ==> forall u: string :: Utf8(u) != s
  {
    if u: string :| Utf8(u) == s then Some(u) else None
  }
}
