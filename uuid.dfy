/**
 * `Uuid::new_v4().to_string()`: a version-4 UUID (RFC 9562, section 5.4)
 * built from 16 random bytes and written in the hyphenated lowercase form.
 * The random bytes are an input of the model.
 */
module Uuid {

  type byte = x: int | 0 <= x < 256

  /** The 16 bytes drawn from the random source. */
  type UuidBytes = s: seq<byte> | |s| == 16 witness [0, 0, 0, 0, 0, 0, 0, 0, 0, 0, 0, 0, 0, 0, 0, 0]

  /**
   * Stamps the version (4, in the high nibble of byte 6) and the RFC variant
   * (binary 10, in the two high bits of byte 8) over the random bytes.
   */
  function Stamp(random: UuidBytes): (u: UuidBytes)
    ensures u[6] / 16 == 4 && u[8] / 64 == 2
    ensures u[6] % 16 == random[6] % 16 && u[8] % 64 == random[8] % 64
    ensures forall i :: 0 <= i < 16 && i != 6 && i != 8 ==> u[i] == random[i]
  {
    random[6 := random[6] % 16 + 0x40][8 := random[8] % 64 + 0x80]
  }

  predicate IsLowerHex(c: char) {
    ('0' <= c <= '9') || ('a' <= c <= 'f')
  }

  function HexDigit(d: int): (c: char)
    requires 0 <= d < 16
    ensures IsLowerHex(c)
  {
    if d < 10 then ('0' as int + d) as char else ('a' as int + d - 10) as char
  }

  function HexValue(c: char): int {
    if '0' <= c <= '9' then c as int - '0' as int else c as int - 'a' as int + 10
  }

  /** Two lowercase hexadecimal digits per byte, high nibble first. */
  function Hex(bs: seq<byte>): (s: string)
    ensures |s| == 2 * |bs|
  {
    if bs == [] then [] else [HexDigit(bs[0] / 16), HexDigit(bs[0] % 16)] + Hex(bs[1..])
  }

  function Unhex(s: string): seq<int>
    requires |s| % 2 == 0
  {
    if s == [] then [] else [HexValue(s[0]) * 16 + HexValue(s[1])] + Unhex(s[2..])
  }

  lemma {:induction false} UnhexHex(bs: seq<byte>)
    ensures Unhex(Hex(bs)) == bs
  {
    if bs != [] {
      var s := Hex(bs);
      assert s[2..] == Hex(bs[1..]);
      UnhexHex(bs[1..]);
      assert HexValue(s[0]) == bs[0] / 16 && HexValue(s[1]) == bs[0] % 16;
    }
  }

  lemma {:induction false} HexAt(bs: seq<byte>, i: nat)
    requires i < |bs|
    ensures Hex(bs)[2 * i] == HexDigit(bs[i] / 16)
    ensures Hex(bs)[2 * i + 1] == HexDigit(bs[i] % 16)
  {
    if i > 0 {
      HexAt(bs[1..], i - 1);
    }
  }

  lemma {:induction false} HexIsLowerHex(bs: seq<byte>)
    ensures forall j :: 0 <= j < |Hex(bs)| ==> IsLowerHex(Hex(bs)[j])
  {
    forall j | 0 <= j < |Hex(bs)|
      ensures IsLowerHex(Hex(bs)[j])
    {
      HexAt(bs, j / 2);
    }
  }

  /** `Uuid::to_string`: the 8-4-4-4-12 hyphenated lowercase form. */
  function Hyphenated(u: UuidBytes): (s: string)
    ensures |s| == 36
  {
    Hex(u[..4]) + "-" + Hex(u[4..6]) + "-" + Hex(u[6..8]) + "-" + Hex(u[8..10]) + "-" + Hex(u[10..])
  }

  /** Reads the 16 bytes back out of the hyphenated form. */
  function ParseHyphenated(s: string): seq<int>
    requires |s| == 36
  {
    Unhex(s[..8]) + Unhex(s[9..13]) + Unhex(s[14..18]) + Unhex(s[19..23]) + Unhex(s[24..])
  }

  /** The layout of the hyphenated form, piece by piece. */
  lemma HyphenatedPieces(u: UuidBytes)
    ensures var s := Hyphenated(u);
      && s[..8] == Hex(u[..4]) && s[9..13] == Hex(u[4..6]) && s[14..18] == Hex(u[6..8])
      && s[19..23] == Hex(u[8..10]) && s[24..] == Hex(u[10..])
      && s[8] == '-' && s[13] == '-' && s[18] == '-' && s[23] == '-'
  {
  }

  /** The hyphenated form loses nothing: parsing it gives the bytes back. */
  lemma ParseHyphenatedRoundTrip(u: UuidBytes)
    ensures ParseHyphenated(Hyphenated(u)) == u
  {
    HyphenatedPieces(u);
    UnhexHex(u[..4]);
    UnhexHex(u[4..6]);
    UnhexHex(u[6..8]);
    UnhexHex(u[8..10]);
    UnhexHex(u[10..]);
    assert u == u[..4] + u[4..6] + u[6..8] + u[8..10] + u[10..];
  }

  /** `Uuid::new_v4().to_string()` for the bytes `random` that the random source produced. */
  function NewV4String(random: UuidBytes): (s: string)
    ensures |s| == 36
  {
    Hyphenated(Stamp(random))
  }

  /**
   * Every minted identifier has the canonical version-4 shape: hyphens at
   * 8, 13, 18 and 23, version digit '4' at 14, a variant digit in 8..b at 19,
   * and lowercase hexadecimal digits everywhere else.
   */
  lemma NewV4Shape(random: UuidBytes)
    ensures var s := NewV4String(random);
      && s[8] == '-' && s[13] == '-' && s[18] == '-' && s[23] == '-'
      && s[14] == '4'
      && s[19] in "89ab"
      && forall i :: 0 <= i < 36 && i != 8 && i != 13 && i != 18 && i != 23 ==> IsLowerHex(s[i])
  {
    var u := Stamp(random);
    var s := Hyphenated(u);
    HyphenatedPieces(u);
    HexAt(u[6..8], 0);
    HexAt(u[8..10], 0);
    assert s[14] == s[14..18][0] && s[19] == s[19..23][0];
    HexIsLowerHex(u[..4]);
    HexIsLowerHex(u[4..6]);
    HexIsLowerHex(u[6..8]);
    HexIsLowerHex(u[8..10]);
    HexIsLowerHex(u[10..]);
    forall i | 0 <= i < 36 && i != 8 && i != 13 && i != 18 && i != 23
      ensures IsLowerHex(s[i])
    {
      if i < 8 { assert s[i] == s[..8][i]; }
      else if i < 13 { assert s[i] == s[9..13][i - 9]; }
      else if i < 18 { assert s[i] == s[14..18][i - 14]; }
      else if i < 23 { assert s[i] == s[19..23][i - 19]; }
      else { assert s[i] == s[24..][i - 24]; }
    }
  }

  /**
   * Two draws mint the same identifier exactly when they agree on the 122
   * bits that are not overwritten by the version and variant.
   */
  lemma NewV4Injective(a: UuidBytes, b: UuidBytes)
    ensures NewV4String(a) == NewV4String(b) <==> Stamp(a) == Stamp(b)
  {
    if NewV4String(a) == NewV4String(b) {
      ParseHyphenatedRoundTrip(Stamp(a));
      ParseHyphenatedRoundTrip(Stamp(b));
    }
  }
}
