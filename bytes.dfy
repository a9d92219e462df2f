// ByteUtilities: the two byte conversions that are plain loops, hexadecimal text and the
// byte-per-character string, each with the decoding that undoes it.

module Bytes {
  import opened Wrappers

  /** A Java byte: a signed 8-bit value. */
  type JByte = b: int | -128 <= b < 128

  /** The byte read as unsigned, which is how "%02X" formats a Byte (a negative value gets 2^8 added). */
  function Unsigned(b: JByte): (u: nat)
    ensures u < 256 && (u - b) % 256 == 0
  {
    if b < 0 then b + 256 else b
  }

  /** The byte whose unsigned reading is u. */
  function Signed(u: nat): JByte
    requires u < 256
  {
    if u >= 128 then u - 256 else u
  }

  /** One uppercase hexadecimal digit. */
  function HexDigit(d: nat): (c: char)
    requires d < 16
  {
    if d < 10 then ('0' as int + d) as char else ('A' as int + d - 10) as char
  }

  /** The value of an uppercase hexadecimal digit, or -1 for any other character. */
  function DigitValue(c: char): (v: int)
    ensures -1 <= v < 16
  {
    if '0' <= c <= '9' then c as int - '0' as int
    else if 'A' <= c <= 'F' then c as int - 'A' as int + 10
    else -1
  }

  lemma DigitValueOfHexDigit(d: nat)
    requires d < 16
    ensures DigitValue(HexDigit(d)) == d
  {
  }

  /** The characters "%02X" writes for one byte: the high then the low nibble of its unsigned value. */
  predicate HexPairOf(b: JByte, hi: char, lo: char) {
    hi == HexDigit(Unsigned(b) / 16) && lo == HexDigit(Unsigned(b) % 16)
  }

  /** ByteToHex: two uppercase digits per byte, appended in order. */
  method ByteToHex(bytes: seq<JByte>) returns (s: string)
    ensures |s| == 2 * |bytes|
    ensures forall i :: 0 <= i < |bytes| ==> HexPairOf(bytes[i], s[2 * i], s[2 * i + 1])
  {
    s := "";
    for i := 0 to |bytes|
      invariant |s| == 2 * i
      invariant forall k :: 0 <= k < i ==> HexPairOf(bytes[k], s[2 * k], s[2 * k + 1])
    {
      var u := Unsigned(bytes[i]);
      s := s + [HexDigit(u / 16), HexDigit(u % 16)];
    }
  }

  /** Reading hexadecimal text back, two digits per byte; an odd length or a character that is not an
      uppercase digit is refused. */
  function UnHex(s: string): Option<seq<JByte>>
    decreases |s|
  {
    if |s| == 0 then Some([])
    else if |s| == 1 || DigitValue(s[0]) < 0 || DigitValue(s[1]) < 0 then None
    else match UnHex(s[2..])
      case None => None
      case Some(rest) => Some([Signed(DigitValue(s[0]) * 16 + DigitValue(s[1]))] + rest)
  }

  /** The text ByteToHex returns reads back as the same bytes: the conversion loses nothing. */
  lemma {:induction false} UnHexOfHex(bytes: seq<JByte>, s: string)
    requires |s| == 2 * |bytes|
    requires forall i :: 0 <= i < |bytes| ==> HexPairOf(bytes[i], s[2 * i], s[2 * i + 1])
    ensures UnHex(s) == Some(bytes)
    decreases |bytes|
  {
    if bytes != [] {
      var u := Unsigned(bytes[0]);
      assert HexPairOf(bytes[0], s[0], s[1]);
      DigitValueOfHexDigit(u / 16);
      DigitValueOfHexDigit(u % 16);
      forall i | 0 <= i < |bytes[1..]|
        ensures HexPairOf(bytes[1..][i], s[2..][2 * i], s[2..][2 * i + 1])
      {
        assert HexPairOf(bytes[i + 1], s[2 * (i + 1)], s[2 * (i + 1) + 1]);
      }
      UnHexOfHex(bytes[1..], s[2..]);
      assert [bytes[0]] + bytes[1..] == bytes;
    }
  }

  /** Every character ByteToHex writes is an uppercase hexadecimal digit. */
  lemma HexIsUppercaseDigits(bytes: seq<JByte>, s: string)
    requires |s| == 2 * |bytes|
    requires forall i :: 0 <= i < |bytes| ==> HexPairOf(bytes[i], s[2 * i], s[2 * i + 1])
    ensures forall j :: 0 <= j < |s| ==> ('0' <= s[j] <= '9' || 'A' <= s[j] <= 'F')
  {
    forall j | 0 <= j < |s|
      ensures '0' <= s[j] <= '9' || 'A' <= s[j] <= 'F'
    {
      assert HexPairOf(bytes[j / 2], s[2 * (j / 2)], s[2 * (j / 2) + 1]);
    }
  }

  /** (char) b: the byte widened to int with its sign, then cut to 16 bits. */
  function Widened(b: JByte): (v: int)
    ensures 0 <= v < 0x1_0000 && (v - b) % 0x1_0000 == 0
    ensures b >= 0 ==> v == b
  {
    if b < 0 then b + 0x1_0000 else b
  }

  /** ByteToString: one character per byte, appended in order. */
  method ByteToString(bytes: seq<JByte>) returns (s: string)
    ensures |s| == |bytes|
    ensures forall i :: 0 <= i < |bytes| ==> s[i] as int == Widened(bytes[i])
  {
    s := "";
    for i := 0 to |bytes|
      invariant |s| == i
      invariant forall k :: 0 <= k < i ==> s[k] as int == Widened(bytes[k])
    {
      s := s + [Widened(bytes[i]) as char];
    }
  }

  /** (byte) c: the low eight bits of a character, read with a sign. */
  function Narrowed(c: char): JByte {
    Signed(c as int % 256)
  }

  /** Narrowing each character of ByteToString's result gives the bytes back. */
  lemma NarrowedWidened(bytes: seq<JByte>, s: string)
    requires |s| == |bytes|
    requires forall i :: 0 <= i < |bytes| ==> s[i] as int == Widened(bytes[i])
    ensures forall i :: 0 <= i < |bytes| ==> Narrowed(s[i]) == bytes[i]
  {
    forall i | 0 <= i < |bytes|
      ensures Narrowed(s[i]) == bytes[i]
    {
      var b: int := bytes[i];
      if b < 0 {
        assert s[i] as int % 256 == b + 256;
      }
    }
  }
}
