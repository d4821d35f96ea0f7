/**
 * make_4byte_signature and the key format of the signature database: a text
 * signature is encoded as UTF-8, hashed with Keccak-256, and the first four
 * bytes of the digest are its selector; a selector is written as eight
 * lower-case hexadecimal digits (bytes.hex()).
 *
 * Keccak-256 itself is not modelled: it is a parameter of every member that
 * hashes, a function from byte strings to 32-byte digests.
 */
module Selectors {

  newtype byte = b: int | 0 <= b < 256

  /** A Keccak-256 digest. */
  type Digest = d: seq<byte> | |d| == 32 witness seq(32, _ => 0)

  /** A 4-byte function selector. */
  type Selector = s: seq<byte> | |s| == 4 witness [0, 0, 0, 0]

  /* ---- bytes(text, 'utf8') -------------------------------------------------- */

  /** The UTF-8 encoding of one Unicode scalar value. */
  function Utf8Char(c: char): (r: seq<byte>)
    ensures 1 <= |r| <= 4
    ensures |r| == 1 <==> c < 128 as char
  {
    var cp := c as int;
    if cp < 0x80 then [cp as byte]
    else if cp < 0x800 then [(0xC0 + cp / 0x40) as byte, (0x80 + cp % 0x40) as byte]
    else if cp < 0x1_0000 then
      [(0xE0 + cp / 0x1000) as byte, (0x80 + cp / 0x40 % 0x40) as byte, (0x80 + cp % 0x40) as byte]
    else
      [(0xF0 + cp / 0x4_0000) as byte, (0x80 + cp / 0x1000 % 0x40) as byte,
       (0x80 + cp / 0x40 % 0x40) as byte, (0x80 + cp % 0x40) as byte]
  }

  /** The code point a well-formed UTF-8 sequence of one character stands for. */
  function DecodeUtf8Char(bs: seq<byte>): int
    requires 1 <= |bs| <= 4
  {
    var b0 := bs[0] as int;
    if |bs| == 1 then b0
    else if |bs| == 2 then (b0 - 0xC0) * 0x40 + (bs[1] as int - 0x80)
    else if |bs| == 3 then
      (b0 - 0xE0) * 0x1000 + (bs[1] as int - 0x80) * 0x40 + (bs[2] as int - 0x80)
    else
      (b0 - 0xF0) * 0x4_0000 + (bs[1] as int - 0x80) * 0x1000
        + (bs[2] as int - 0x80) * 0x40 + (bs[3] as int - 0x80)
  }

  /** The encoding of a character decodes back to it. */
  lemma Utf8CharRoundTrip(c: char)
    ensures DecodeUtf8Char(Utf8Char(c)) == c as int
  {
    var cp := c as int;
    if 0x800 <= cp < 0x1_0000 {
      assert cp == cp / 0x1000 * 0x1000 + cp / 0x40 % 0x40 * 0x40 + cp % 0x40;
    } else if 0x1_0000 <= cp {
      assert cp == cp / 0x4_0000 * 0x4_0000 + cp / 0x1000 % 0x40 * 0x1000
        + cp / 0x40 % 0x40 * 0x40 + cp % 0x40;
    }
  }

  /** bytes(text, 'utf8'). */
  function Utf8(s: string): (r: seq<byte>)
    ensures |s| <= |r| <= 4 * |s|
  {
    if s == [] then [] else Utf8Char(s[0]) + Utf8(s[1..])
  }

  /** On an ASCII text the encoding is one byte per character, the character's code. */
  lemma {:induction false} AsciiUtf8(s: string)
    requires forall k | 0 <= k < |s| :: s[k] < 128 as char
    ensures |Utf8(s)| == |s|
    ensures forall k | 0 <= k < |s| :: Utf8(s)[k] as int == s[k] as int
  {
    if s != [] {
      AsciiUtf8(s[1..]);
      assert Utf8(s) == [s[0] as int as byte] + Utf8(s[1..]);
    }
  }

  /* ---- make_4byte_signature --------------------------------------------------- */

  /** keccak_256(bytes(text, 'utf8')).digest()[:4]. */
  function Make4ByteSignature(keccak: seq<byte> -> Digest, text: string): (r: Selector)
  {
    keccak(Utf8(text))[..4]
  }

  /* ---- bytes.hex() ------------------------------------------------------------ */

  const HexDigits: string := "0123456789abcdef"

  predicate IsHexDigit(c: char) {
    '0' <= c <= '9' || 'a' <= c <= 'f'
  }

  /** The value of a lower-case hexadecimal digit. */
  function HexValue(c: char): (v: nat)
    ensures v < 16
  {
    if '0' <= c <= '9' then (c - '0') as int
    else if 'a' <= c <= 'f' then (c - 'a') as int + 10
    else 0
  }

  /** The digits of HexDigits are lower-case hexadecimal digits, each worth its index. */
  lemma HexDigitValues()
    ensures forall i | 0 <= i < 16 :: IsHexDigit(HexDigits[i]) && HexValue(HexDigits[i]) == i
  {
  }

  /** Two hexadecimal digits per byte, high half first. */
  function Hex(bs: seq<byte>): (r: string)
    ensures |r| == 2 * |bs|
    ensures forall k | 0 <= k < |r| :: IsHexDigit(r[k])
  {
    HexDigitValues();
    if bs == [] then []
    else [HexDigits[bs[0] / 16], HexDigits[bs[0] % 16]] + Hex(bs[1..])
  }

  /** The bytes a string of hexadecimal digit pairs stands for. */
  function UnHex(s: string): (r: seq<byte>)
    ensures |r| == |s| / 2
  {
    if |s| < 2 then []
    else [(16 * HexValue(s[0]) + HexValue(s[1])) as byte] + UnHex(s[2..])
  }

  /** Reading the hexadecimal text back gives the bytes. */
  lemma {:induction false} HexRoundTrip(bs: seq<byte>)
    ensures UnHex(Hex(bs)) == bs
  {
    if bs != [] {
      HexDigitValues();
      var h := Hex(bs);
      assert h[2..] == Hex(bs[1..]);
      HexRoundTrip(bs[1..]);
      assert 16 * HexValue(h[0]) + HexValue(h[1]) == bs[0] as int;
      assert UnHex(h) == [bs[0]] + bs[1..];
    }
  }

  /** Different byte strings have different hexadecimal texts. */
  lemma HexInjective(a: seq<byte>, b: seq<byte>)
    requires Hex(a) == Hex(b)
    ensures a == b
  {
    HexRoundTrip(a);
    HexRoundTrip(b);
  }

  /** Every lower-case hexadecimal digit is one of HexDigits. */
  lemma HexDigitIn(c: char)
    requires IsHexDigit(c)
    ensures c in HexDigits
  {
    if '0' <= c <= '9' {
      assert c == HexDigits[(c - '0') as int];
    } else {
      assert c == HexDigits[(c - 'a') as int + 10];
    }
  }

  /** A selector is written as eight lower-case hexadecimal digits. */
  lemma SelectorHex(k: Selector)
    ensures |Hex(k)| == 8
    ensures forall c | c in Hex(k) :: c in HexDigits
  {
    var h := Hex(k);
    forall c | c in h
      ensures c in HexDigits
    {
      var i :| 0 <= i < 8 && h[i] == c;
      HexDigitIn(c);
    }
  }

  /** The selector of the ERC-20 signature `transfer(address,uint256)`, whose Keccak-256
      digest starts with a9 05 9c bb, is stored under the key "a9059cbb". */
  lemma TransferSelectorKey(k: Selector)
    requires k == [0xa9, 0x05, 0x9c, 0xbb]
    ensures Hex(k) == "a9059cbb"
  {
    assert Hex(k[3..]) == "bb";
    assert Hex(k[2..]) == "9c" + Hex(k[3..]);
    assert Hex(k[1..]) == "05" + Hex(k[2..]);
  }
}
