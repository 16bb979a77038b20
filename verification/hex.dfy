/** Hex text for byte strings: `bytes.hex()` in one direction and the
    `HexBytes(...)` conversion of a `0x`-prefixed or bare hex string in the
    other. */
module Hex {
  import opened BigEndian

  predicate IsHexDigit(c: char) {
    ('0' <= c <= '9') || ('a' <= c <= 'f') || ('A' <= c <= 'F')
  }

  function DigitValue(c: char): (v: nat)
    requires IsHexDigit(c)
    ensures v < 16
  {
    if '0' <= c <= '9' then c as int - '0' as int
    else if 'a' <= c <= 'f' then c as int - 'a' as int + 10
    else c as int - 'A' as int + 10
  }

  /** The lower-case digit `bytes.hex()` writes for a nibble. */
  function LowerDigit(v: nat): (c: char)
    requires v < 16
    ensures IsHexDigit(c) && DigitValue(c) == v
  {
    if v < 10 then ('0' as int + v) as char else ('a' as int + v - 10) as char
  }

  /** `bs.hex()`: two lower-case digits per byte, most significant nibble
      first, no `0x` prefix. */
  function ToHex(bs: seq<byte>): (r: string)
    ensures |r| == 2 * |bs|
    ensures forall i :: 0 <= i < |r| ==> IsHexDigit(r[i])
  {
    if |bs| == 0 then ""
    else [LowerDigit(bs[0] / 16), LowerDigit(bs[0] % 16)] + ToHex(bs[1..])
  }

  /** Drops one leading `0x` or `0X`. */
  function StripPrefix(s: string): string {
    if |s| >= 2 && s[0] == '0' && (s[1] == 'x' || s[1] == 'X') then s[2..] else s
  }

  /** An even number of hex digits. */
  predicate IsDigitPairs(t: string) {
    |t| % 2 == 0 && forall i :: 0 <= i < |t| ==> IsHexDigit(t[i])
  }

  /** A string `HexBytes` turns into bytes: optional prefix, then digit pairs. */
  predicate IsHexString(s: string) {
    IsDigitPairs(StripPrefix(s))
  }

  function DigitPairsToBytes(t: string): (r: seq<byte>)
    requires IsDigitPairs(t)
    ensures 2 * |r| == |t|
  {
    if |t| == 0 then []
    else
      assert IsDigitPairs(t[2..]);
      [16 * DigitValue(t[0]) + DigitValue(t[1])] + DigitPairsToBytes(t[2..])
  }

  /** `HexBytes(s)` for a well-formed hex string. */
  function HexToBytes(s: string): (r: seq<byte>)
    requires IsHexString(s)
    ensures 2 * |r| == |StripPrefix(s)|
  {
    DigitPairsToBytes(StripPrefix(s))
  }

  /** `bytes.hex()` never starts with a `0x` prefix. */
  lemma ToHexHasNoPrefix(bs: seq<byte>)
    ensures StripPrefix(ToHex(bs)) == ToHex(bs)
    ensures |ToHex(bs)| < 2 || ToHex(bs)[..2] != "0x"
  {
    var r := ToHex(bs);
    if |r| >= 2 {
      assert IsHexDigit(r[1]);
    }
  }

  lemma {:induction false} DigitPairsRoundTrip(bs: seq<byte>)
    ensures IsDigitPairs(ToHex(bs))
    ensures DigitPairsToBytes(ToHex(bs)) == bs
  {
    if |bs| > 0 {
      var r := ToHex(bs);
      assert r[2..] == ToHex(bs[1..]);
      DigitPairsRoundTrip(bs[1..]);
      assert 16 * DigitValue(r[0]) + DigitValue(r[1]) == bs[0];
    }
  }

  /** Reading back the hex text of a byte string gives that byte string. */
  lemma HexRoundTrip(bs: seq<byte>)
    ensures IsHexString(ToHex(bs))
    ensures HexToBytes(ToHex(bs)) == bs
  {
    ToHexHasNoPrefix(bs);
    DigitPairsRoundTrip(bs);
  }
}
