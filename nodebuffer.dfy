/**
 * The part of Node's `Buffer` that the relay uses: `Buffer.from(hex, 'hex')`,
 * which turns the hexadecimal string produced by the record codec into bytes.
 * Node decodes two characters at a time, stops at the first pair holding a
 * character that is not a hexadecimal digit (either case), and drops a single
 * trailing character of an odd-length string.
 */
module NodeBuffer {

  newtype byte = x: int | 0 <= x < 256

  predicate IsHexDigit(c: char) {
    ('0' <= c <= '9') || ('a' <= c <= 'f') || ('A' <= c <= 'F')
  }

  function HexDigitValue(c: char): (v: int)
    requires IsHexDigit(c)
    ensures 0 <= v < 16
  {
    if '0' <= c <= '9' then c as int - '0' as int
    else if 'a' <= c <= 'f' then c as int - 'a' as int + 10
    else c as int - 'A' as int + 10
  }

  /** True when the first `2 * n` characters of `s` are all hexadecimal digits. */
  ghost predicate HexPrefix(s: string, n: nat)
    requires 2 * n <= |s|
  {
    forall i :: 0 <= i < 2 * n ==> IsHexDigit(s[i])
  }

  /**
   * `Buffer.from(s, 'hex')`. Byte i is the value of characters 2i and 2i+1;
   * decoding stops at the first pair that is not two hexadecimal digits, so the
   * result is never longer than half the input, and it has exactly that
   * length when no character of the even-length prefix stops the decoding.
   */
  function FromHex(s: string): (r: seq<byte>)
    ensures |r| <= |s| / 2
    ensures 2 * |r| <= |s| && HexPrefix(s, |r|)
    ensures |r| == |s| / 2 <==> HexPrefix(s, |s| / 2)
    ensures forall i :: 0 <= i < |r| ==> r[i] as int == 16 * HexDigitValue(s[2 * i]) + HexDigitValue(s[2 * i + 1])
    ensures 2 * |r| + 2 <= |s| ==> !(IsHexDigit(s[2 * |r|]) && IsHexDigit(s[2 * |r| + 1]))
    decreases |s|
  {
    if |s| < 2 || !IsHexDigit(s[0]) || !IsHexDigit(s[1]) then []
    else [(16 * HexDigitValue(s[0]) + HexDigitValue(s[1])) as byte] + FromHex(s[2..])
  }

  /** Lower-case digit for a value below sixteen. */
  function LowerHexDigit(v: int): (c: char)
    requires 0 <= v < 16
    ensures IsHexDigit(c) && HexDigitValue(c) == v
  {
    if v < 10 then ('0' as int + v) as char else ('a' as int + v - 10) as char
  }

  /** The lower-case hexadecimal text of `bytes`, two digits per byte. */
  function LowerHex(bytes: seq<byte>): (s: string)
    ensures |s| == 2 * |bytes|
  {
    if bytes == [] then []
    else [LowerHexDigit(bytes[0] as int / 16), LowerHexDigit(bytes[0] as int % 16)] + LowerHex(bytes[1..])
  }

  /** Decoding the hexadecimal text of any byte string gives that byte string back. */
  lemma {:induction false} FromLowerHex(bytes: seq<byte>)
    ensures FromHex(LowerHex(bytes)) == bytes
  {
    if bytes != [] {
      var s := LowerHex(bytes);
      var b := bytes[0] as int;
      assert s[2..] == LowerHex(bytes[1..]);
      FromLowerHex(bytes[1..]);
      assert 16 * (b / 16) + b % 16 == b;
    }
  }
}
