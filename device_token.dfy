/**
 * The device token for remote notifications, rendered as text: each byte becomes two
 * lower-case hexadecimal digits (format "%02.2hhx"), and the pairs are concatenated in
 * byte order without a separator.
 */
module DeviceTokens {
  import opened Wrappers

  newtype byte = x: int | 0 <= x < 256

  predicate IsHexDigit(c: char) {
    '0' <= c <= '9' || 'a' <= c <= 'f'
  }

  function HexDigit(d: int): (c: char)
    requires 0 <= d < 16
    ensures IsHexDigit(c) && HexValue(c) == d
  {
    if d < 10 then ('0' as int + d) as char else ('a' as int + d - 10) as char
  }

  function HexValue(c: char): (d: int)
    requires IsHexDigit(c)
    ensures 0 <= d < 16
  {
    if c <= '9' then c as int - '0' as int else c as int - 'a' as int + 10
  }

  /** One byte as two zero-padded lower-case hex digits, high nibble first. */
  function ByteHex(b: byte): (s: string)
    ensures |s| == 2 && IsHexDigit(s[0]) && IsHexDigit(s[1])
    ensures HexValue(s[0]) * 16 + HexValue(s[1]) == b as int
  {
    [HexDigit(b as int / 16), HexDigit(b as int % 16)]
  }

  /** The token text: the digit pairs of the bytes, concatenated in order. */
  function HexEncode(bytes: seq<byte>): (s: string)
    ensures |s| == 2 * |bytes|
    ensures forall i :: 0 <= i < |s| ==> IsHexDigit(s[i])
  {
    if bytes == [] then "" else ByteHex(bytes[0]) + HexEncode(bytes[1..])
  }

  /** Digits 2i and 2i+1 of the text are the pair of byte i. */
  lemma {:induction false} HexEncodeAt(bytes: seq<byte>, i: int)
    requires 0 <= i < |bytes|
    ensures HexEncode(bytes)[2 * i..2 * i + 2] == ByteHex(bytes[i])
  {
    if i > 0 {
      HexEncodeAt(bytes[1..], i - 1);
      var rest := HexEncode(bytes[1..]);
      assert HexEncode(bytes)[2 * i..2 * i + 2] == rest[2 * (i - 1)..2 * (i - 1) + 2];
    }
  }

  /** Reading the text back two digits at a time; None for odd lengths or other characters. */
  function HexDecode(s: string): (r: Option<seq<byte>>)
    ensures r.Some? ==> 2 * |r.value| == |s|
    decreases |s|
  {
    if s == [] then Some([])
    else if |s| < 2 || !IsHexDigit(s[0]) || !IsHexDigit(s[1]) then None
    else
      match HexDecode(s[2..])
      case None => None
      case Some(rest) => Some([(HexValue(s[0]) * 16 + HexValue(s[1])) as byte] + rest)
  }

  lemma {:induction false} HexRoundTrip(bytes: seq<byte>)
    ensures HexDecode(HexEncode(bytes)) == Some(bytes)
  {
    if bytes != [] {
      var s := HexEncode(bytes);
      HexRoundTrip(bytes[1..]);
      assert s[2..] == HexEncode(bytes[1..]);
      assert [bytes[0]] + bytes[1..] == bytes;
    }
  }

  /** Every text the reader accepts is the rendering of the bytes it reads. */
  lemma {:induction false} HexDecodeEncodes(s: string)
    requires HexDecode(s).Some?
    ensures HexEncode(HexDecode(s).value) == s
  {
    if s != [] {
      var bytes := HexDecode(s).value;
      HexDecodeEncodes(s[2..]);
      assert bytes[1..] == HexDecode(s[2..]).value;
      HexNibbles(s[0], s[1]);
      assert s == s[..2] + s[2..];
    }
  }

  lemma HexNibbles(c: char, d: char)
    requires IsHexDigit(c) && IsHexDigit(d)
    ensures ByteHex((HexValue(c) * 16 + HexValue(d)) as byte) == [c, d]
  {
    var v := HexValue(c) * 16 + HexValue(d);
    assert v / 16 == HexValue(c) && v % 16 == HexValue(d);
  }

  /** Different tokens never render to the same text. */
  lemma HexEncodeInjective(a: seq<byte>, b: seq<byte>)
    requires HexEncode(a) == HexEncode(b)
    ensures a == b
  {
    HexRoundTrip(a);
    HexRoundTrip(b);
  }
}
