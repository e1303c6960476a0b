/** Hexadecimal text: `digest("hex")` writes two lowercase digits per byte;
    `Buffer.from(s, "hex")` reads pairs of digits of either case from the
    start and stops, without error, at the first pair that is not two hex
    digits (a trailing odd digit is dropped as well). */
module Hex {
  import opened Bytes
  import opened Text

  predicate IsHexDigit(c: char) {
    ('0' <= c <= '9') || ('a' <= c <= 'f') || ('A' <= c <= 'F')
  }

  function HexValue(c: char): (v: nat)
    requires IsHexDigit(c)
    ensures v < 16
  {
    if '0' <= c <= '9' then c as int - '0' as int
    else if 'a' <= c <= 'f' then c as int - 'a' as int + 10
    else c as int - 'A' as int + 10
  }

  /** The lowercase digit of a value below 16. */
  function HexDigit(n: nat): (c: char)
    requires n < 16
    ensures IsHexDigit(c) && HexValue(c) == n
    ensures '0' <= c <= '9' || 'a' <= c <= 'f'
  {
    if n < 10 then ('0' as int + n) as char else ('a' as int + n - 10) as char
  }

  /** `digest("hex")`: two lowercase digits per byte, high nibble first. */
  function HexEncode(b: seq<byte>): (r: string)
    ensures |r| == 2 * |b|
    ensures forall i :: 0 <= i < |r| ==> '0' <= r[i] <= '9' || 'a' <= r[i] <= 'f'
    decreases |b|
  {
    if b == [] then []
    else [HexDigit(b[0] as int / 16), HexDigit(b[0] as int % 16)] + HexEncode(b[1..])
  }

  /** `Buffer.from(s, "hex")`: the bytes of the leading well-formed pairs. */
  function HexDecode(s: string): (r: seq<byte>)
    ensures 2 * |r| <= |s|
    decreases |s|
  {
    if |s| < 2 || !IsHexDigit(s[0]) || !IsHexDigit(s[1]) then []
    else [(HexValue(s[0]) * 16 + HexValue(s[1])) as byte] + HexDecode(s[2..])
  }

  lemma NibblesOfByte(x: byte)
    ensures (x as int / 16) * 16 + x as int % 16 == x as int
  {
  }

  /** Decoding what was encoded, followed by anything, gives the bytes
      followed by the decoding of what follows. */
  lemma {:induction false} HexDecodeEncodeAppend(b: seq<byte>, t: string)
    ensures HexDecode(HexEncode(b) + t) == b + HexDecode(t)
    decreases |b|
  {
    if b == [] {
      assert HexEncode(b) + t == t;
    } else {
      HexDecodeEncodeStep(b, t);
      HexDecodeEncodeAppend(b[1..], t);
      assert b == [b[0]] + b[1..];
    }
  }

  lemma HexDecodeEncodeStep(b: seq<byte>, t: string)
    requires b != []
    ensures HexDecode(HexEncode(b) + t) == [b[0]] + HexDecode(HexEncode(b[1..]) + t)
  {
    var hi, lo := b[0] as int / 16, b[0] as int % 16;
    assert HexEncode(b) + t == [HexDigit(hi), HexDigit(lo)] + (HexEncode(b[1..]) + t);
    HexDecodePair(hi, lo, HexEncode(b[1..]) + t);
    NibblesOfByte(b[0]);
  }

  /** Two digits in front decode to one byte in front. */
  lemma HexDecodePair(hi: nat, lo: nat, rest: string)
    requires hi < 16 && lo < 16
    ensures HexDecode([HexDigit(hi), HexDigit(lo)] + rest) == [(hi * 16 + lo) as byte] + HexDecode(rest)
  {
    var s := [HexDigit(hi), HexDigit(lo)] + rest;
    assert s[2..] == rest;
  }

  /** Decoding inverts encoding. */
  lemma HexDecodeEncode(b: seq<byte>)
    ensures HexDecode(HexEncode(b)) == b
  {
    HexDecodeEncodeAppend(b, "");
    assert HexEncode(b) + "" == HexEncode(b);
  }

  /** Upper-case digits decode to the same bytes. */
  lemma {:induction false} HexDecodeUpperEncode(b: seq<byte>)
    ensures HexDecode(Upper(HexEncode(b))) == b
    decreases |b|
  {
    if b != [] {
      var e := HexEncode(b);
      var u := Upper(e);
      assert u[2..] == Upper(HexEncode(b[1..]));
      NibblesOfByte(b[0]);
      HexDecodeUpperEncode(b[1..]);
      assert b == [b[0]] + b[1..];
    }
  }

  lemma HexDecodeStops(s: string)
    requires |s| >= 1 && !IsHexDigit(s[0])
    ensures HexDecode(s) == []
  {
  }
}
