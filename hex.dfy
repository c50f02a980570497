/**
 * Bytes and their lowercase hexadecimal text, as Go's encoding/hex
 * writes them: every byte becomes exactly two digits, high nibble first.
 */
module Hex {
  import opened Wrappers

  newtype byte = x: int | 0 <= x < 256

  type Bytes = seq<byte>

  predicate IsLowerHexDigit(c: char) {
    '0' <= c <= '9' || 'a' <= c <= 'f'
  }

  /** The digit for a nibble value. */
  function HexDigit(d: int): (c: char)
    requires 0 <= d < 16
    ensures IsLowerHexDigit(c)
  {
    if d < 10 then ('0' as int + d) as char else ('a' as int + (d - 10)) as char
  }

  /** The value of a lowercase hex digit; `None` for any other character. */
  function DigitValue(c: char): (v: Option<int>)
    ensures v.Some? <==> IsLowerHexDigit(c)
    ensures v.Some? ==> 0 <= v.value < 16 && HexDigit(v.value) == c
  {
    if '0' <= c <= '9' then Some(c as int - '0' as int)
    else if 'a' <= c <= 'f' then Some(c as int - 'a' as int + 10)
    else None
  }

  /** One byte as two lowercase hex digits, the high nibble first. */
  function ByteHex(b: byte): (h: string)
    ensures |h| == 2
    ensures DigitValue(h[0]).Some? && DigitValue(h[1]).Some?
    ensures DigitValue(h[0]).value * 16 + DigitValue(h[1]).value == b as int
  {
    [HexDigit(b as int / 16), HexDigit(b as int % 16)]
  }

  /** The hex text of a byte sequence, built by appending one byte at a time. */
  function Encode(bs: Bytes): (h: string)
    ensures |h| == 2 * |bs|
    ensures forall i :: 0 <= i < |h| ==> IsLowerHexDigit(h[i])
  {
    if bs == [] then "" else Encode(bs[..|bs| - 1]) + ByteHex(bs[|bs| - 1])
  }

  /** Reads hex text back into bytes; `None` for odd length or a non-digit. */
  function Decode(h: string): (r: Option<Bytes>)
    ensures r.Some? ==> 2 * |r.value| == |h|
  {
    if |h| == 0 then Some([])
    else if |h| == 1 then None
    else
      match (Decode(h[..|h| - 2]), DigitValue(h[|h| - 2]), DigitValue(h[|h| - 1]))
      case (Some(init), Some(hi), Some(lo)) => Some(init + [(hi * 16 + lo) as byte])
      case _ => None
  }

  /** Decoding the text of a byte sequence gives that sequence back. */
  lemma {:induction false} DecodeEncode(bs: Bytes)
    ensures Decode(Encode(bs)) == Some(bs)
  {
    if bs != [] {
      var init, last := bs[..|bs| - 1], bs[|bs| - 1];
      DecodeEncode(init);
      var h := Encode(bs);
      assert h[..|h| - 2] == Encode(init);
      assert h[|h| - 2..] == ByteHex(last);
      assert init + [last] == bs;
    }
  }

  /** Two byte sequences with the same text are equal. */
  lemma EncodeInjective(a: Bytes, b: Bytes)
    requires Encode(a) == Encode(b)
    ensures a == b
  {
    DecodeEncode(a);
    DecodeEncode(b);
  }

  /** Encoding distributes over concatenation. */
  lemma {:induction false} EncodeAppend(a: Bytes, b: Bytes)
    ensures Encode(a + b) == Encode(a) + Encode(b)
  {
    if b == [] {
      assert a + b == a;
    } else {
      var init := b[..|b| - 1];
      EncodeAppend(a, init);
      assert (a + b)[..|a + b| - 1] == a + init;
    }
  }

  /** Appending one byte appends its two digits. */
  lemma EncodeSnoc(s: Bytes, b: byte)
    ensures Encode(s + [b]) == Encode(s) + ByteHex(b)
  {
    EncodeAppend(s, [b]);
    assert [b][..0] == [];
  }

  /** The text of `m` starts the text of `s` exactly when `m` starts `s`. */
  lemma EncodePrefix(s: Bytes, m: Bytes)
    ensures Encode(m) <= Encode(s) <==> m <= s
  {
    if m <= s {
      assert s == m + s[|m|..];
      EncodeAppend(m, s[|m|..]);
    }
    if Encode(m) <= Encode(s) {
      var k := |m|;
      assert s == s[..k] + s[k..];
      EncodeAppend(s[..k], s[k..]);
      assert Encode(s)[..2 * k] == Encode(s[..k]);
      EncodeInjective(s[..k], m);
    }
  }
}
