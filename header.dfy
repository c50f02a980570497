/**
 * The header probe of `byteToHexString`: the hex text of the first 8 bytes of
 * the read buffer, replaced by the hex text of the tar magic field when a full
 * 1536-byte read shows "ustar" at offset 257.
 */
module Header {
  import opened Wrappers
  import opened Hex
  import opened Signatures

  /** Size of the read buffer: the smallest possible tar archive. */
  const TarMinSize: nat := 1536
  /** Offset of the magic field in a ustar header. */
  const TarOffsetPosition: nat := 257
  /** The hex text the tar probe is tested against. */
  const TarMagicHex: string := "7573746172"

  /**
   * The probe for the buffer `buf` of which the first `n` bytes were read.
   * The source slices `buf[:n][:8]`, which reaches into the buffer's zeroed
   * capacity when n < 8, so the general probe always covers 8 bytes of `buf`.
   */
  function HeaderProbe(buf: Bytes, n: nat): string
    requires |buf| == TarMinSize && n <= |buf|
  {
    if n < 4 then ""
    else if n >= TarMinSize && HasPrefix(Encode(TarField(buf)), TarMagicHex) then Encode(TarField(buf))
    else Encode(buf[..8])
  }

  /** The 6 bytes at the tar magic offset. */
  function TarField(buf: Bytes): (f: Bytes)
    requires |buf| == TarMinSize
    ensures |f| == 6 && forall i :: 0 <= i < 6 ==> f[i] == buf[TarOffsetPosition + i]
  {
    buf[TarOffsetPosition..TarOffsetPosition + 6]
  }

  /** A full read carries the tar magic field. */
  predicate HasTarMagic(buf: Bytes, n: nat)
    requires |buf| == TarMinSize
  {
    n >= TarMinSize && UstarMagic <= TarField(buf)
  }

  /** The hex test on the tar field is the byte test for "ustar". */
  lemma TarHexTest(buf: Bytes)
    requires |buf| == TarMinSize
    ensures HasPrefix(Encode(TarField(buf)), TarMagicHex) <==> UstarMagic <= TarField(buf)
  {
    UstarKeyIsHex();
    EncodePrefix(TarField(buf), UstarMagic);
  }

  /** A read of fewer than 4 bytes gives the empty probe, which no signature matches. */
  lemma ShortReadEmptyProbe(buf: Bytes, n: nat)
    requires |buf| == TarMinSize && n < 4
    ensures HeaderProbe(buf, n) == ""
    ensures Lookup(HeaderProbe(buf, n)) == ""
  {
    EmptyProbeUnknown();
  }

  /**
   * Without the tar override the probe is 16 lowercase hex digits that decode
   * to exactly the first 8 bytes of the buffer.
   */
  lemma GeneralProbe(buf: Bytes, n: nat)
    requires |buf| == TarMinSize && 4 <= n <= |buf| && !HasTarMagic(buf, n)
    ensures HeaderProbe(buf, n) == Encode(buf[..8])
    ensures |HeaderProbe(buf, n)| == 16
    ensures forall i :: 0 <= i < 16 ==> IsLowerHexDigit(HeaderProbe(buf, n)[i])
    ensures Decode(HeaderProbe(buf, n)) == Some(buf[..8])
  {
    TarHexTest(buf);
    DecodeEncode(buf[..8]);
  }

  /**
   * With the tar override the probe is the 12-digit text of the tar field,
   * whatever the first 8 bytes are, and it is looked up as ".tar".
   */
  lemma TarProbe(buf: Bytes, n: nat)
    requires |buf| == TarMinSize && n <= |buf| && HasTarMagic(buf, n)
    ensures HeaderProbe(buf, n) == Encode(TarField(buf))
    ensures |HeaderProbe(buf, n)| == 12
    ensures Decode(HeaderProbe(buf, n)) == Some(TarField(buf))
    ensures Lookup(HeaderProbe(buf, n)) == FileTypeTar
  {
    var f := TarField(buf);
    TarHexTest(buf);
    DecodeEncode(f);
    LookupOfEncoded(f);
    assert f[0] == 0x75;
    assert !(ZipMagic <= f) && !(GzipMagic <= f);
  }

  /** For a read of at least 4 bytes, the probe has 12 digits exactly when the tar override applies. */
  lemma TarOverrideIff(buf: Bytes, n: nat)
    requires |buf| == TarMinSize && 4 <= n <= |buf|
    ensures |HeaderProbe(buf, n)| == 12 <==> HasTarMagic(buf, n)
  {
    if HasTarMagic(buf, n) {
      TarProbe(buf, n);
    } else {
      GeneralProbe(buf, n);
    }
  }

  /** The probe is looked up by the magic numbers of the bytes it encodes. */
  lemma LookupOfProbe(buf: Bytes, n: nat)
    requires |buf| == TarMinSize && n <= |buf|
    ensures Lookup(HeaderProbe(buf, n)) ==
      if n < 4 then ""
      else if HasTarMagic(buf, n) then FileTypeTar
      else if ZipMagic <= buf[..8] then FileTypeZip
      else if GzipMagic <= buf[..8] then FileTypeGz
      else if UstarMagic <= buf[..8] then FileTypeTar
      else ""
  {
    if n < 4 {
      ShortReadEmptyProbe(buf, n);
    } else if HasTarMagic(buf, n) {
      TarProbe(buf, n);
    } else {
      GeneralProbe(buf, n);
      LookupOfEncoded(buf[..8]);
    }
  }

  /**
   * `byteToHexString(buf[:n])`: append the digits of the first 8 bytes, then,
   * for a full buffer, build the tar probe and let it replace the first one
   * when it starts with the ustar text.
   */
  method ByteToHexString(buf: array<byte>, n: nat) returns (res: string)
    requires buf.Length == TarMinSize && n <= buf.Length
    ensures res == HeaderProbe(buf[..], n)
  {
    res := "";
    if n < 4 {
      return;
    }
    var i := 0;
    while i < 8
      invariant 0 <= i <= 8
      invariant res == Encode(buf[..i])
    {
      assert buf[..i + 1][..i] == buf[..i];
      res := res + ByteHex(buf[i]);
      i := i + 1;
    }
    if n >= TarMinSize {
      var tarRes := "";
      var j := TarOffsetPosition;
      while j < TarOffsetPosition + 6
        invariant TarOffsetPosition <= j <= TarOffsetPosition + 6
        invariant tarRes == Encode(buf[TarOffsetPosition..j])
      {
        assert buf[TarOffsetPosition..j + 1][..j - TarOffsetPosition] == buf[TarOffsetPosition..j];
        tarRes := tarRes + ByteHex(buf[j]);
        j := j + 1;
      }
      assert buf[TarOffsetPosition..j] == TarField(buf[..]);
      if HasPrefix(tarRes, TarMagicHex) {
        res := tarRes;
      }
    }
  }
}
