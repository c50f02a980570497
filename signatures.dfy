/**
 * The type identifiers and the three-entry signature table of filetype.go,
 * with the starts-with lookup that `getFileType` performs over it.
 */
module Signatures {
  import opened Hex

  /** A type identifier is a plain string such as ".zip". */
  type FileTypeId = string

  const FileTypeJson: FileTypeId := ".json"
  const FileTypeZip: FileTypeId := ".zip"
  const FileTypeTar: FileTypeId := ".tar"
  const FileTypeGz: FileTypeId := ".gz"
  /** The same string as FileTypeGz: the two names are interchangeable. */
  const FileTypeGzip: FileTypeId := ".gz"
  const FileTypeTgz: FileTypeId := ".tgz"
  const FileTypeTarGz: FileTypeId := ".tar.gz"

  /** Leading bytes of a ZIP local file header (PKWARE APPNOTE section 4.3.7). */
  const ZipMagic: Bytes := [0x50, 0x4b, 0x03, 0x04]
  /** ID1 and ID2 of a gzip member (section 2.3.1 of RFC 1952). */
  const GzipMagic: Bytes := [0x1f, 0x8b]
  /** "ustar", the magic field of a POSIX.1 ustar header. */
  const UstarMagic: Bytes := [0x75, 0x73, 0x74, 0x61, 0x72]

  /** A signature: a hex prefix and the identifier it stands for. */
  datatype Entry = Entry(key: string, fileType: FileTypeId)

  /** The table stored by `init`. */
  const Table: seq<Entry> := [
    Entry("504b0304", FileTypeZip),
    Entry("1f8b", FileTypeGz),
    Entry("7573746172", FileTypeTar)
  ]

  predicate HasPrefix(s: string, prefix: string) {
    prefix <= s
  }

  /** The identifier of the first entry whose key starts `fileCode`, or "". */
  function FirstMatch(entries: seq<Entry>, fileCode: string): FileTypeId {
    if entries == [] then ""
    else if HasPrefix(fileCode, entries[0].key) then entries[0].fileType
    else FirstMatch(entries[1..], fileCode)
  }

  /** Lookup of a probe in the table. */
  function Lookup(fileCode: string): FileTypeId {
    FirstMatch(Table, fileCode)
  }

  /** A visiting order of the table, as an unordered map range may choose it. */
  predicate IsRangeOrder(order: seq<Entry>) {
    multiset(order) == multiset(Table)
  }

  /** Each key is the hex text of the magic bytes it names. */
  lemma KeysAreMagicHex()
    ensures Table[0].key == Encode(ZipMagic)
    ensures Table[1].key == Encode(GzipMagic)
    ensures Table[2].key == Encode(UstarMagic)
  {
    ZipKeyIsHex();
    GzipKeyIsHex();
    UstarKeyIsHex();
  }

  lemma ZipKeyIsHex()
    ensures Encode(ZipMagic) == "504b0304"
  {
    var z0: Bytes, z1: Bytes, z2: Bytes := [0x50], [0x50, 0x4b], [0x50, 0x4b, 0x03];
    assert ByteHex(0x50) == "50" && ByteHex(0x4b) == "4b";
    assert ByteHex(0x03) == "03" && ByteHex(0x04) == "04";
    EncodeSnoc([], 0x50);
    EncodeSnoc(z0, 0x4b);
    EncodeSnoc(z1, 0x03);
    EncodeSnoc(z2, 0x04);
    assert z2 + [0x04] == ZipMagic;
  }

  lemma GzipKeyIsHex()
    ensures Encode(GzipMagic) == "1f8b"
  {
    var g0: Bytes := [0x1f];
    assert ByteHex(0x1f) == "1f" && ByteHex(0x8b) == "8b";
    EncodeSnoc([], 0x1f);
    EncodeSnoc(g0, 0x8b);
    assert g0 + [0x8b] == GzipMagic;
  }

  lemma UstarKeyIsHex()
    ensures Encode(UstarMagic) == "7573746172"
  {
    var u0: Bytes, u1: Bytes, u2: Bytes, u3: Bytes :=
      [0x75], [0x75, 0x73], [0x75, 0x73, 0x74], [0x75, 0x73, 0x74, 0x61];
    assert ByteHex(0x75) == "75" && ByteHex(0x73) == "73" && ByteHex(0x74) == "74";
    assert ByteHex(0x61) == "61" && ByteHex(0x72) == "72";
    EncodeSnoc([], 0x75);
    assert Encode(u0) == "75";
    EncodeSnoc(u0, 0x73);
    assert u0 + [0x73] == u1;
    assert Encode(u1) == "7573";
    EncodeSnoc(u1, 0x74);
    assert u1 + [0x74] == u2;
    assert Encode(u2) == "757374";
    EncodeSnoc(u2, 0x61);
    assert u2 + [0x61] == u3;
    assert Encode(u3) == "75737461";
    EncodeSnoc(u3, 0x72);
    assert u3 + [0x72] == UstarMagic;
  }

  /** Two prefixes of one string are comparable: one starts the other. */
  lemma PrefixesComparable(s: string, a: string, b: string)
    requires HasPrefix(s, a) && HasPrefix(s, b)
    ensures HasPrefix(a, b) || HasPrefix(b, a)
  {
    if |a| <= |b| {
      assert a == s[..|a|] == b[..|a|];
    } else {
      assert b == s[..|b|] == a[..|b|];
    }
  }

  /** No key is a prefix of a different key. */
  lemma KeysPairwiseNonPrefix()
    ensures forall i, j :: 0 <= i < |Table| && 0 <= j < |Table| && i != j ==>
      !HasPrefix(Table[i].key, Table[j].key)
  {
    var k0, k1, k2 := Table[0].key, Table[1].key, Table[2].key;
    assert k0[0] == '5' && k1[0] == '1' && k2[0] == '7';
    assert !HasPrefix(k0, k1) && !HasPrefix(k1, k0);
    assert !HasPrefix(k0, k2) && !HasPrefix(k2, k0);
    assert !HasPrefix(k1, k2) && !HasPrefix(k2, k1);
  }

  /** At most one entry of the table matches any probe. */
  lemma AtMostOneMatch(fileCode: string, e1: Entry, e2: Entry)
    requires e1 in Table && e2 in Table
    requires HasPrefix(fileCode, e1.key) && HasPrefix(fileCode, e2.key)
    ensures e1 == e2
  {
    PrefixesComparable(fileCode, e1.key, e2.key);
    KeysPairwiseNonPrefix();
  }

  /**
   * Lookup gives the identifier of a key that starts the probe, and "" exactly
   * when no key does.
   */
  lemma LookupSpec(fileCode: string)
    ensures Lookup(fileCode) == "" <==> forall e :: e in Table ==> !HasPrefix(fileCode, e.key)
    ensures forall e :: e in Table && HasPrefix(fileCode, e.key) ==> Lookup(fileCode) == e.fileType
    ensures Lookup(fileCode) in {FileTypeZip, FileTypeGz, FileTypeTar, ""}
  {
    var m0, m1, m2 := HasPrefix(fileCode, Table[0].key), HasPrefix(fileCode, Table[1].key),
      HasPrefix(fileCode, Table[2].key);
    assert FirstMatch(Table[1..][1..][1..], fileCode) == "";
    assert FirstMatch(Table[1..][1..], fileCode) == if m2 then FileTypeTar else "";
    assert FirstMatch(Table[1..], fileCode) ==
      if m1 then FileTypeGz else if m2 then FileTypeTar else "";
    assert Lookup(fileCode) ==
      if m0 then FileTypeZip else if m1 then FileTypeGz else if m2 then FileTypeTar else "";
    assert forall e :: e in Table ==> e == Table[0] || e == Table[1] || e == Table[2];
    forall e | e in Table && HasPrefix(fileCode, e.key)
      ensures Lookup(fileCode) == e.fileType
    {
      if m0 {
        AtMostOneMatch(fileCode, e, Table[0]);
      } else if m1 {
        AtMostOneMatch(fileCode, e, Table[1]);
      }
    }
  }

  /** The empty probe matches nothing. */
  lemma EmptyProbeUnknown()
    ensures Lookup("") == ""
  {
    LookupSpec("");
  }

  /**
   * Scanning any sub-collection of the table finds the table's answer if some
   * entry of it matches, and "" otherwise.
   */
  lemma {:induction false} FirstMatchOfSubset(entries: seq<Entry>, fileCode: string)
    requires forall e :: e in entries ==> e in Table
    ensures FirstMatch(entries, fileCode) ==
      if exists e :: e in entries && HasPrefix(fileCode, e.key) then Lookup(fileCode) else ""
  {
    LookupSpec(fileCode);
    if entries != [] {
      FirstMatchOfSubset(entries[1..], fileCode);
      if !HasPrefix(fileCode, entries[0].key) {
        assert forall e :: e in entries && e != entries[0] ==> e in entries[1..];
      }
    }
  }

  /** The result of the lookup does not depend on the order the table is visited in. */
  lemma LookupOrderIndependent(order: seq<Entry>, fileCode: string)
    requires IsRangeOrder(order)
    ensures FirstMatch(order, fileCode) == Lookup(fileCode)
  {
    assert forall e :: e in order <==> e in Table by {
      forall e ensures e in order <==> e in Table {
        assert e in order <==> e in multiset(order);
        assert e in Table <==> e in multiset(Table);
      }
    }
    FirstMatchOfSubset(order, fileCode);
    LookupSpec(fileCode);
  }

  /**
   * A probe holding the hex text of some bytes is looked up by the bytes'
   * leading magic numbers.
   */
  lemma LookupOfEncoded(h: Bytes)
    ensures Lookup(Encode(h)) ==
      if ZipMagic <= h then FileTypeZip
      else if GzipMagic <= h then FileTypeGz
      else if UstarMagic <= h then FileTypeTar
      else ""
  {
    KeysAreMagicHex();
    EncodePrefix(h, ZipMagic);
    EncodePrefix(h, GzipMagic);
    EncodePrefix(h, UstarMagic);
    LookupSpec(Encode(h));
    assert Table[0] in Table && Table[1] in Table && Table[2] in Table;
    assert forall e :: e in Table ==> e == Table[0] || e == Table[1] || e == Table[2];
  }

  /**
   * The `getFileType` range loop: visit the entries in the given order and stop
   * at the first key that starts the probe.
   */
  method LookupInOrder(fileCode: string, order: seq<Entry>) returns (fileType: FileTypeId)
    requires IsRangeOrder(order)
    ensures fileType == Lookup(fileCode)
    ensures fileType == "" <==> forall e :: e in Table ==> !HasPrefix(fileCode, e.key)
  {
    LookupSpec(fileCode);
    fileType := "";
    var i := 0;
    while i < |order|
      invariant 0 <= i <= |order|
      invariant forall j :: 0 <= j < i ==> !HasPrefix(fileCode, order[j].key)
    {
      var k, v := order[i].key, order[i].fileType;
      if HasPrefix(fileCode, k) {
        assert order[i] in multiset(Table);
        fileType := v;
        return;
      }
      i := i + 1;
    }
    forall e | e in Table ensures !HasPrefix(fileCode, e.key) {
      assert e in multiset(order);
      var j :| 0 <= j < |order| && order[j] == e;
    }
  }
}
