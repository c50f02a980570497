/**
 * `GetFileType` and `CheckFileType`: read the head of a file, look its probe
 * up, confirm a gzip hit by a trial gzip-then-tar decode, and fall back to a
 * JSON-object parse when no signature matched.
 *
 * The two library decoders are parameters: `tarInGzip(c)` is true when the
 * gzip reader opens on `c` and the tar reader returns a first header, and
 * `isJsonObject(c)` is true when `json.Unmarshal` of `c` into a map succeeds:
 * `c` is a JSON object, or the literal `null`.
 */
module Classifier {
  import opened Wrappers
  import opened Hex
  import opened Signatures
  import opened Header

  /** What the source reports with log.Fatalf; here it is returned. */
  datatype IoError = OpenFailed | ReadFailed

  /** The identifiers `GetFileType` can produce. */
  const Classifications: set<FileTypeId> :=
    {FileTypeZip, FileTypeGz, FileTypeTar, FileTypeTgz, FileTypeJson, ""}

  function Zeros(k: nat): (z: Bytes)
    ensures |z| == k && forall i :: 0 <= i < k ==> z[i] == 0
  {
    seq(k, _ => 0)
  }

  /** The byte count of one `Read` of a regular file into the 1536-byte buffer. */
  function ReadCount(contents: Bytes): (n: nat)
    ensures n <= TarMinSize && n <= |contents|
    ensures n == |contents| || n == TarMinSize
  {
    if |contents| < TarMinSize then |contents| else TarMinSize
  }

  /** The zeroed buffer after that read: the file's head, then zeros. */
  function HeadBuffer(contents: Bytes): (buf: Bytes)
    ensures |buf| == TarMinSize
    ensures buf[..ReadCount(contents)] == contents[..ReadCount(contents)]
    ensures forall i :: ReadCount(contents) <= i < TarMinSize ==> buf[i] == 0
  {
    var n := ReadCount(contents);
    contents[..n] + Zeros(TarMinSize - n)
  }

  /** `getFileTypeByText` once the file is read whole. */
  function TypeByText(contents: Bytes, isJsonObject: Bytes -> bool): FileTypeId {
    if isJsonObject(contents) then FileTypeJson else ""
  }

  /** The decision of `GetFileType` from the read buffer, the count read and the whole file. */
  function Classify(buf: Bytes, n: nat, contents: Bytes,
                    tarInGzip: Bytes -> bool, isJsonObject: Bytes -> bool): FileTypeId
    requires |buf| == TarMinSize && n <= TarMinSize
  {
    var found := Lookup(HeaderProbe(buf, n));
    var confirmed := if found == FileTypeGz && tarInGzip(contents) then FileTypeTgz else found;
    if confirmed == "" then TypeByText(contents, isJsonObject) else confirmed
  }

  /** `GetFileType` on a file that may fail to open (`None`), with a typed error instead of exiting. */
  function ClassifyFile(file: Option<Bytes>, tarInGzip: Bytes -> bool,
                        isJsonObject: Bytes -> bool): Result<FileTypeId, IoError>
  {
    if file.None? then Err(OpenFailed)
    else if |file.value| == 0 then Err(ReadFailed)
    else
      var contents := file.value;
      Ok(Classify(HeadBuffer(contents), ReadCount(contents), contents, tarInGzip, isJsonObject))
  }

  /** `CheckFileType`'s comparison of the detected type with the requested one. */
  function Accepts(fType: FileTypeId, requested: FileTypeId): bool {
    if fType == requested then true
    else if fType == FileTypeTgz then requested == FileTypeTarGz || requested == FileTypeGz
    else false
  }

  /**
   * The classification of a non-empty file stated on its bytes alone, with no
   * hex text: the tar field wins, then the leading magic numbers of the first
   * 8 bytes (zero-padded), then the JSON fallback.
   */
  function ReferenceType(contents: Bytes, tarInGzip: Bytes -> bool,
                         isJsonObject: Bytes -> bool): FileTypeId
  {
    var head := (contents + Zeros(8))[..8];
    var binary :=
      if |contents| < 4 then ""
      else if |contents| >= TarMinSize && UstarMagic <= contents[TarOffsetPosition..TarOffsetPosition + 6]
      then FileTypeTar
      else if ZipMagic <= head then FileTypeZip
      else if GzipMagic <= head then (if tarInGzip(contents) then FileTypeTgz else FileTypeGz)
      else if UstarMagic <= head then FileTypeTar
      else "";
    if binary == "" then TypeByText(contents, isJsonObject) else binary
  }

  // ---------------------------------------------------------------------
  // Properties of the decision

  /** The result is one of six identifiers, and never ".tar.gz". */
  lemma ClassifyRange(buf: Bytes, n: nat, contents: Bytes,
                      tarInGzip: Bytes -> bool, isJsonObject: Bytes -> bool)
    requires |buf| == TarMinSize && n <= TarMinSize
    ensures Classify(buf, n, contents, tarInGzip, isJsonObject) in Classifications
    ensures Classify(buf, n, contents, tarInGzip, isJsonObject) != FileTypeTarGz
  {
    LookupSpec(HeaderProbe(buf, n));
  }

  /** ".tgz" exactly when the lookup gave ".gz" and the trial decode succeeded. */
  lemma TgzIff(buf: Bytes, n: nat, contents: Bytes,
               tarInGzip: Bytes -> bool, isJsonObject: Bytes -> bool)
    requires |buf| == TarMinSize && n <= TarMinSize
    ensures Classify(buf, n, contents, tarInGzip, isJsonObject) == FileTypeTgz <==>
      Lookup(HeaderProbe(buf, n)) == FileTypeGz && tarInGzip(contents)
  {
    LookupSpec(HeaderProbe(buf, n));
  }

  /** A gzip hit whose trial decode fails stays ".gz"; the failure is not an error. */
  lemma GzIff(buf: Bytes, n: nat, contents: Bytes,
              tarInGzip: Bytes -> bool, isJsonObject: Bytes -> bool)
    requires |buf| == TarMinSize && n <= TarMinSize
    ensures Classify(buf, n, contents, tarInGzip, isJsonObject) == FileTypeGz <==>
      Lookup(HeaderProbe(buf, n)) == FileTypeGz && !tarInGzip(contents)
  {
  }

  /** ".json" exactly when no signature matched and the whole file unmarshals into a map. */
  lemma JsonIff(buf: Bytes, n: nat, contents: Bytes,
                tarInGzip: Bytes -> bool, isJsonObject: Bytes -> bool)
    requires |buf| == TarMinSize && n <= TarMinSize
    ensures Classify(buf, n, contents, tarInGzip, isJsonObject) == FileTypeJson <==>
      Lookup(HeaderProbe(buf, n)) == "" && isJsonObject(contents)
  {
    LookupSpec(HeaderProbe(buf, n));
  }

  /** A binary match skips the JSON fallback: the JSON parser's verdict does not matter. */
  lemma BinaryMatchSkipsText(buf: Bytes, n: nat, contents: Bytes, tarInGzip: Bytes -> bool,
                             isJson1: Bytes -> bool, isJson2: Bytes -> bool)
    requires |buf| == TarMinSize && n <= TarMinSize
    requires Lookup(HeaderProbe(buf, n)) != ""
    ensures Classify(buf, n, contents, tarInGzip, isJson1) ==
            Classify(buf, n, contents, tarInGzip, isJson2)
    ensures Classify(buf, n, contents, tarInGzip, isJson1) != FileTypeJson
  {
    LookupSpec(HeaderProbe(buf, n));
  }

  /** ".zip" and ".tar" lookups pass through unchanged. */
  lemma ZipAndTarUnchanged(buf: Bytes, n: nat, contents: Bytes,
                           tarInGzip: Bytes -> bool, isJsonObject: Bytes -> bool)
    requires |buf| == TarMinSize && n <= TarMinSize
    requires Lookup(HeaderProbe(buf, n)) in {FileTypeZip, FileTypeTar}
    ensures Classify(buf, n, contents, tarInGzip, isJsonObject) == Lookup(HeaderProbe(buf, n))
  {
  }

  /** A read of under 4 bytes is decided by the JSON fallback alone. */
  lemma ShortReadIsTextOnly(buf: Bytes, n: nat, contents: Bytes,
                            tarInGzip: Bytes -> bool, isJsonObject: Bytes -> bool)
    requires |buf| == TarMinSize && n < 4
    ensures Classify(buf, n, contents, tarInGzip, isJsonObject) == TypeByText(contents, isJsonObject)
  {
    ShortReadEmptyProbe(buf, n);
  }

  /** The first 8 bytes of the read buffer are the file's first 8, zero-padded. */
  lemma HeadBufferPrefix(contents: Bytes)
    ensures HeadBuffer(contents)[..8] == (contents + Zeros(8))[..8]
  {
    var buf, n, padded := HeadBuffer(contents), ReadCount(contents), contents + Zeros(8);
    forall i | 0 <= i < 8 ensures buf[i] == padded[i] {
      if i < n {
        assert buf[i] == buf[..n][i] == contents[i];
      }
    }
  }

  /** The classification of a readable file agrees with the byte-level reference. */
  lemma ClassifyFileMatchesReference(contents: Bytes, tarInGzip: Bytes -> bool,
                                     isJsonObject: Bytes -> bool)
    requires |contents| > 0
    ensures ClassifyFile(Some(contents), tarInGzip, isJsonObject) ==
            Ok(ReferenceType(contents, tarInGzip, isJsonObject))
  {
    var buf, n := HeadBuffer(contents), ReadCount(contents);
    LookupOfProbe(buf, n);
    HeadBufferPrefix(contents);
    if n >= TarMinSize {
      assert TarField(buf) == buf[..n][TarOffsetPosition..TarOffsetPosition + 6];
    }
  }

  /** The scenario results for zip and tar: both are decided by magic bytes. */
  lemma ScenarioZipAndTar(contents: Bytes, tarInGzip: Bytes -> bool, isJsonObject: Bytes -> bool)
    requires 4 <= |contents|
    ensures ZipMagic <= contents && !(|contents| >= TarMinSize &&
              UstarMagic <= contents[TarOffsetPosition..TarOffsetPosition + 6]) ==>
            ClassifyFile(Some(contents), tarInGzip, isJsonObject) == Ok(FileTypeZip)
    ensures |contents| >= TarMinSize && UstarMagic <= contents[TarOffsetPosition..TarOffsetPosition + 6] ==>
            ClassifyFile(Some(contents), tarInGzip, isJsonObject) == Ok(FileTypeTar)
  {
    ClassifyFileMatchesReference(contents, tarInGzip, isJsonObject);
    if ZipMagic <= contents {
      assert (contents + Zeros(8))[..8][..4] == contents[..4];
    }
  }

  /**
   * A non-empty file whose head carries no signature (or that is under 4 bytes
   * long) is ".json" when it unmarshals into a map, and "" otherwise.
   */
  lemma ScenarioJson(contents: Bytes, tarInGzip: Bytes -> bool, isJsonObject: Bytes -> bool)
    requires |contents| > 0
    requires var head := (contents + Zeros(8))[..8];
      |contents| < 4 ||
      (!(|contents| >= TarMinSize && UstarMagic <= contents[TarOffsetPosition..TarOffsetPosition + 6]) &&
       !(ZipMagic <= head) && !(GzipMagic <= head) && !(UstarMagic <= head))
    ensures ClassifyFile(Some(contents), tarInGzip, isJsonObject) ==
            Ok(if isJsonObject(contents) then FileTypeJson else "")
  {
    ClassifyFileMatchesReference(contents, tarInGzip, isJsonObject);
  }

  /** A gzip file is ".tgz" when its trial decode succeeds and ".gz" when it fails. */
  lemma ScenarioGzip(contents: Bytes, tarInGzip: Bytes -> bool, isJsonObject: Bytes -> bool)
    requires 4 <= |contents| && GzipMagic <= contents
    requires !(|contents| >= TarMinSize && UstarMagic <= contents[TarOffsetPosition..TarOffsetPosition + 6])
    ensures ClassifyFile(Some(contents), tarInGzip, isJsonObject) ==
            Ok(if tarInGzip(contents) then FileTypeTgz else FileTypeGz)
  {
    ClassifyFileMatchesReference(contents, tarInGzip, isJsonObject);
    var head := (contents + Zeros(8))[..8];
    assert head[..2] == contents[..2];
    assert head[0] == 0x1f;
    assert !(ZipMagic <= head);
  }

  // ---------------------------------------------------------------------
  // Properties of the type check

  /** Only ".tgz" satisfies a request for another identifier, and only ".tar.gz" or ".gz". */
  lemma AcceptsOnlyWidensTgz(fType: FileTypeId, requested: FileTypeId)
    ensures Accepts(fType, fType)
    ensures Accepts(fType, requested) && fType != requested ==>
      fType == FileTypeTgz && (requested == FileTypeTarGz || requested == FileTypeGz)
    ensures fType == FileTypeTgz ==> Accepts(fType, FileTypeTarGz) && Accepts(fType, FileTypeGzip)
  {
  }

  /** A plain ".gz" result satisfies neither ".tgz" nor ".tar.gz". */
  lemma GzDoesNotSatisfyTgz()
    ensures !Accepts(FileTypeGz, FileTypeTgz) && !Accepts(FileTypeGz, FileTypeTarGz)
  {
  }

  /**
   * On what `GetFileType` can return, a ".gz" request holds for ".gz" and ".tgz"
   * and a ".tar.gz" request holds for ".tgz" alone.
   */
  lemma CheckGzAndTarGz(buf: Bytes, n: nat, contents: Bytes,
                        tarInGzip: Bytes -> bool, isJsonObject: Bytes -> bool)
    requires |buf| == TarMinSize && n <= TarMinSize
    ensures var fType := Classify(buf, n, contents, tarInGzip, isJsonObject);
      (Accepts(fType, FileTypeGz) <==> fType == FileTypeGz || fType == FileTypeTgz) &&
      (Accepts(fType, FileTypeTarGz) <==> fType == FileTypeTgz)
  {
    ClassifyRange(buf, n, contents, tarInGzip, isJsonObject);
  }

  // ---------------------------------------------------------------------
  // The operations

  /**
   * `file.Read(buf)` on a regular file: copies as much of the file as fits
   * and leaves the rest of the buffer untouched.
   */
  method Read(buf: array<byte>, contents: Bytes) returns (n: nat)
    requires buf.Length == TarMinSize
    modifies buf
    ensures n == ReadCount(contents)
    ensures buf[..n] == contents[..n] && buf[n..] == old(buf[n..])
  {
    n := ReadCount(contents);
    var i := 0;
    while i < n
      invariant 0 <= i <= n
      invariant buf[..i] == contents[..i] && buf[i..] == old(buf[i..])
    {
      buf[i] := contents[i];
      assert buf[..i + 1] == buf[..i] + [contents[i]];
      assert contents[..i + 1] == contents[..i] + [contents[i]];
      i := i + 1;
    }
  }

  /** `getFileType(buf[:n])`: build the probe and scan the table in the map's range order. */
  method HeaderFileType(buf: array<byte>, n: nat, order: seq<Entry>) returns (fileType: FileTypeId)
    requires buf.Length == TarMinSize && n <= buf.Length && IsRangeOrder(order)
    ensures fileType == Lookup(HeaderProbe(buf[..], n))
  {
    var fileCode := ByteToHexString(buf, n);
    fileType := LookupInOrder(fileCode, order);
  }

  /**
   * `GetFileType`: open, read up to 1536 bytes into a zeroed buffer, look the
   * probe up, upgrade ".gz" to ".tgz" when the trial decode succeeds, and try
   * the JSON parse when nothing matched.
   */
  method GetFileType(file: Option<Bytes>, order: seq<Entry>,
                     tarInGzip: Bytes -> bool, isJsonObject: Bytes -> bool)
    returns (r: Result<FileTypeId, IoError>)
    requires IsRangeOrder(order)
    ensures r == ClassifyFile(file, tarInGzip, isJsonObject)
    ensures r.Ok? ==> r.value in Classifications
  {
    var buf := new byte[TarMinSize](_ => 0);
    if file.None? {
      return Err(OpenFailed);
    }
    var contents := file.value;
    var n := Read(buf, contents);
    if n == 0 {
      // Read reports io.EOF on an empty file.
      return Err(ReadFailed);
    }
    assert buf[..] == buf[..n] + buf[n..];
    assert buf[..] == HeadBuffer(contents);
    var fileType := HeaderFileType(buf, n, order);
    if fileType == FileTypeGz {
      if tarInGzip(contents) {
        fileType := FileTypeTgz;
      }
    }
    if fileType == "" {
      fileType := TypeByText(contents, isJsonObject);
    }
    ClassifyRange(buf[..], n, contents, tarInGzip, isJsonObject);
    return Ok(fileType);
  }

  /** `CheckFileType`: classify, then compare with the `.tgz` widening. */
  method CheckFileType(file: Option<Bytes>, order: seq<Entry>, tarInGzip: Bytes -> bool,
                       isJsonObject: Bytes -> bool, fileType: FileTypeId)
    returns (r: Result<bool, IoError>)
    requires IsRangeOrder(order)
    ensures match ClassifyFile(file, tarInGzip, isJsonObject)
      case Ok(fType) => r == Ok(Accepts(fType, fileType))
      case Err(e) => r == Err(e)
  {
    var fType := GetFileType(file, order, tarInGzip, isJsonObject);
    if fType.Err? {
      return Err(fType.error);
    }
    var matches := false;
    if fType.value == fileType {
      matches := true;
    } else if fType.value == FileTypeTgz {
      if fileType == FileTypeTarGz || fileType == FileTypeGz {
        matches := true;
      }
    }
    return Ok(matches);
  }
}
