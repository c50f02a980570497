# filetype: magic-number classifier, modelled in Dafny

This project models the classifier of the Go package `filetype`. The package
decides a file's type from its leading bytes. It recognises ".zip", ".gz" and
".tar" by signature. It upgrades a gzip file to ".tgz" when a trial
gzip-then-tar decode succeeds. When no signature matches, it answers ".json"
if `json.Unmarshal` of the whole file into a map succeeds (a JSON object, or
the literal `null`). `CheckFileType` compares the
detected type with a requested one and lets ".tgz" satisfy ".tar.gz" and ".gz".

Modules (`Signatures`, `Header` and `Classifier` follow the components of
`filetype.go`; `Hex` stands for Go's `encoding/hex`, and `Wrappers` holds
helper types):

- `Hex` (hex.dfy): bytes and their lowercase two-digits-per-byte hex text, as
  `hex.EncodeToString` writes them, with a decoder used to state that a probe
  holds exactly the bytes it was built from.
- `Signatures` (signatures.dfy): the type identifiers, the three-entry
  signature table of `init`, the starts-with lookup of `getFileType` (the
  function `Lookup`), and the range loop over the table in an arbitrary
  visiting order (`LookupInOrder`).
- `Header` (header.dfy): `byteToHexString`, the 8-byte probe and the tar
  probe at offset 257, as a method over the 1536-byte buffer array plus the
  count read, proved against the function `HeaderProbe`.
- `Classifier` (classifier.dfy): `GetFileType` and `CheckFileType` as methods,
  proved against the functions `ClassifyFile` and `Accepts`; `Classify` is the
  decision of `GetFileType` from the read buffer, the count read and the whole
  file, which `ClassifyFile` applies after the open and the read. A byte-level
  reference classification, `ReferenceType`, states the whole decision
  without hex text. `TypeByText` is `getFileTypeByText` with its `isJsonType`
  call, once the file has been read whole.
- `Wrappers` (wrappers.dfy): `Option` and `Result`.

Inputs that the Go code obtains by I/O or from library decoders are
parameters:

- The file is `Option<Bytes>`. `None` means the open failed.
- The gzip-then-tar trial decode is a predicate `tarInGzip: Bytes -> bool` on
  the whole file.
- The JSON test of `isJsonType` is a predicate `isJsonObject: Bytes -> bool`
  on the whole file: true when `json.Unmarshal` into a map succeeds, which
  holds for a JSON object and also for the literal `null`.
- The unspecified `Range` order of `sync.Map` is a parameter `order`, any
  permutation of the table.

In two places the code behaves in a way a reader might not expect, and the
model keeps the code's behaviour. In a third, the model departs from it:

- An empty file makes `Read` return `io.EOF`, and the code exits through
  `log.Fatalf`. So an empty file is a read error (`Err(ReadFailed)`), not an
  "unknown" result. Files of 1 to 3 bytes do get the empty probe and the
  JSON fallback.
- The tar key is also tested against the 8-byte general probe. So a file
  whose first five bytes are "ustar" is classified ".tar" (see
  `ReferenceType`).
- Departure: open and read failures are returned as `IoError` values. In the
  code they terminate the process.

## Model

| member | source | states |
|---|---|---|
| Hex.ByteHex | filetype.go:177 | one byte is exactly two lowercase hex digits whose values give back the byte, high nibble first |
| Hex.Encode | filetype.go:176-182 | the probe text has two digits per byte and only lowercase hex digits |
| Hex.DecodeEncode | filetype.go:176-182 | the hex text of a byte sequence decodes back to exactly that sequence |
| Hex.EncodePrefix | filetype.go:193 | a hex prefix test on encoded bytes holds exactly when the bytes start with the prefix's bytes |
| Signatures.KeysAreMagicHex | filetype.go:72-74 | the three keys are the hex text of the ZIP, gzip and "ustar" magic bytes |
| Signatures.KeysPairwiseNonPrefix | filetype.go:72-74 | no key of the table is a prefix of another |
| Signatures.AtMostOneMatch | filetype.go:145-153 | at most one table entry matches any probe |
| Signatures.LookupSpec | filetype.go:143-155 | the lookup returns the identifier of a key that starts the probe, "" exactly when no key does, and only ".zip", ".gz", ".tar" or "" |
| Signatures.EmptyProbeUnknown | filetype.go:143-155 | the empty probe matches no signature |
| Signatures.LookupOrderIndependent | filetype.go:145-153 | first-match over any permutation of the table gives the same result |
| Signatures.LookupOfEncoded | filetype.go:143-155 | the lookup of encoded bytes is decided by their leading ZIP, gzip or ustar magic, in that order, else "" |
| Signatures.LookupInOrder | filetype.go:145-154 | the early-exit range loop, in any visiting order, returns the lookup result, and "" exactly when no key matches |
| Header.TarField | filetype.go:186 | the tar field is the 6 bytes at offsets 257 to 262 |
| Header.TarHexTest | filetype.go:193 | the hex test of the tar field against "7573746172" is the byte test for "ustar" |
| Header.ShortReadEmptyProbe | filetype.go:173-174 | fewer than 4 bytes read give the empty probe, which looks up as "" |
| Header.GeneralProbe | filetype.go:176-182 | without the tar override the probe is 16 lowercase digits decoding to the buffer's first 8 bytes |
| Header.TarProbe | filetype.go:184-196 | with 1536 bytes read and "ustar" at 257, the probe is the 12-digit tar field text, whatever the first 8 bytes, and looks up as ".tar" |
| Header.TarOverrideIff | filetype.go:184-196 | for 4 or more bytes read, the probe has 12 digits exactly when the tar override applies |
| Header.LookupOfProbe | filetype.go:143-199 | what the lookup of the probe returns, by read count, tar field and leading magic bytes |
| Header.ByteToHexString | filetype.go:171-199 | the two append loops and the override build exactly the header probe of the buffer and count |
| Classifier.ReadCount | filetype.go:90-96 | one read fills the buffer as far as the file allows: the whole file or 1536 bytes |
| Classifier.HeadBuffer | filetype.go:90-100 | the buffer after the read holds the file's head, then zeros |
| Classifier.HeadBufferPrefix | filetype.go:100 | the first 8 bytes seen by the probe are the file's first 8 bytes, zero-padded |
| Classifier.ClassifyRange | filetype.go:89-119 | the result is one of ".zip", ".gz", ".tar", ".tgz", ".json", "" and never ".tar.gz" |
| Classifier.TgzIff | filetype.go:102-111 | the result is ".tgz" exactly when the lookup gave ".gz" and the trial decode succeeded |
| Classifier.GzIff | filetype.go:102-111 | the result is ".gz" exactly when the lookup gave ".gz" and the trial decode failed |
| Classifier.JsonIff | filetype.go:115-141 | the result is ".json" exactly when no signature matched and `json.Unmarshal` of the whole file into a map succeeds (`TypeByText`) |
| Classifier.BinaryMatchSkipsText | filetype.go:115-117 | after a signature match the JSON parser's verdict does not affect the result |
| Classifier.ZipAndTarUnchanged | filetype.go:100-117 | a ".zip" or ".tar" lookup is the final result |
| Classifier.ShortReadIsTextOnly | filetype.go:100-117 | a read of under 4 bytes is classified by the JSON fallback alone |
| Classifier.ClassifyFileMatchesReference | filetype.go:89-119 | for a non-empty file, the classification equals the byte-level reference decision |
| Classifier.ScenarioZipAndTar | filetype.go:89-119 | a file starting with the ZIP magic is ".zip" unless the tar field says "ustar", and a tar field "ustar" in a 1536-byte head gives ".tar" |
| Classifier.ScenarioJson | filetype.go:115-141 | a non-empty file that is under 4 bytes or carries no signature is ".json" when it unmarshals into a map, and "" otherwise |
| Classifier.ScenarioGzip | filetype.go:102-111 | a gzip file is ".tgz" if the trial decode succeeds and ".gz" if it fails |
| Classifier.AcceptsOnlyWidensTgz | filetype.go:157-169 | a type satisfies itself, and only ".tgz" satisfies another request, namely ".tar.gz" or ".gz" |
| Classifier.GzDoesNotSatisfyTgz | filetype.go:159-167 | a ".gz" result satisfies neither ".tgz" nor ".tar.gz" |
| Classifier.CheckGzAndTarGz | filetype.go:157-169 | on classifier results, a ".gz" request holds for ".gz" and ".tgz" and a ".tar.gz" request only for ".tgz" |
| Classifier.Read | filetype.go:96 | the read copies as much of the file as fits and leaves the rest of the buffer unchanged |
| Classifier.HeaderFileType | filetype.go:143-155 | probe building plus the range loop gives the lookup of the header probe |
| Classifier.GetFileType | filetype.go:89-119 | the step-by-step classification returns `ClassifyFile`: the open or read error, or one of the six result values |
| Classifier.CheckFileType | filetype.go:157-169 | the check returns the classification error, or whether the detected type satisfies the request |

## Left out

- File I/O: `os.Open`, `Seek`, `Close` and `ioutil.ReadAll` are not modelled. The file is a byte sequence, or `None` when opening fails.
- Process exit: the `log.Fatalf` paths are replaced by `Err(OpenFailed)` and `Err(ReadFailed)`.
- Classifier.Read: models a regular file, which fills the buffer as far as the file allows. Shorter reads from special files are not modelled.
- Classifier.ClassifyFile: the second open and `ReadAll` in `getFileTypeByText` are assumed to see the same contents and not to fail. A file that changes between the two opens is not modelled.
- gzip decompression and tar header parsing are foreign library code. The trial decode is the parameter `tarInGzip`.
- JSON parsing (`isJsonType`) is foreign library code. It is the parameter `isJsonObject`.
- `sync.Map` concurrency is not modelled. Its unspecified `Range` order is the parameter `order`.
- The `len(hv) < 2` zero-padding branches are not modelled, because a one-byte hex encoding always has two digits. The second of these branches writes to the wrong buffer, which is harmless for the same reason.
- The mask `v & 0xFF` is the identity on bytes and is not written out.
- The media, executable and text constants other than ".json" are not modelled, because no rule uses them. `TAR_OFFSET_SIZE` is not modelled either: the code uses 6 literally.
- The `IFileType` interface and `NewFileType` are not modelled, because they carry no logic.
- example/main.go is not part of this model. Its expected results are covered by `Classifier.ScenarioZipAndTar`, `Classifier.ScenarioGzip`, `Classifier.ScenarioJson`, `Classifier.JsonIff`, `Classifier.AcceptsOnlyWidensTgz` and `Classifier.CheckGzAndTarGz`.
- Idempotence of classification needs no lemma: `ClassifyFile` is a function of the file's contents.
