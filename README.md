# QCX v3 archive engine, modelled in Dafny

This project models the archive engine of `qcx-core.js`. The engine packs a list of browser
`File`s into one encrypted `.qcx` archive (`createQcxFromFiles`) and opens such an archive again
(`openQcxFile`).

Building an archive goes like this:

- Each file is read into a record: its path, MIME type, bytes, size and CRC-32.
- A file is looked up under its base key (size and CRC-32), which holds the first earlier file
  with that size and CRC-32. The file shares that file's window when their bytes are equal.
  Otherwise it is stored again at the end of the blob. Records get an entry in
  `filesMeta` that points at a window `[offset, offset + length)` of one blob, `dataConcat`.
- The inner header (file count, total size, unique size, entries, creation time) is framed
  with the blob as `[u32 LE header length][header][blob]`.
- That inner frame is compressed, encrypted with a PBKDF2-derived AES-GCM key, and wrapped in
  an outer frame with the same layout. The outer header is clear text and holds the magic
  `QCX3`, the version, the KDF and cipher parameters and a summary.

Opening an archive undoes these layers. Each length check and decoding failure it can meet is
an error of its own.

Modules, one per concern of the source:

- `Base`: `Option`, `Result`, bytes, zero buffers.
- `Crc32`: the bit-at-a-time CRC-32 reference, the 256-entry table, the table-driven loop, and
  the lazily filled `crc32.table` as a class.
- `NumText`: `Number.prototype.toString(radix)`.
- `Hex`: `toHex`, and `fromHex` with the JavaScript `parseInt(s, 16)` semantics it relies on.
- `Buffers`: `Uint8Array.prototype.set` and little-endian `DataView` writes and reads, on arrays.
- `Framing`: the length-prefixed frame and its two bounds-checked readers.
- `OrderedMaps`: the insertion-ordered JavaScript `Map`.
- `Dedup`: the dedup loop and the assembly of `dataConcat`.
- `Archive`: file reading, `createQcxFromFiles` and `openQcxFile`.

JSON, UTF-8, zlib, PBKDF2 and AES-GCM are the function-typed fields of `Archive.Primitives`.
The round-trip lemmas assume only what `Archive.Sound` states about them:

- each decoder undoes its encoder;
- a header's JSON text is never empty;
- a ciphertext carries at least its 16-byte tag.

Automatic induction is switched off on every lemma (`{:induction false}`). Every inductive
argument is written out.

Two behaviours of `createQcxFromFiles` that a reader might not expect are modelled as the code
has them:

- Alternative keys are stored but never looked up. A file is compared only with the first
  earlier file with that size and CRC-32. When the bytes differ, the file is stored again under
  an alternative key, and a later copy of it is compared with that first file again.
  `Dedup.CollisionNotShared` proves that for `[a, b, b]`, with `a` and `b` colliding on size
  and CRC-32, `b` is stored twice. `Dedup.CollisionReusesFirst` proves that for `[a, b, a]` the
  third file shares the first file's window.
- `uniqueSize == totalSize` does not mean that no two files share content. It holds exactly
  when every file that shares a window is empty (`Dedup.UniqueEqualsTotalIff`).

## Model

| member | source | states |
|---|---|---|
| Crc32.Checksum | qcx-core.js:19-24 | the CRC-32 of a buffer, computed bit by bit from the reflected polynomial 0xEDB88320, is an unsigned 32-bit value |
| Crc32.TableStep | qcx-core.js:22 | one table-driven step `(crc >>> 8) ^ table[(crc ^ b) & 0xFF]` equals eight bit-at-a-time steps on that byte, and the index is below 256 |
| Crc32.BuildTable | qcx-core.js:11-18 | returns a fresh 256-entry table whose entry i is i after eight conditional shift-and-xor steps |
| Crc32.TableChecksum | qcx-core.js:19-24 | the table-driven loop over the buffer returns exactly the bit-at-a-time CRC-32 |
| Crc32.ChecksumEmpty | qcx-core.js:19-24 | the CRC-32 of the empty buffer is 0 (the initial and final inversions cancel) |
| Crc32.ChecksumCache.constructor | qcx-core.js:8-10 | a fresh `crc32` has no table yet |
| Crc32.ChecksumCache.Crc32 | qcx-core.js:8-25 | fills the table on first use, keeps an existing table, and returns the CRC-32 of the buffer |
| NumText.ToRadix | qcx-core.js:119 | `n.toString(radix)` is a non-empty string of digits below the radix with no leading zero |
| NumText.FromToRadix | qcx-core.js:119 | reading the digits of `n.toString(radix)` back gives `n` |
| NumText.ToRadixInjective | qcx-core.js:119 | distinct numbers have distinct radix texts |
| NumText.NoUnderscore | qcx-core.js:119 | a number's text never contains `_`, the key separator |
| Hex.HexByte | qcx-core.js:34 | `b.toString(16).padStart(2, "0")` is the digit of the high nibble then the digit of the low one, both lowercase, and reading them in radix 16 gives `b` |
| Hex.ToHex | qcx-core.js:33-35 | `toHex` gives two characters per byte |
| Hex.ToHexAt | qcx-core.js:34 | characters 2j and 2j+1 of `toHex(u8)` are byte j in lowercase hex, padded to two digits |
| Hex.ToHexLower | qcx-core.js:33-35 | every character of `toHex` output is a lowercase hex digit |
| Hex.ToUint8 | qcx-core.js:41 | storing a `parseInt` result into a `Uint8Array` keeps a value in 0..255 and turns NaN into 0 |
| Hex.ParseIntHex | qcx-core.js:41 | definition of `parseInt(s, 16)`, with `None` for NaN: skip leading ECMAScript white space, read an optional sign and an optional `0x`, then the longest prefix of hex digits. Its properties are stated by `Hex.ParseHexByte`, `Hex.DecodeHexAt` and `Hex.FromHexNaN` |
| Hex.DecodeHex | qcx-core.js:37-44 | `fromHex` throws exactly when the length is odd |
| Hex.DecodeHexAt | qcx-core.js:40-42 | for an even-length string, byte i of `fromHex` is `parseInt` of characters 2i and 2i+1, stored into a `Uint8Array` |
| Hex.FromHex | qcx-core.js:37-44 | the loop over character pairs computes `DecodeHex` |
| Hex.ParseHexByte | qcx-core.js:41 | `parseInt` of a byte's two-digit hex text gives the byte |
| Hex.DecodeToHex | qcx-core.js:33-44 | `fromHex(toHex(u8))` is `u8` for every byte string |
| Hex.ToHexDecode | qcx-core.js:33-44 | an even-length lowercase hex string is `toHex` of what `fromHex` makes of it |
| Hex.FromHexNaN | qcx-core.js:41 | `fromHex` does not validate: byte i is 0 whenever `parseInt` reads pair i as NaN, that is, when no hex digit follows the leading white space, the optional sign and the optional `0x` |
| Hex.FromHexDigitPrefix | qcx-core.js:41 | illustration of `Hex.DecodeHexAt`: `parseInt` stops at the first non-digit, so `"1z"` gives `[1]` |
| Hex.FromHexSigned | qcx-core.js:41 | illustration of `Hex.DecodeHexAt`: a signed pair is kept modulo 256, so `"-1"` gives `[255]` |
| Hex.FromHexSkipsBlank | qcx-core.js:41 | illustration of `Hex.DecodeHexAt`: leading white space in a pair is skipped, so `" F"` gives `[15]` |
| Buffers.SetAt | qcx-core.js:180 | `a.set(src, off)` writes `src` over the window at `off` and leaves every other byte unchanged |
| Buffers.SetUint32LE | qcx-core.js:197 | `setUint32(off, v, true)` writes the four little-endian bytes of `v` modulo 2^32 at `off`, nothing else |
| Buffers.ReadWriteLE32 | qcx-core.js:255 | `getUint32` reads back the value `setUint32` wrote, for every value below 2^32 |
| Buffers.WriteReadLE32 | qcx-core.js:255 | writing back a value read from four bytes gives the same four bytes |
| Buffers.ReadLE32 | qcx-core.js:255 | `getUint32(0, true)` of four little-endian bytes is below 2^32; `Buffers.ReadWriteLE32` and `Buffers.WriteReadLE32` state that it inverts `setUint32` |
| Buffers.NewBuffer | qcx-core.js:178 | `new Uint8Array(n)` is a fresh buffer of n zero bytes |
| Framing.Frame | qcx-core.js:195-199 | a frame is 4 bytes longer than the header and payload together; the bytes after the 4-byte prefix are the header followed by the payload; the prefix reads back as the header length modulo 2^32 |
| Framing.BuildFrame | qcx-core.js:195-199 | the zeroed buffer with the length, header and payload written into it is the frame `LE32(len) ++ header ++ payload` |
| Framing.SplitFrame | qcx-core.js:287-295 | fails with TooShort iff fewer than 4 bytes, with BadLength iff the prefix is 0 or points past the end; on success the header is as long as the prefix and header and payload fill the buffer |
| Framing.ParseOuterFrame | qcx-core.js:252-260 | the outer reader refuses fewer than 8 bytes and succeeds iff the prefix lies in (0, length - 4] |
| Framing.ParseInnerFrame | qcx-core.js:287-290 | the inner reader succeeds iff there are 4 bytes and the prefix lies in (0, length - 4] |
| Framing.SplitFrameInverse | qcx-core.js:255-268 | every buffer the reader accepts is the frame of the header and payload it returns |
| Framing.SplitFrameRoundTrip | qcx-core.js:195-199 | reading a frame gives back its header and payload, for every header length in (0, 2^32) |
| Framing.OuterFrameRoundTrip | qcx-core.js:238-242 | the outer reader gives back the header and ciphertext of an outer frame of at least 8 bytes |
| Framing.EmptyHeaderRejected | qcx-core.js:256 | a frame with an empty header is refused |
| OrderedMaps.Get | qcx-core.js:120 | `uniqueMap.get(key)` returns the value bound to the key, or nothing; `Get` has no contract of its own, and `OrderedMaps.SetGet` states what it sees after a `set` |
| OrderedMaps.Set | qcx-core.js:143 | `uniqueMap.set(key, v)` binds the key and leaves every other key unchanged (`OrderedMaps.SetGet`); a missing key goes last in insertion order (`OrderedMaps.SetFreshValues`), and an existing key keeps its place |
| OrderedMaps.Values | qcx-core.js:179 | `values()` has one value per key; `OrderedMaps.ValuesOfAt` states that its i-th value is that of the i-th inserted key |
| OrderedMaps.Empty | qcx-core.js:114 | `new Map()` is well formed and has no keys |
| OrderedMaps.SetGet | qcx-core.js:161 | `set` keeps the map well formed; `get` then sees the new binding and every other key unchanged |
| OrderedMaps.SetFreshValues | qcx-core.js:179 | setting a missing key appends its value to `values()` |
| OrderedMaps.ValuesOfAt | qcx-core.js:179 | position i of `values()` holds the value of the i-th inserted key |
| Dedup.Start | qcx-core.js:114-116 | definition of the state before the loop: an empty `uniqueMap`, no entries and `uniqueTotalSize` 0. Its property is stated by `Dedup.StartInv`: the loop invariant holds there |
| Dedup.KeyString | qcx-core.js:119 | definition of the key strings `size + "_" + crc.toString(16)` and, for a collision, that string plus `"_u"` and the offset (line 138). Its property is stated by `Dedup.KeyStringInjective`: distinct keys give distinct strings |
| Dedup.EntryFor | qcx-core.js:126-133 | definition of the pushed entry, the same in all three branches (lines 144-151 and 162-169): path, offset, length and size, MIME type and the hex CRC-32. Its properties are stated by `Dedup.StepMeta` (the entry describes its file) and `Dedup.OffsetOfEntry` (its offset) |
| Dedup.TotalSize | qcx-core.js:107 | definition of `totalOrig`, the sum of file sizes. Its properties are stated by `Dedup.TotalAccounting` and `Archive.TotalOfRecords` |
| Dedup.StartInv | qcx-core.js:114-116 | before the loop the invariant holds: nothing is stored, no entry exists and every key is unowned |
| Dedup.DedupStep | qcx-core.js:118-170 | definition of one iteration. A hit on the base key with equal bytes pushes an entry at the stored offset. A hit with other bytes stores the buffer at the current end under an alternative key. A miss stores it at the end under the base key. Its properties are stated by `Dedup.StepMeta`, `Dedup.StepInv` and `Dedup.OffsetOfEntry` |
| Dedup.StepMeta | qcx-core.js:126-169 | every branch of an iteration pushes exactly one entry, describing its file, and leaves the earlier entries unchanged |
| Dedup.DedupAll | qcx-core.js:118-171 | the loop over all of `fileObjs` pushes one entry per file |
| Dedup.DataConcat | qcx-core.js:178-181 | `dataConcat` is `uniqueTotalSize` bytes long |
| Dedup.SameBytes | qcx-core.js:125 | the length check plus `every` comparison is true iff the two buffers are equal |
| Dedup.DedupFiles | qcx-core.js:114-171 | the loop computes the final `uniqueMap`, `filesMeta` and `uniqueTotalSize` given by `DedupAll` |
| Dedup.DedupAllInv | qcx-core.js:114-171 | after the loop, the stored buffers tile `[0, uniqueTotalSize)` in insertion order and every entry's window holds its file's bytes |
| Dedup.EntriesDescribeFiles | qcx-core.js:126-169 | `filesMeta` has one entry per file, in input order, with that file's path, MIME type, size as length and CRC-32 as hex text |
| Dedup.MetaPrefix | qcx-core.js:118-171 | later files never change the entries of earlier ones |
| Dedup.OffsetOfEntry | qcx-core.js:118-171 | file i shares the offset of the first file j < i with its size and CRC-32 iff their bytes are equal, and otherwise starts at the running unique total |
| Dedup.SharedWindowSameBytes | qcx-core.js:122-134 | two files of equal size whose windows start at the same offset have the same bytes |
| Dedup.TotalAccounting | qcx-core.js:116-169 | `uniqueTotalSize` plus the sizes of the files that reuse a window equals `totalOrig` |
| Dedup.NoSavingsIff | qcx-core.js:116-169 | nothing is saved iff every file that reuses a window is empty |
| Dedup.UniqueEqualsTotalIff | qcx-core.js:187-188 | `uniqueSize == totalSize` iff every file that reuses a window is empty |
| Dedup.CollisionNotShared | qcx-core.js:136-153 | with `a`, `b` colliding on size and CRC-32 but not bytes, `[a, b, b]` gets offsets 0, n and 2n, and `uniqueSize` is 3n: alternative keys are never looked up |
| Dedup.CollisionReusesFirst | qcx-core.js:119-135 | with `a`, `b` colliding on size and CRC-32 but not bytes, `[a, b, a]` gets offsets 0, n and 0, and `uniqueSize` is 2n: the lookup under the base key finds the first file with that key |
| Dedup.KeyStringInjective | qcx-core.js:119 | distinct keys (base or alternative) have distinct key strings, so keying the map by the datatype is keying it by the strings |
| Dedup.BlobIsTiling | qcx-core.js:178-181 | `dataConcat` is the stored buffers end to end, `uniqueTotalSize` long and no longer than `totalOrig` |
| Dedup.WindowRecoversFile | qcx-core.js:178-181 | for every file, the window of its entry lies inside `dataConcat` and holds exactly that file's bytes |
| Dedup.Assemble | qcx-core.js:178-181 | writing each stored buffer at its offset into a zeroed buffer gives the overlay of those buffers |
| Dedup.OverlayTiled | qcx-core.js:178-181 | writing a tiling over a long enough zero buffer gives the tiles followed by the rest of the buffer |
| Archive.PathOf | qcx-core.js:102 | the path is the relative path or the name, and empty only when both are empty |
| Archive.MimeOf | qcx-core.js:103 | the MIME type is never empty, and it is the file's own type whenever that is set |
| Archive.RecordOf | qcx-core.js:101-108 | each record is sized (its size is the length of its bytes) and its CRC-32 is below 2^32 |
| Archive.Records | qcx-core.js:99-110 | `fileObjs` has one record per file, in order, record i made from file i |
| Archive.TotalOfRecords | qcx-core.js:107 | `totalOrig` is the sum of the lengths of the files' contents |
| Archive.ReadFiles | qcx-core.js:99-110 | the reading loop returns `fileObjs` and `totalOrig`, computing each CRC-32 through the shared table cache |
| Archive.BuildArchive | qcx-core.js:96 | building fails with the empty-list error exactly when no file is given |
| Archive.CreateArchive | qcx-core.js:95-245 | reading, dedup, assembly, both framings, compression and encryption compute `BuildArchive` |
| Archive.InnerFor | qcx-core.js:184-190 | definition of the inner header: the entry count, `totalOrig`, `uniqueTotalSize`, the entries and the creation time. Its properties are stated by `Archive.HeaderSummary` |
| Archive.OuterFor | qcx-core.js:215-233 | the outer header's salt and IV texts are hex that `fromHex` reads back as the salt and the IV |
| Archive.HeaderSummary | qcx-core.js:184-190 | `fileCount` is the number of files and of entries, `totalSize` the sum of their sizes, `uniqueSize` the blob length and no more than `totalSize`; entry i has file i's path, MIME type and size |
| Archive.OpenOuter | qcx-core.js:250-273 | fails with TooSmall iff fewer than 8 bytes and with the length error iff the prefix is 0 or too large. On success the header has magic `QCX3` and version 3, the salt and IV are the decoded hex of its texts, and the ciphertext is everything after the declared header |
| Archive.OpenInner | qcx-core.js:284-295 | fails as too short iff fewer than 4 bytes and with the inner length error iff the prefix is 0 or too large. On success the blob is everything after the declared header |
| Archive.OpenArchive | qcx-core.js:250-298 | opening fails with TooSmall iff fewer than 8 bytes, with the length error iff the outer prefix is 0 or too large, and an opened archive has magic `QCX3` and version 3 |
| Archive.StructuralErrorsIgnorePassword | qcx-core.js:252-272 | framing, header and hex errors before key derivation are the same for every password, and any later failure is a key, decrypt, decompress or inner-frame error |
| Archive.OpenedIsFrame | qcx-core.js:252-262 | an archive that opens is an outer frame whose header parses to the returned outer header |
| Archive.OpenOuterOfBuilt | qcx-core.js:264-272 | the outer layer of a built archive parses back to its outer header, ciphertext, salt and IV |
| Archive.OpenInnerOfBuilt | qcx-core.js:287-295 | the inner layer parses back to the inner header and `dataConcat` |
| Archive.ArchiveRoundTrip | qcx-core.js:250-298 | opening a built archive with the same password gives back its outer header, inner header and `dataConcat` |
| Archive.ExtractRecoversFile | qcx-core.js:292-297 | in an opened archive, entry i has file i's path and its window lies inside `dataConcat` and holds exactly file i's bytes |

## Left out

- `formatSize`, `saveUint8AsFile`, the log callback and the user interface in `qcx-ui.js`: these are presentation and browser I/O, and none of them affects the archive bytes.
- The compression ratio (line 244): it is a floating-point figure for display and is not stored in the archive.
- `Date.now()` (line 189): the creation time is a parameter, `now`.
- `crypto.getRandomValues` (lines 206-207): the salt and IV are parameters. The model does not insist on their 16 and 12 byte lengths, and the proofs hold for any length.
- PBKDF2 key derivation, AES-GCM, zlib, `TextEncoder`/`TextDecoder` and `JSON.stringify`/`JSON.parse`: these are calls into the platform and libraries, modelled as the fields of `Archive.Primitives`. Only the properties named in `Archive.Sound` are assumed.
- A header whose JSON parses but lacks a field or has one of the wrong type is folded into the header-parse failure, since `parseOuter`/`parseInner` return a whole header or nothing. The source is more lenient in places, and the model does not capture these cases:
  - A missing `kdf.iter` makes line 273 pass `undefined`, so `deriveKey` falls back to its default of 200000 iterations (line 60).
  - A missing `meta` is never read by `openQcxFile`, so such an archive opens.
  - A missing `kdf` or `cipher` throws a `TypeError` at line 271 or 272.
- `await f.arrayBuffer()` and the rest of the asynchrony: each file's bytes are given as a value, and the steps run in program order.
- Strings are sequences of Dafny characters. Their UTF-16 representation is not modelled.
- A key derivation that fails while building is modelled as the error `KeyDerivationFailed`, because in the source such a rejection propagates out of `createQcxFromFiles`.
- Archive.ArchiveRoundTrip: requires both encoded headers to be shorter than 2^32 bytes. `setUint32` keeps the length modulo 2^32, so a longer header would not read back.
- Archive.ExtractRecoversFile: carries the same 2^32 bound on the encoded headers, for the same reason.
