/** `createQcxFromFiles` and `openQcxFile`: reading the files, deduplicating them, assembling and
    framing the inner payload, and wrapping the encrypted payload in the outer frame; and on the
    open side, the bounds-checked parse that undoes each layer.

    JSON, UTF-8, zlib, PBKDF2 and AES-GCM are not modelled: they are the fields of `Primitives`,
    functions the archive code calls and the proofs know nothing about except what `Sound` states. */
module Archive {
  import opened Base
  import opened Crc32
  import opened Hex
  import opened Buffers
  import opened Framing
  import opened OrderedMaps
  import opened Dedup

  // ---------------------------------------------------------------- constants of the format

  const MAGIC: string := "QCX3"
  const VERSION: int := 3
  const KDF_ALGO: string := "PBKDF2"
  const KDF_HASH: string := "SHA-256"
  const ITERATIONS: int := 200000
  const CIPHER_ALGO: string := "AES-GCM"
  const NOTE: string := "QCX v3 universal encrypted archive"
  const DEFAULT_MIME: string := "application/octet-stream"

  // ---------------------------------------------------------------- headers

  /** `innerHeader`, which is encrypted with the blob. */
  datatype InnerHeader = InnerHeader(fileCount: nat, totalSize: nat, uniqueSize: nat,
                                     files: seq<FileEntry>, createdAt: int)

  datatype KdfParams = KdfParams(algo: string, hash: string, iter: int, saltHex: string)
  datatype CipherParams = CipherParams(algo: string, ivHex: string)
  datatype OuterMeta = OuterMeta(fileCount: nat, totalSize: nat, note: string)

  /** `outerHeader`, stored in clear text in front of the ciphertext. */
  datatype OuterHeader = OuterHeader(magic: string, version: int, kdf: KdfParams,
                                     cipher: CipherParams, meta: OuterMeta)

  /** The calls into code this model does not contain. Parsing and decoding can fail: `None` is
      an exception thrown by `JSON.parse`, `unzlibSync`, `deriveKey` or `aesDecrypt`. */
  datatype Primitives = Primitives(
    encodeInner: InnerHeader -> seq<byte>,
    parseInner: seq<byte> -> Option<InnerHeader>,
    encodeOuter: OuterHeader -> seq<byte>,
    parseOuter: seq<byte> -> Option<OuterHeader>,
    compress: seq<byte> -> seq<byte>,
    decompress: seq<byte> -> Option<seq<byte>>,
    deriveKey: (string, seq<byte>, int) -> Option<seq<byte>>,
    encrypt: (seq<byte>, seq<byte>, seq<byte>) -> seq<byte>,
    decrypt: (seq<byte>, seq<byte>, seq<byte>) -> Option<seq<byte>>)

  /** What the round trip needs of the primitives: each decoder undoes its encoder, a JSON text of
      an object is never empty, and AES-GCM output carries at least its 16-byte tag. */
  ghost predicate Sound(p: Primitives) {
    (forall h :: p.parseInner(p.encodeInner(h)) == Some(h))
    && (forall h :: p.parseOuter(p.encodeOuter(h)) == Some(h))
    && (forall h :: |p.encodeInner(h)| > 0)
    && (forall h :: |p.encodeOuter(h)| > 0)
    && (forall d :: p.decompress(p.compress(d)) == Some(d))
    && (forall k, iv, pt :: p.decrypt(k, iv, p.encrypt(k, iv, pt)) == Some(pt))
    && (forall k, iv, pt :: |p.encrypt(k, iv, pt)| >= 16)
  }

  // ---------------------------------------------------------------- reading the files

  /** A `File`: its name, `webkitRelativePath`, `type` and bytes. */
  datatype SourceFile = SourceFile(name: string, relativePath: string, mimeType: string, content: seq<byte>)

  /** `f.webkitRelativePath || f.name`: the relative path when the file has one, else its name. */
  function PathOf(f: SourceFile): (r: string)
    ensures r == f.relativePath || r == f.name
    ensures r == "" <==> f.relativePath == "" && f.name == ""
  {
    if f.relativePath != "" then f.relativePath else f.name
  }

  /** `f.type || "application/octet-stream"`: never empty, and the file's own type when it has one. */
  function MimeOf(f: SourceFile): (r: string)
    ensures r != ""
    ensures f.mimeType != "" ==> r == f.mimeType
  {
    if f.mimeType != "" then f.mimeType else DEFAULT_MIME
  }

  /** The record the reading loop pushes for one file (lines 101-108). */
  function RecordOf(f: SourceFile): (fo: FileRecord)
    ensures Sized(fo) && fo.crc < TWO_TO_32
  {
    FileRecord(PathOf(f), MimeOf(f), f.content, |f.content|, Checksum(f.content))
  }

  /** `fileObjs`. */
  function Records(files: seq<SourceFile>): (objs: seq<FileRecord>)
    ensures |objs| == |files|
    ensures forall i :: 0 <= i < |files| ==> objs[i] == RecordOf(files[i])
  {
    if files == [] then [] else Records(files[..|files| - 1]) + [RecordOf(files[|files| - 1])]
  }

  /** The sum of the lengths of the files' contents. */
  function ContentSize(files: seq<SourceFile>): nat {
    if files == [] then 0 else ContentSize(files[..|files| - 1]) + |files[|files| - 1].content|
  }

  lemma {:induction false} RecordsSized(files: seq<SourceFile>)
    ensures AllSized(Records(files))
  {
  }

  /** `totalOrig` is the total length of the contents. */
  lemma {:induction false} TotalOfRecords(files: seq<SourceFile>)
    ensures TotalSize(Records(files)) == ContentSize(files)
  {
    if files != [] {
      var init := files[..|files| - 1];
      TotalOfRecords(init);
      var objs := Records(files);
      assert objs[..|objs| - 1] == Records(init);
    }
  }

  /** The loop of lines 100-110, computing each checksum with the cached table. */
  method ReadFiles(files: seq<SourceFile>, cache: ChecksumCache) returns (objs: seq<FileRecord>, totalOrig: nat)
    requires cache.Valid()
    modifies cache
    ensures cache.Valid()
    ensures objs == Records(files) && totalOrig == TotalSize(objs)
  {
    objs, totalOrig := [], 0;
    for i := 0 to |files|
      invariant cache.Valid()
      invariant objs == Records(files[..i]) && totalOrig == TotalSize(objs)
    {
      var f := files[i];
      var path := PathOf(f);
      var mime := MimeOf(f);
      var buf := f.content;
      var size := |buf|;
      var crc := cache.Crc32(buf);
      var fo := FileRecord(path, mime, buf, size, crc);
      assert fo == RecordOf(f);
      RecordsAppend(files, i);
      TotalSizeAppend(objs, fo);
      totalOrig := totalOrig + size;
      objs := objs + [fo];
    }
    assert files[..|files|] == files;
  }

  lemma {:induction false} RecordsAppend(files: seq<SourceFile>, i: nat)
    requires i < |files|
    ensures Records(files[..i + 1]) == Records(files[..i]) + [RecordOf(files[i])]
  {
    assert files[..i + 1][..i] == files[..i];
  }

  // ---------------------------------------------------------------- building the archive

  /** Lines 184-190: the summary counts and the entries. */
  function InnerFor(objs: seq<FileRecord>, st: DedupState, now: int): InnerHeader {
    InnerHeader(|st.meta|, TotalSize(objs), st.total, st.meta, now)
  }

  /** Lines 215-233. The salt and the IV are written as hex text that `fromHex` reads back. */
  function OuterFor(inner: InnerHeader, salt: seq<byte>, iv: seq<byte>): (r: OuterHeader)
    ensures DecodeHex(r.kdf.saltHex) == Ok(salt) && DecodeHex(r.cipher.ivHex) == Ok(iv)
  {
    DecodeToHex(salt);
    DecodeToHex(iv);
    OuterHeader(MAGIC, VERSION, KdfParams(KDF_ALGO, KDF_HASH, ITERATIONS, ToHex(salt)),
                CipherParams(CIPHER_ALGO, ToHex(iv)), OuterMeta(inner.fileCount, inner.totalSize, NOTE))
  }

  datatype BuildError = NoFiles | KeyDerivationFailed

  /** What `createQcxFromFiles` resolves to: the archive bytes and the inner header. */
  datatype Built = Built(qcx: seq<byte>, innerHeader: InnerHeader)

  /** The bytes of the deduplicated blob for a list of files. */
  function BlobOf(files: seq<SourceFile>): seq<byte> {
    RecordsSized(files);
    var objs := Records(files);
    BlobIsTiling(objs, DedupAll(objs));
    DataConcat(DedupAll(objs))
  }

  /** `createQcxFromFiles`, as one function of its inputs; `salt` and `iv` are the random bytes the
      source draws and `now` is `Date.now()`. */
  function BuildArchive(files: seq<SourceFile>, password: string, salt: seq<byte>, iv: seq<byte>,
                        now: int, p: Primitives): (r: Result<Built, BuildError>)
    ensures r == Err(NoFiles) <==> files == []
  {
    if files == [] then Err(NoFiles)
    else
      var objs := Records(files);
      var inner := InnerFor(objs, DedupAll(objs), now);
      var innerRaw := Frame(p.encodeInner(inner), BlobOf(files));
      match p.deriveKey(password, salt, ITERATIONS)
      case None => Err(KeyDerivationFailed)
      case Some(key) =>
        var ciphertext := p.encrypt(key, iv, p.compress(innerRaw));
        Ok(Built(Frame(p.encodeOuter(OuterFor(inner, salt, iv)), ciphertext), inner))
  }

  /** `createQcxFromFiles`, step by step. */
  method CreateArchive(files: seq<SourceFile>, password: string, salt: seq<byte>, iv: seq<byte>,
                       now: int, p: Primitives, cache: ChecksumCache) returns (r: Result<Built, BuildError>)
    requires cache.Valid()
    modifies cache
    ensures cache.Valid()
    ensures r == BuildArchive(files, password, salt, iv, now, p)
  {
    if |files| == 0 {
      return Err(NoFiles);
    }
    var objs, totalOrig := ReadFiles(files, cache);
    var store, meta, total := DedupFiles(objs);
    RecordsSized(files);
    BlobIsTiling(objs, DedupAll(objs));
    var data := Assemble(Values(store), total);
    var inner := InnerHeader(|meta|, totalOrig, total, meta, now);
    var innerRaw := BuildFrame(p.encodeInner(inner), data);
    var compressed := p.compress(innerRaw);
    var key := p.deriveKey(password, salt, ITERATIONS);
    if key.None? {
      return Err(KeyDerivationFailed);
    }
    var ciphertext := p.encrypt(key.value, iv, compressed);
    var out := BuildFrame(p.encodeOuter(OuterFor(inner, salt, iv)), ciphertext);
    return Ok(Built(out, inner));
  }

  /** Unfolds `BuildArchive` for the lemmas below: the outer frame around the ciphertext of the
      compressed inner frame, whose header is the summary of the dedup state. */
  lemma {:induction false} BuiltLayout(files: seq<SourceFile>, password: string, salt: seq<byte>, iv: seq<byte>,
                    now: int, p: Primitives, b: Built)
    requires BuildArchive(files, password, salt, iv, now, p) == Ok(b)
    ensures files != [] && p.deriveKey(password, salt, ITERATIONS).Some?
    ensures b.innerHeader == InnerFor(Records(files), DedupAll(Records(files)), now)
    ensures b.qcx == Frame(p.encodeOuter(OuterFor(b.innerHeader, salt, iv)),
                           p.encrypt(p.deriveKey(password, salt, ITERATIONS).value, iv,
                                     p.compress(Frame(p.encodeInner(b.innerHeader), BlobOf(files)))))
  {
  }

  /** The summary of the inner header: one entry per file, `fileCount` of them, `totalSize` the
      total of all contents, `uniqueSize` the length of the blob and no more than `totalSize`. */
  lemma {:induction false} HeaderSummary(files: seq<SourceFile>, password: string, salt: seq<byte>, iv: seq<byte>,
                      now: int, p: Primitives, b: Built)
    requires BuildArchive(files, password, salt, iv, now, p) == Ok(b)
    ensures b.innerHeader.fileCount == |b.innerHeader.files| == |files|
    ensures b.innerHeader.totalSize == ContentSize(files)
    ensures b.innerHeader.uniqueSize == |BlobOf(files)| <= b.innerHeader.totalSize
    ensures forall i :: 0 <= i < |files| ==>
      b.innerHeader.files[i].path == PathOf(files[i]) && b.innerHeader.files[i].mime == MimeOf(files[i])
      && b.innerHeader.files[i].length == b.innerHeader.files[i].size == |files[i].content|
  {
    BuiltLayout(files, password, salt, iv, now, p, b);
    var objs := Records(files);
    RecordsSized(files);
    BlobIsTiling(objs, DedupAll(objs));
    TotalOfRecords(files);
    EntriesDescribeFiles(objs);
  }

  // ---------------------------------------------------------------- opening the archive

  /** The exceptions of `openQcxFile`, in the order it can throw them. */
  datatype OpenError =
    | TooSmall            // fewer than 8 bytes
    | BadOuterLength      // outer length prefix 0 or past the end
    | MalformedOuter      // the outer header is not the JSON of a header
    | BadMagic            // magic is not "QCX3" or version is not 3
    | BadHex              // salt or IV text of odd length
    | KeyUnavailable      // `deriveKey` rejected
    | DecryptFailed       // authentication failed: wrong password or damaged data
    | DecompressFailed    // not a zlib stream
    | InnerTooShort       // fewer than 4 bytes after decompression: `getUint32` throws
    | BadInnerLength      // inner length prefix 0 or past the end
    | MalformedInner      // the inner header is not the JSON of a header

  /** What `openQcxFile` resolves to. */
  datatype Opened = Opened(outerHeader: OuterHeader, innerHeader: InnerHeader, dataConcat: seq<byte>)

  /** The checks on the outer header, up to the key derivation: the header it returns has the
      magic and version of the format, the salt and IV are the decoded hex texts of that header,
      and the ciphertext is what follows the header in the frame. */
  function OpenOuter(buf: seq<byte>, p: Primitives): (r: Result<(OuterHeader, seq<byte>, seq<byte>, seq<byte>), OpenError>)
    ensures r == Err(TooSmall) <==> |buf| < 8
    ensures r == Err(BadOuterLength) <==> |buf| >= 8 && (ReadLE32(buf) == 0 || ReadLE32(buf) > |buf| - 4)
    ensures r.Ok? ==> r.value.0.magic == MAGIC && r.value.0.version == VERSION
    ensures r.Ok? ==> DecodeHex(r.value.0.kdf.saltHex) == Ok(r.value.2) && DecodeHex(r.value.0.cipher.ivHex) == Ok(r.value.3)
    ensures r.Ok? ==> |buf| >= 8 && r.value.1 == buf[4 + ReadLE32(buf)..]
  {
    match ParseOuterFrame(buf)
    case Err(TooShort) => Err(TooSmall)
    case Err(BadLength) => Err(BadOuterLength)
    case Ok((headerBytes, ciphertext)) =>
      match p.parseOuter(headerBytes)
      case None => Err(MalformedOuter)
      case Some(outer) =>
        if outer.magic != MAGIC || outer.version != VERSION then Err(BadMagic)
        else
          match DecodeHex(outer.kdf.saltHex)
          case Err(_) => Err(BadHex)
          case Ok(salt) =>
            match DecodeHex(outer.cipher.ivHex)
            case Err(_) => Err(BadHex)
            case Ok(iv) => Ok((outer, ciphertext, salt, iv))
  }

  /** The decrypted payload: `[u32 LE length][inner header][blob]`, checked; the blob is what
      follows the header the length prefix declares. */
  function OpenInner(innerRaw: seq<byte>, p: Primitives): (r: Result<(InnerHeader, seq<byte>), OpenError>)
    ensures r == Err(InnerTooShort) <==> |innerRaw| < 4
    ensures r == Err(BadInnerLength) <==> |innerRaw| >= 4 && (ReadLE32(innerRaw) == 0 || ReadLE32(innerRaw) > |innerRaw| - 4)
    ensures r.Ok? ==> |innerRaw| >= 4 && r.value.1 == innerRaw[4 + ReadLE32(innerRaw)..]
  {
    match ParseInnerFrame(innerRaw)
    case Err(TooShort) => Err(InnerTooShort)
    case Err(BadLength) => Err(BadInnerLength)
    case Ok((headerBytes, data)) =>
      match p.parseInner(headerBytes)
      case None => Err(MalformedInner)
      case Some(inner) => Ok((inner, data))
  }

  /** `openQcxFile` (lines 250-298). */
  function OpenArchive(buf: seq<byte>, password: string, p: Primitives): (r: Result<Opened, OpenError>)
    ensures r == Err(TooSmall) <==> |buf| < 8
    ensures r == Err(BadOuterLength) <==> |buf| >= 8 && (ReadLE32(buf) == 0 || ReadLE32(buf) > |buf| - 4)
    ensures r.Ok? ==> r.value.outerHeader.magic == MAGIC && r.value.outerHeader.version == VERSION
  {
    match OpenOuter(buf, p)
    case Err(e) => Err(e)
    case Ok((outer, ciphertext, salt, iv)) =>
      match p.deriveKey(password, salt, outer.kdf.iter)
      case None => Err(KeyUnavailable)
      case Some(key) =>
        match p.decrypt(key, iv, ciphertext)
        case None => Err(DecryptFailed)
        case Some(compressed) =>
          match p.decompress(compressed)
          case None => Err(DecompressFailed)
          case Some(innerRaw) =>
            match OpenInner(innerRaw, p)
            case Err(e) => Err(e)
            case Ok((inner, data)) => Ok(Opened(outer, inner, data))
  }

  /** The checks before the key derivation do not depend on the password: a file too small, with a
      bad length, header or magic, or with odd hex text is refused the same way whatever the
      password. */
  lemma {:induction false} StructuralErrorsIgnorePassword(buf: seq<byte>, pw1: string, pw2: string, p: Primitives)
    ensures OpenOuter(buf, p).Err? ==> OpenArchive(buf, pw1, p) == OpenArchive(buf, pw2, p) == Err(OpenOuter(buf, p).error)
    ensures OpenOuter(buf, p).Ok? ==> OpenArchive(buf, pw1, p).Err? ==>
      OpenArchive(buf, pw1, p).error !in {TooSmall, BadOuterLength, MalformedOuter, BadMagic, BadHex}
  {
  }

  /** Everything `openQcxFile` accepts is a frame: the header it parsed, then the ciphertext. */
  lemma {:induction false} OpenedIsFrame(buf: seq<byte>, password: string, p: Primitives)
    requires OpenArchive(buf, password, p).Ok?
    ensures ParseOuterFrame(buf).Ok?
    ensures buf == Frame(ParseOuterFrame(buf).value.0, ParseOuterFrame(buf).value.1)
    ensures p.parseOuter(ParseOuterFrame(buf).value.0) == Some(OpenArchive(buf, password, p).value.outerHeader)
  {
    SplitFrameInverse(buf);
  }

  // ---------------------------------------------------------------- the round trip

  lemma {:induction false} OpenOuterOfBuilt(outer: OuterHeader, salt: seq<byte>, iv: seq<byte>, ciphertext: seq<byte>, p: Primitives)
    requires Sound(p) && |p.encodeOuter(outer)| < TWO_TO_32 && |ciphertext| >= 16
    requires outer.magic == MAGIC && outer.version == VERSION
    requires outer.kdf.saltHex == ToHex(salt) && outer.cipher.ivHex == ToHex(iv)
    ensures OpenOuter(Frame(p.encodeOuter(outer), ciphertext), p) == Ok((outer, ciphertext, salt, iv))
  {
    OuterFrameRoundTrip(p.encodeOuter(outer), ciphertext);
    DecodeToHex(salt);
    DecodeToHex(iv);
  }

  lemma {:induction false} OpenInnerOfBuilt(inner: InnerHeader, data: seq<byte>, p: Primitives)
    requires Sound(p) && |p.encodeInner(inner)| < TWO_TO_32
    ensures OpenInner(Frame(p.encodeInner(inner), data), p) == Ok((inner, data))
  {
    SplitFrameRoundTrip(p.encodeInner(inner), data);
  }

  /** Opening a built archive with the password it was built with gives back the outer header,
      the inner header and the blob, provided the primitives are sound and both headers fit the
      32-bit length prefix. */
  lemma {:induction false} ArchiveRoundTrip(files: seq<SourceFile>, password: string, salt: seq<byte>, iv: seq<byte>,
                         now: int, p: Primitives, b: Built)
    requires Sound(p) && BuildArchive(files, password, salt, iv, now, p) == Ok(b)
    requires |p.encodeInner(b.innerHeader)| < TWO_TO_32
    requires |p.encodeOuter(OuterFor(b.innerHeader, salt, iv))| < TWO_TO_32
    ensures OpenArchive(b.qcx, password, p) == Ok(Opened(OuterFor(b.innerHeader, salt, iv), b.innerHeader, BlobOf(files)))
  {
    BuiltLayout(files, password, salt, iv, now, p, b);
    var key := p.deriveKey(password, salt, ITERATIONS).value;
    var innerRaw := Frame(p.encodeInner(b.innerHeader), BlobOf(files));
    var ciphertext := p.encrypt(key, iv, p.compress(innerRaw));
    var outer := OuterFor(b.innerHeader, salt, iv);
    OpenOuterOfBuilt(outer, salt, iv, ciphertext, p);
    OpenInnerOfBuilt(b.innerHeader, BlobOf(files), p);
  }

  /** After a round trip, slicing the window of entry `i` out of the blob gives file `i`'s bytes:
      what the extraction side relies on. */
  lemma {:induction false} ExtractRecoversFile(files: seq<SourceFile>, password: string, salt: seq<byte>, iv: seq<byte>,
                            now: int, p: Primitives, b: Built, o: Opened, i: nat)
    requires Sound(p) && BuildArchive(files, password, salt, iv, now, p) == Ok(b)
    requires |p.encodeInner(b.innerHeader)| < TWO_TO_32
    requires |p.encodeOuter(OuterFor(b.innerHeader, salt, iv))| < TWO_TO_32
    requires OpenArchive(b.qcx, password, p) == Ok(o) && i < |files|
    ensures i < |o.innerHeader.files|
    ensures o.innerHeader.files[i].path == PathOf(files[i])
    ensures o.innerHeader.files[i].offset + o.innerHeader.files[i].length <= |o.dataConcat|
    ensures o.dataConcat[o.innerHeader.files[i].offset..o.innerHeader.files[i].offset + o.innerHeader.files[i].length]
            == files[i].content
  {
    ArchiveRoundTrip(files, password, salt, iv, now, p, b);
    BuiltLayout(files, password, salt, iv, now, p, b);
    var objs := Records(files);
    OpenedWindow(files, objs, DedupAll(objs), o, i);
  }

  /** The window of entry `i` of an opened archive whose entries and blob are those built from
      `files`. */
  lemma {:induction false} OpenedWindow(files: seq<SourceFile>, objs: seq<FileRecord>, st: DedupState, o: Opened, i: nat)
    requires objs == Records(files) && st == DedupAll(objs)
    requires o.innerHeader.files == st.meta && o.dataConcat == BlobOf(files)
    requires i < |files|
    ensures i < |o.innerHeader.files|
    ensures o.innerHeader.files[i].path == PathOf(files[i])
    ensures o.innerHeader.files[i].offset + o.innerHeader.files[i].length <= |o.dataConcat|
    ensures o.dataConcat[o.innerHeader.files[i].offset..o.innerHeader.files[i].offset + o.innerHeader.files[i].length]
            == files[i].content
  {
    FileWindow(files, objs, st, o.dataConcat, i);
    SameWindow(st.meta, o.dataConcat, i, PathOf(files[i]), files[i].content, o);
  }

  lemma {:induction false} SameWindow(meta: seq<FileEntry>, blob: seq<byte>, i: nat, path: string, content: seq<byte>, o: Opened)
    requires o.innerHeader.files == meta && o.dataConcat == blob && i < |meta|
    requires meta[i].path == path && meta[i].offset + meta[i].length <= |blob|
    requires blob[meta[i].offset..meta[i].offset + meta[i].length] == content
    ensures i < |o.innerHeader.files| && o.innerHeader.files[i].path == path
    ensures o.innerHeader.files[i].offset + o.innerHeader.files[i].length <= |o.dataConcat|
    ensures o.dataConcat[o.innerHeader.files[i].offset..o.innerHeader.files[i].offset + o.innerHeader.files[i].length] == content
  {
  }

  /** The entry of file `i` names the file and a window of the blob that holds its bytes. */
  lemma {:induction false} FileWindow(files: seq<SourceFile>, objs: seq<FileRecord>, st: DedupState,
                                      blob: seq<byte>, i: nat)
    requires objs == Records(files) && st == DedupAll(objs) && blob == BlobOf(files) && i < |files|
    ensures |st.meta| == |files|
    ensures st.meta[i].path == PathOf(files[i])
    ensures st.meta[i].offset + st.meta[i].length <= |blob|
    ensures blob[st.meta[i].offset..st.meta[i].offset + st.meta[i].length] == files[i].content
  {
    RecordsSized(files);
    EntriesDescribeFiles(objs);
    WindowRecoversFile(objs, st, i);
  }
}
