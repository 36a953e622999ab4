/** The length-prefixed framing `[u32 LE length][header bytes][payload]` that wraps both the
    inner payload (header JSON + dedup blob) and the outer archive (header JSON + ciphertext),
    and the bounds-checked reading of it on the open side. */
module Framing {
  import opened Base
  import opened Buffers

  /** `TooShort`: fewer bytes than the reader needs before the length prefix can be trusted.
      `BadLength`: the prefix is 0 or points past the end of the buffer. */
  datatype FrameError = TooShort | BadLength

  /** The bytes the builder lays out: `setUint32(0, |header|, true)`, the header at 4, the payload
      after it. `setUint32` keeps the length modulo 2^32, so the prefix reads back as the header
      length only when that is below 2^32. */
  function Frame(header: seq<byte>, payload: seq<byte>): (r: seq<byte>)
    ensures |r| == 4 + |header| + |payload|
    ensures r[4..4 + |header|] == header && r[4 + |header|..] == payload
    ensures ReadLE32(r) == |header| % TWO_TO_32
  {
    var pre := LE32(|header| % TWO_TO_32);
    ReadWriteLE32(|header| % TWO_TO_32);
    PrefixRead(pre, header + payload);
    assert pre + header + payload == pre + (header + payload);
    pre + header + payload
  }

  /** The length check and the two slices shared by both readers: `getUint32(0, true)` throws a
      RangeError on fewer than 4 bytes, then the prefix must lie in `(0, length - 4]`, and the
      header is `buf.slice(4, 4 + len)`, the rest `buf.slice(4 + len)`. */
  function SplitFrame(buf: seq<byte>): (r: Result<(seq<byte>, seq<byte>), FrameError>)
    ensures r == Err(TooShort) <==> |buf| < 4
    ensures r == Err(BadLength) <==> |buf| >= 4 && (ReadLE32(buf) == 0 || ReadLE32(buf) > |buf| - 4)
    ensures r.Ok? ==> |r.value.0| == ReadLE32(buf) > 0 && 4 + |r.value.0| + |r.value.1| == |buf|
  {
    if |buf| < 4 then Err(TooShort)
    else
      var len := ReadLE32(buf);
      if len == 0 || len > |buf| - 4 then Err(BadLength)
      else Ok((buf[4..4 + len], buf[4 + len..]))
  }

  /** The outer reader of `openQcxFile`: fewer than 8 bytes are refused before the prefix is read. */
  function ParseOuterFrame(buf: seq<byte>): (r: Result<(seq<byte>, seq<byte>), FrameError>)
    ensures r == Err(TooShort) <==> |buf| < 8
    ensures r.Ok? <==> |buf| >= 8 && 0 < ReadLE32(buf) <= |buf| - 4
  {
    if |buf| < 8 then Err(TooShort) else SplitFrame(buf)
  }

  /** The inner reader has no minimum of its own: the RangeError of `getUint32` is its `TooShort`. */
  function ParseInnerFrame(buf: seq<byte>): (r: Result<(seq<byte>, seq<byte>), FrameError>)
    ensures r == Err(TooShort) <==> |buf| < 4
    ensures r == Err(BadLength) <==> |buf| >= 4 && (ReadLE32(buf) == 0 || ReadLE32(buf) > |buf| - 4)
    ensures r.Ok? <==> |buf| >= 4 && 0 < ReadLE32(buf) <= |buf| - 4
  {
    SplitFrame(buf)
  }

  /** Everything the reader accepts is a frame of the header and payload it returns. */
  lemma {:induction false} SplitFrameInverse(buf: seq<byte>)
    requires SplitFrame(buf).Ok?
    ensures Frame(SplitFrame(buf).value.0, SplitFrame(buf).value.1) == buf
  {
    var (h, p) := SplitFrame(buf).value;
    WriteReadLE32(buf[..4]);
    assert |h| % TWO_TO_32 == ReadLE32(buf[..4]);
    assert buf == buf[..4] + h + p;
  }

  /** Reading a frame gives back its header and payload, for every header length in (0, 2^32). */
  lemma {:induction false} SplitFrameRoundTrip(header: seq<byte>, payload: seq<byte>)
    requires 0 < |header| < TWO_TO_32
    ensures SplitFrame(Frame(header, payload)) == Ok((header, payload))
  {
  }

  lemma {:induction false} PrefixRead(pre: seq<byte>, rest: seq<byte>)
    requires |pre| == 4
    ensures ReadLE32(pre + rest) == ReadLE32(pre)
  {
    var s := pre + rest;
    assert s[0] == pre[0] && s[1] == pre[1] && s[2] == pre[2] && s[3] == pre[3];
  }

  /** The outer reader also needs the frame to reach 8 bytes. */
  lemma {:induction false} OuterFrameRoundTrip(header: seq<byte>, payload: seq<byte>)
    requires 0 < |header| < TWO_TO_32 && |header| + |payload| >= 4
    ensures ParseOuterFrame(Frame(header, payload)) == Ok((header, payload))
  {
    SplitFrameRoundTrip(header, payload);
  }

  /** An empty header cannot be framed: its prefix is 0, which the reader refuses. */
  lemma {:induction false} EmptyHeaderRejected(payload: seq<byte>)
    ensures SplitFrame(Frame([], payload)).Err?
  {
    var buf := Frame([], payload);
    ReadWriteLE32(0);
    assert buf == LE32(0) + payload;
    PrefixRead(LE32(0), payload);
  }

  /** The builder of lines 195-199 and 238-242: a zeroed buffer of `4 + |header| + |payload|` bytes,
      the length written little-endian at 0, the header set at 4 and the payload after it. */
  method BuildFrame(header: seq<byte>, payload: seq<byte>) returns (out: seq<byte>)
    ensures out == Frame(header, payload)
  {
    var a := NewBuffer(4 + |header| + |payload|);
    SetUint32LE(a, 0, |header|);
    ghost var s1 := a[..];
    SetAt(a, header, 4);
    ghost var s2 := a[..];
    SetAt(a, payload, 4 + |header|);
    out := a[..];
    FrameLayout(header, payload, s1, s2, out);
  }

  lemma {:induction false} FrameLayout(header: seq<byte>, payload: seq<byte>, s1: seq<byte>, s2: seq<byte>, s3: seq<byte>)
    requires |s1| == 4 + |header| + |payload|
    requires s1 == Splice(Zeros(|s1|), 0, LE32(|header| % TWO_TO_32))
    requires s2 == Splice(s1, 4, header)
    requires s3 == Splice(s2, 4 + |header|, payload)
    ensures s3 == Frame(header, payload)
  {
    var f := Frame(header, payload);
    SpliceAt(Zeros(|s1|), 0, LE32(|header| % TWO_TO_32));
    SpliceAt(s1, 4, header);
    SpliceAt(s2, 4 + |header|, payload);
    forall i | 0 <= i < |f| ensures s3[i] == f[i] {
      if i < 4 {
      } else if i < 4 + |header| {
      } else {
      }
    }
  }
}
