/** In-place writes into a `Uint8Array`: `TypedArray.prototype.set` at an offset and the
    little-endian `DataView` accessors `setUint32(off, v, true)` / `getUint32(off, true)`. */
module Buffers {
  import opened Base

  /** `s` with `src` written over it from index `off`. */
  function Splice(s: seq<byte>, off: nat, src: seq<byte>): seq<byte>
    requires off + |src| <= |s|
  {
    s[..off] + src + s[off + |src|..]
  }

  /** Pointwise reading of `Splice`: the window holds `src`, every other index is unchanged. */
  lemma {:induction false} SpliceAt(s: seq<byte>, off: nat, src: seq<byte>)
    requires off + |src| <= |s|
    ensures |Splice(s, off, src)| == |s|
    ensures forall i :: 0 <= i < |s| ==>
      Splice(s, off, src)[i] == if off <= i < off + |src| then src[i - off] else s[i]
  {
  }

  /** `a.set(src, off)`, element by element. */
  method SetAt(a: array<byte>, src: seq<byte>, off: nat)
    requires off + |src| <= a.Length
    modifies a
    ensures a[..] == Splice(old(a[..]), off, src)
  {
    ghost var before := a[..];
    for j := 0 to |src|
      invariant forall i :: 0 <= i < a.Length ==> a[i] == if off <= i < off + j then src[i - off] else before[i]
    {
      a[off + j] := src[j];
    }
    SpliceAt(before, off, src);
    assert a[..] == Splice(before, off, src);
  }

  /** The four little-endian bytes of a 32-bit value. */
  function LE32(n: nat): (b: seq<byte>)
    requires n < TWO_TO_32
    ensures |b| == 4
  {
    [n % 256, (n / 256) % 256, (n / 256 / 256) % 256, n / 256 / 256 / 256]
  }

  /** `getUint32(0, true)` on the first four bytes. */
  function ReadLE32(b: seq<byte>): (n: nat)
    requires |b| >= 4
    ensures n < TWO_TO_32
  {
    b[0] as int + 256 * (b[1] as int + 256 * (b[2] as int + 256 * b[3] as int))
  }

  /** Writing a 32-bit value and reading it back gives the value. */
  lemma {:induction false} ReadWriteLE32(n: nat)
    requires n < TWO_TO_32
    ensures ReadLE32(LE32(n)) == n
  {
    var q1 := n / 256;
    var q2 := q1 / 256;
    var q3 := q2 / 256;
    assert n == n % 256 + 256 * q1;
    assert q1 == q1 % 256 + 256 * q2;
    assert q2 == q2 % 256 + 256 * q3;
  }

  /** Reading four bytes and writing the value back gives the bytes. */
  lemma {:induction false} WriteReadLE32(b: seq<byte>)
    requires |b| == 4
    ensures LE32(ReadLE32(b)) == b
  {
    var n := ReadLE32(b);
    var q1: int := b[1] as int + 256 * (b[2] as int + 256 * b[3] as int);
    var q2: int := b[2] as int + 256 * b[3] as int;
    assert n == b[0] + 256 * q1;
    assert n % 256 == b[0] && n / 256 == q1;
    assert q1 % 256 == b[1] && q1 / 256 == q2;
    assert q2 % 256 == b[2] && q2 / 256 == b[3];
  }

  /** `new DataView(a.buffer).setUint32(off, v, true)`: ToUint32 keeps `v` modulo 2^32. */
  method SetUint32LE(a: array<byte>, off: nat, v: nat)
    requires off + 4 <= a.Length
    modifies a
    ensures a[..] == Splice(old(a[..]), off, LE32(v % TWO_TO_32))
  {
    var w := v % TWO_TO_32;
    a[off] := w % 256;
    a[off + 1] := (w / 256) % 256;
    a[off + 2] := (w / 256 / 256) % 256;
    a[off + 3] := w / 256 / 256 / 256;
    assert a[..] == Splice(old(a[..]), off, LE32(w));
  }

  /** A zero-filled `new Uint8Array(n)`. */
  method NewBuffer(n: nat) returns (a: array<byte>)
    ensures fresh(a) && a[..] == Zeros(n)
  {
    a := new byte[n](_ => 0);
  }
}
