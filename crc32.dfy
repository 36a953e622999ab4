/** CRC-32 of ISO 3309 / ITU-T V.42 / IEEE 802.3: reflected polynomial 0xEDB88320,
    initial value and final XOR all-ones.

    The JavaScript code keeps the running value in a 32-bit number and only uses
    `^`, `>>>` and `& 0xFF` on it, so the register is modelled as its 32 bits,
    least significant first (`Word`); `Value` is the unsigned number `>>> 0` yields. */
module Crc32 {
  import opened Base

  type Word = w: seq<bool> | |w| == 32
    witness [false, false, false, false, false, false, false, false, false, false, false, false, false, false, false, false,
             false, false, false, false, false, false, false, false, false, false, false, false, false, false, false, false]

  /** The low `k` bits of `n`, least significant first. */
  function Bits(n: nat, k: nat): (s: seq<bool>)
    ensures |s| == k
  {
    if k == 0 then [] else [n % 2 == 1] + Bits(n / 2, k - 1)
  }

  /** The unsigned number a bit string (least significant bit first) stands for. */
  function Value(s: seq<bool>): nat {
    if s == [] then 0 else (if s[0] then 1 else 0) + 2 * Value(s[1..])
  }

  function Pow2(k: nat): (p: nat)
    ensures p >= 1
  {
    if k == 0 then 1 else 2 * Pow2(k - 1)
  }

  /** The 32-bit pattern of a number: `n | 0` read as bits. */
  function WordOf(n: nat): Word {
    Bits(n, 32)
  }

  function Xor(a: Word, b: Word): (r: Word)
    ensures forall i :: 0 <= i < 32 ==> r[i] == (a[i] != b[i])
  {
    seq(32, i requires 0 <= i < 32 => a[i] != b[i])
  }

  /** `a >>> n`. */
  function ShiftRight(a: Word, n: nat): (r: Word)
    ensures forall i :: 0 <= i < 32 ==> r[i] == (i + n < 32 && a[i + n])
  {
    seq(32, i requires 0 <= i < 32 => i + n < 32 && a[i + n])
  }

  /** `-1`, and `0xEDB88320`. */
  const ALL_ONES: Word := WordOf(0xFFFF_FFFF)
  const POLY: Word := WordOf(0xEDB88320)

  /** One bit step of the reflected register, as the table loop writes it. */
  function Shift(c: Word): Word {
    if c[0] then Xor(POLY, ShiftRight(c, 1)) else ShiftRight(c, 1)
  }

  /** `k` bit steps. */
  function Shifts(c: Word, k: nat): Word {
    if k == 0 then c else Shift(Shifts(c, k - 1))
  }

  /** Bit-at-a-time update by one byte: the reference definition of the algorithm. */
  function ByteStep(c: Word, b: byte): Word {
    Shifts(Xor(c, WordOf(b)), 8)
  }

  /** Bit-at-a-time update of the register by a whole buffer. */
  function Update(c: Word, data: seq<byte>): Word {
    if data == [] then c else ByteStep(Update(c, data[..|data| - 1]), data[|data| - 1])
  }

  /** The CRC-32 of a buffer, as the unsigned number `(crc ^ (-1)) >>> 0` the source returns. */
  function Checksum(data: seq<byte>): (r: nat)
    ensures r < TWO_TO_32
  {
    var w := Xor(Update(ALL_ONES, data), ALL_ONES);
    ValueBound(w);
    Pow2Is32();
    Value(w)
  }

  /** Entry `i` of the 256-entry lookup table. */
  function TableEntry(i: nat): Word
    requires i < 256
  {
    Shifts(WordOf(i), 8)
  }

  /** An array holding every entry of the lookup table. */
  ghost predicate IsTable(t: array<Word>)
    reads t
  {
    t.Length == 256 && forall i :: 0 <= i < 256 ==> t[i] == TableEntry(i)
  }

  /** The table index `(crc ^ b) & 0xFF`. */
  function TableIndex(c: Word, b: byte): nat {
    Value(Xor(c, WordOf(b))[..8])
  }

  lemma {:induction false} ShiftXor(x: Word, y: Word)
    ensures Shift(Xor(x, y)) == Xor(Shift(x), Shift(y))
  {
    var l, r := Shift(Xor(x, y)), Xor(Shift(x), Shift(y));
    forall i | 0 <= i < 32 ensures l[i] == r[i] {
    }
  }

  /** The shift register is linear over GF(2). */
  lemma {:induction false} ShiftsXor(x: Word, y: Word, k: nat)
    ensures Shifts(Xor(x, y), k) == Xor(Shifts(x, k), Shifts(y, k))
  {
    if k > 0 {
      ShiftsXor(x, y, k - 1);
      ShiftXor(Shifts(x, k - 1), Shifts(y, k - 1));
    }
  }

  /** A word whose low 8 bits are clear only shifts right during up to 8 steps. */
  lemma {:induction false} ShiftsOfHigh(x: Word, k: nat)
    requires k <= 8 && forall i :: 0 <= i < 8 ==> !x[i]
    ensures Shifts(x, k) == ShiftRight(x, k)
  {
    if k > 0 {
      ShiftsOfHigh(x, k - 1);
      var p := ShiftRight(x, k - 1);
      assert !p[0];
      assert ShiftRight(p, 1) == ShiftRight(x, k);
    }
  }

  lemma {:induction false} ValueBound(s: seq<bool>)
    ensures Value(s) < Pow2(|s|)
  {
    if s != [] {
      ValueBound(s[1..]);
    }
  }

  /** Reading a bit string as a number and back gives it again, padded with zeros. */
  lemma {:induction false} BitsOfValue(s: seq<bool>, k: nat)
    requires |s| <= k
    ensures forall i :: 0 <= i < k ==> Bits(Value(s), k)[i] == (i < |s| && s[i])
  {
    if k > 0 {
      if s == [] {
        BitsOfZero(k);
      } else {
        BitsOfValue(s[1..], k - 1);
        var v := Value(s);
        assert v % 2 == 1 <==> s[0];
        assert v / 2 == Value(s[1..]);
      }
    }
  }

  lemma {:induction false} BitsOfZero(k: nat)
    ensures forall i :: 0 <= i < k ==> !Bits(0, k)[i]
  {
    if k > 0 {
      BitsOfZero(k - 1);
    }
  }

  /** The bits of a number below `2^j` above position `j` are clear. */
  lemma {:induction false} BitsHigh(n: nat, j: nat, k: nat)
    requires n < Pow2(j)
    ensures forall i :: j <= i < k ==> !Bits(n, k)[i]
  {
    if k > 0 && j > 0 {
      BitsHigh(n / 2, j - 1, k - 1);
    } else if k > 0 {
      assert n == 0;
      BitsOfZero(k);
    }
  }

  lemma {:induction false} ByteHighBits(b: byte)
    ensures forall i :: 8 <= i < 32 ==> !WordOf(b)[i]
  {
    assert Pow2(8) == 256;
    BitsHigh(b, 8, 32);
  }

  /** The table-driven step `(crc >>> 8) ^ table[(crc ^ b) & 0xFF]` equals eight bit steps. */
  lemma {:induction false} TableStep(c: Word, b: byte)
    ensures TableIndex(c, b) < 256
    ensures ByteStep(c, b) == Xor(ShiftRight(c, 8), TableEntry(TableIndex(c, b)))
  {
    var x := Xor(c, WordOf(b));
    ValueBound(x[..8]);
    assert Pow2(8) == 256;
    var idx := TableIndex(c, b);
    var lo := WordOf(idx);
    BitsOfValue(x[..8], 32);
    ByteHighBits(b);
    var hi := seq(32, i requires 0 <= i < 32 => 8 <= i && x[i]);
    assert x == Xor(lo, hi);
    ShiftsXor(lo, hi, 8);
    ShiftsOfHigh(hi, 8);
    assert ShiftRight(hi, 8) == ShiftRight(c, 8);
    XorComm(ShiftRight(c, 8), TableEntry(idx));
  }

  lemma {:induction false} XorComm(a: Word, b: Word)
    ensures Xor(a, b) == Xor(b, a)
  {
  }

  lemma {:induction false} Pow2Add(a: nat, b: nat)
    ensures Pow2(a + b) == Pow2(a) * Pow2(b)
  {
    if a > 0 {
      Pow2Add(a - 1, b);
    }
  }

  lemma {:induction false} Pow2Is32()
    ensures Pow2(32) == TWO_TO_32
  {
    assert Pow2(8) == 256;
    Pow2Add(8, 8);
    Pow2Add(16, 16);
  }

  lemma {:induction false} BitsOfOnes(n: nat, k: nat)
    requires n + 1 == Pow2(k)
    ensures forall i :: 0 <= i < k ==> Bits(n, k)[i]
  {
    if k > 0 {
      assert Pow2(k) == 2 * Pow2(k - 1);
      BitsOfOnes(n / 2, k - 1);
    }
  }

  lemma {:induction false} ValueOfZeros(s: seq<bool>)
    requires forall i :: 0 <= i < |s| ==> !s[i]
    ensures Value(s) == 0
  {
    if s != [] {
      ValueOfZeros(s[1..]);
    }
  }

  /** The CRC-32 of the empty buffer is 0. */
  lemma {:induction false} ChecksumEmpty()
    ensures Checksum([]) == 0
  {
    Pow2Is32();
    BitsOfOnes(0xFFFF_FFFF, 32);
    ValueOfZeros(Xor(ALL_ONES, ALL_ONES));
  }

  /** Fills the lookup table: entry `i` is `i` after eight conditional shifts. */
  method BuildTable() returns (t: array<Word>)
    ensures fresh(t) && IsTable(t)
  {
    t := new Word[256];
    for i := 0 to 256
      invariant forall j :: 0 <= j < i ==> t[j] == TableEntry(j)
    {
      var c := WordOf(i);
      for k := 0 to 8
        invariant c == Shifts(WordOf(i), k)
      {
        assert Shifts(WordOf(i), k + 1) == Shift(c);
        c := if c[0] then Xor(POLY, ShiftRight(c, 1)) else ShiftRight(c, 1);
      }
      t[i] := c;
    }
  }

  /** The byte-wise table-driven loop computes the bit-at-a-time CRC-32. */
  method TableChecksum(t: array<Word>, buf: seq<byte>) returns (r: nat)
    requires IsTable(t)
    ensures r == Checksum(buf)
  {
    var crc := ALL_ONES;
    for i := 0 to |buf|
      invariant crc == Update(ALL_ONES, buf[..i])
    {
      TableStep(crc, buf[i]);
      crc := Xor(ShiftRight(crc, 8), t[TableIndex(crc, buf[i])]);
      assert buf[..i + 1][..i] == buf[..i];
    }
    assert buf[..|buf|] == buf;
    r := Value(Xor(crc, ALL_ONES));
  }

  /** The function object `crc32` with its lazily filled `crc32.table` property. */
  class ChecksumCache {
    var table: array?<Word>

    ghost predicate Valid()
      reads this, table
    {
      table != null ==> IsTable(table)
    }

    constructor ()
      ensures Valid() && table == null
    {
      table := null;
    }

    /** `crc32(buf)`: fills the table on first use, then runs the table-driven loop. */
    method Crc32(buf: seq<byte>) returns (r: nat)
      requires Valid()
      modifies this
      ensures Valid() && table != null
      ensures old(table) != null ==> table == old(table)
      ensures r == Checksum(buf)
    {
      if table == null {
        table := BuildTable();
      }
      r := TableChecksum(table, buf);
    }
  }
}
