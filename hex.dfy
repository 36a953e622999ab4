/** `toHex` and `fromHex`: the hex codec used for the salt and the IV of the outer header.

    `toHex` writes every byte as `b.toString(16).padStart(2, "0")`; `fromHex` rejects an odd
    length and otherwise stores `parseInt(pair, 16)` into a `Uint8Array`, which keeps the
    value modulo 256 and turns NaN into 0. `parseInt` is modelled with the JavaScript rules
    for a string argument and radix 16. */
module Hex {
  import opened Base
  import opened NumText

  // ---------------------------------------------------------------- toHex

  /** `s.padStart(n, [fill])`. */
  function PadStart(s: string, n: nat, fill: char): (r: string)
    ensures |s| >= n ==> r == s
    ensures |s| < n ==> |r| == n && r[n - |s|..] == s && forall i :: 0 <= i < n - |s| ==> r[i] == fill
    decreases n - |s|
  {
    if |s| >= n then s else PadStart([fill] + s, n, fill)
  }

  predicate IsLowerHexDigit(c: char) {
    '0' <= c <= '9' || 'a' <= c <= 'f'
  }

  /** `b.toString(16).padStart(2, "0")`: the digit of the high nibble, then that of the low one,
      both lowercase, so that reading the pair in radix 16 gives the byte. */
  function HexByte(b: byte): (r: string)
    ensures r == [DigitChar(b / 16), DigitChar(b % 16)]
    ensures IsLowerHexDigit(r[0]) && IsLowerHexDigit(r[1])
    ensures 16 * HexDigitValue(r[0]) + HexDigitValue(r[1]) == b
  {
    PaddedDigits(b);
    LowerDigitValue(b / 16);
    LowerDigitValue(b % 16);
    PadStart(ToRadix(b, 16), 2, '0')
  }

  lemma {:induction false} PaddedDigits(b: byte)
    ensures PadStart(ToRadix(b, 16), 2, '0') == [DigitChar(b / 16), DigitChar(b % 16)]
  {
    if b < 16 {
      assert ToRadix(b, 16) == [DigitChar(b)];
    } else {
      assert ToRadix(b / 16, 16) == [DigitChar(b / 16)];
    }
  }

  /** `Array.from(xs).map(f).join("")`. */
  function JoinMap<T>(xs: seq<T>, f: T -> string): string {
    if xs == [] then "" else f(xs[0]) + JoinMap(xs[1..], f)
  }

  /** With two characters per element, element `j` fills characters `2j` and `2j+1`. */
  lemma {:induction false} JoinMapAt<T>(xs: seq<T>, f: T -> string, j: nat)
    requires forall x :: |f(x)| == 2
    requires j < |xs|
    ensures |JoinMap(xs, f)| == 2 * |xs|
    ensures JoinMap(xs, f)[2 * j..2 * j + 2] == f(xs[j])
  {
    JoinMapLength(xs, f);
    if j > 0 {
      JoinMapAt(xs[1..], f, j - 1);
      assert JoinMap(xs, f)[2 * j..2 * j + 2] == JoinMap(xs[1..], f)[2 * (j - 1)..2 * (j - 1) + 2];
    }
  }

  lemma {:induction false} JoinMapLength<T>(xs: seq<T>, f: T -> string)
    requires forall x :: |f(x)| == 2
    ensures |JoinMap(xs, f)| == 2 * |xs|
  {
    if xs != [] {
      JoinMapLength(xs[1..], f);
    }
  }

  /** `toHex(u8)`: the pairs of all bytes, joined. */
  function ToHex(u8: seq<byte>): (s: string)
    ensures |s| == 2 * |u8|
  {
    assert forall b :: |HexByte(b)| == 2;
    JoinMapLength(u8, HexByte);
    JoinMap(u8, HexByte)
  }

  /** Characters `2j` and `2j+1` of `toHex(u8)` are the pair of byte `j`, in lowercase. */
  lemma {:induction false} ToHexAt(u8: seq<byte>, j: nat)
    requires j < |u8|
    ensures ToHex(u8)[2 * j..2 * j + 2] == HexByte(u8[j])
    ensures ToHex(u8)[2 * j] == HexByte(u8[j])[0] && ToHex(u8)[2 * j + 1] == HexByte(u8[j])[1]
    ensures IsLowerHexDigit(ToHex(u8)[2 * j]) && IsLowerHexDigit(ToHex(u8)[2 * j + 1])
  {
    var s := ToHex(u8);
    assert forall b :: |HexByte(b)| == 2;
    JoinMapAt(u8, HexByte, j);
    assert s[2 * j] == s[2 * j..2 * j + 2][0] && s[2 * j + 1] == s[2 * j..2 * j + 2][1];
  }

  /** `toHex` writes lowercase hex digits only. */
  lemma {:induction false} ToHexLower(u8: seq<byte>)
    ensures forall i :: 0 <= i < |ToHex(u8)| ==> IsLowerHexDigit(ToHex(u8)[i])
  {
    forall i | 0 <= i < |ToHex(u8)| ensures IsLowerHexDigit(ToHex(u8)[i]) {
      ToHexAt(u8, i / 2);
    }
  }

  // ---------------------------------------------------------------- parseInt(s, 16)

  /** ECMAScript white space and line terminators, which `parseInt` skips at the front. */
  predicate IsJsSpace(c: char) {
    if c <= '\U{0020}' then c == '\U{0020}' || '\U{0009}' <= c <= '\U{000D}'
    else if c < '\U{00A0}' then false
    else (c == '\U{00A0}' || c == '\U{1680}' || ('\U{2000}' <= c <= '\U{200A}')
      || c == '\U{2028}' || c == '\U{2029}' || c == '\U{202F}' || c == '\U{205F}'
      || c == '\U{3000}' || c == '\U{FEFF}')
  }

  function TrimStart(s: string): string {
    if s != [] && IsJsSpace(s[0]) then TrimStart(s[1..]) else s
  }

  /** The value of a radix-16 digit of either case, or -1. */
  function HexDigitValue(c: char): int {
    if '0' <= c <= '9' then c as int - '0' as int
    else if 'a' <= c <= 'f' then c as int - 'a' as int + 10
    else if 'A' <= c <= 'F' then c as int - 'A' as int + 10
    else -1
  }

  /** The longest prefix made of hex digits. */
  function HexPrefix(s: string): string {
    if s != [] && HexDigitValue(s[0]) >= 0 then [s[0]] + HexPrefix(s[1..]) else []
  }

  /** The number a string of hex digits stands for, most significant first. */
  function HexValue(z: string): int {
    if z == [] then 0 else HexValue(z[..|z| - 1]) * 16 + HexDigitValue(z[|z| - 1])
  }

  /** `parseInt(s, 16)`; `None` is NaN. */
  function ParseIntHex(s: string): Option<int> {
    ParseSigned(TrimStart(s))
  }

  /** An optional sign, then the magnitude. */
  function ParseSigned(t: string): Option<int> {
    if t != [] && t[0] == '-' then Negate(ParseMagnitude(t[1..]))
    else if t != [] && t[0] == '+' then ParseMagnitude(t[1..])
    else ParseMagnitude(t)
  }

  function Negate(v: Option<int>): Option<int> {
    match v
    case None => None
    case Some(x) => Some(-x)
  }

  /** Radix 16 lets `parseInt` drop a leading `0x` or `0X`. */
  function StripHexPrefix(u: string): string {
    if |u| >= 2 && u[0] == '0' && (u[1] == 'x' || u[1] == 'X') then u[2..] else u
  }

  /** The longest digit prefix, NaN when it is empty. */
  function ParseMagnitude(u: string): Option<int> {
    var z := HexPrefix(StripHexPrefix(u));
    if z == [] then None else Some(HexValue(z))
  }

  /** The conversion a `Uint8Array` element store applies (ToUint8). */
  function ToUint8(v: Option<int>): (b: byte)
    ensures v.Some? && 0 <= v.value < 256 ==> b == v.value
    ensures v.None? ==> b == 0
  {
    match v
    case None => 0
    case Some(x) => x % 256
  }

  // ---------------------------------------------------------------- fromHex

  datatype HexError = OddLength

  /** The byte `fromHex` stores for a two-character slice. */
  function PairByte(p: string): byte {
    ToUint8(ParseIntHex(p))
  }

  /** `f` applied to the successive two-character slices of an even-length string. */
  function MapPairs<T>(str: string, f: string -> T): (out: seq<T>)
    requires |str| % 2 == 0
    ensures |out| == |str| / 2
  {
    if str == [] then [] else [f(str[..2])] + MapPairs(str[2..], f)
  }

  /** Element `j` comes from characters `2j` and `2j+1`. */
  lemma {:induction false} MapPairsAt<T>(str: string, f: string -> T, j: nat)
    requires |str| % 2 == 0 && 2 * j + 2 <= |str|
    ensures MapPairs(str, f)[j] == f(str[2 * j..2 * j + 2])
  {
    if j > 0 {
      MapPairsAt(str[2..], f, j - 1);
      assert str[2..][2 * (j - 1)..2 * (j - 1) + 2] == str[2 * j..2 * j + 2];
    }
  }

  /** A sequence that agrees with `f` on every pair is `MapPairs(str, f)`. */
  lemma {:induction false} MapPairsExt<T>(str: string, f: string -> T, out: seq<T>)
    requires |str| % 2 == 0 && |out| == |str| / 2
    requires forall k :: 0 <= k < |out| ==> out[k] == f(str[2 * k..2 * k + 2])
    ensures out == MapPairs(str, f)
  {
    forall k | 0 <= k < |out| ensures out[k] == MapPairs(str, f)[k] {
      MapPairsAt(str, f, k);
    }
  }

  /** What `fromHex(str)` returns or throws. */
  function DecodeHex(str: string): (r: Result<seq<byte>, HexError>)
    ensures r.Err? <==> |str| % 2 != 0
  {
    if |str| % 2 != 0 then Err(OddLength) else Ok(MapPairs(str, PairByte))
  }

  /** The loop of `fromHex`, filling a zeroed `Uint8Array` two characters at a time. */
  method FromHex(str: string) returns (r: Result<seq<byte>, HexError>)
    ensures r == DecodeHex(str)
  {
    if |str| % 2 != 0 {
      return Err(OddLength);
    }
    var n := |str| / 2;
    assert |str| == 2 * n;
    var out := new byte[n](_ => 0);
    var i, j := 0, 0;
    while i < |str|
      invariant i == 2 * j && j <= n
      invariant forall k :: 0 <= k < j ==> out[k] == PairByte(str[2 * k..2 * k + 2])
    {
      out[j] := ToUint8(ParseIntHex(str[i..i + 2]));
      i, j := i + 2, j + 1;
    }
    MapPairsExt(str, PairByte, out[..]);
    r := Ok(out[..]);
  }

  // ---------------------------------------------------------------- round trips

  lemma {:induction false} LowerDigitValue(d: nat)
    requires d < 16
    ensures HexDigitValue(DigitChar(d)) == d && IsLowerHexDigit(DigitChar(d))
  {
  }

  lemma {:induction false} DigitCharOfValue(c: char)
    requires IsLowerHexDigit(c)
    ensures 0 <= HexDigitValue(c) < 16 && DigitChar(HexDigitValue(c)) == c
  {
  }

  lemma {:induction false} HexValuePair(p: string)
    requires |p| == 2
    ensures HexValue(p) == 16 * HexDigitValue(p[0]) + HexDigitValue(p[1])
  {
    var q := p[..1];
    assert q[..0] == [] && q[0] == p[0];
    assert HexValue(q) == HexValue(q[..0]) * 16 + HexDigitValue(p[0]);
    assert p[..|p| - 1] == q;
  }

  /** Two hex digits, with nothing for `parseInt` to skip, parse as their value. */
  lemma {:induction false} ParseDigitPair(p: string)
    requires |p| == 2 && HexDigitValue(p[0]) >= 0 && HexDigitValue(p[1]) >= 0
    ensures ParseIntHex(p) == Some(16 * HexDigitValue(p[0]) + HexDigitValue(p[1]))
  {
    assert !IsJsSpace(p[0]);
    assert TrimStart(p) == p;
    assert p[0] != '-' && p[0] != '+';
    assert ParseSigned(p) == ParseMagnitude(p);
    assert StripHexPrefix(p) == p;
    assert p[1..][1..] == [];
    assert HexPrefix(p[1..]) == p[1..];
    assert HexPrefix(p) == p;
    HexValuePair(p);
  }

  /** `parseInt` reads a pair written by `toHex` back as the byte. */
  lemma {:induction false} ParseHexByte(b: byte)
    ensures ParseIntHex(HexByte(b)) == Some(b)
  {
    ParseDigitPair(HexByte(b));
  }

  /** `fromHex(toHex(b)) == b`. */
  lemma {:induction false} DecodeToHex(u8: seq<byte>)
    ensures DecodeHex(ToHex(u8)) == Ok(u8)
  {
    forall b: byte ensures PairByte(HexByte(b)) == b {
      ParseHexByte(b);
    }
    MapPairsOfHex(u8, PairByte);
  }

  /** A pair reader that inverts `HexByte` inverts `ToHex`. */
  lemma {:induction false} MapPairsOfHex(u8: seq<byte>, f: string -> byte)
    requires forall b: byte :: f(HexByte(b)) == b
    ensures MapPairs(ToHex(u8), f) == u8
  {
    var s := ToHex(u8);
    forall j | 0 <= j < |u8| ensures u8[j] == f(s[2 * j..2 * j + 2]) {
      ToHexAt(u8, j);
    }
    MapPairsExt(s, f, u8);
  }

  /** A well-formed lowercase hex string is `toHex` of what `fromHex` makes of it. */
  lemma {:induction false} ToHexDecode(str: string)
    requires |str| % 2 == 0
    requires forall i :: 0 <= i < |str| ==> IsLowerHexDigit(str[i])
    ensures ToHex(DecodeHex(str).value) == str
  {
    forall p | |p| == 2 && IsLowerHexDigit(p[0]) && IsLowerHexDigit(p[1])
      ensures HexByte(PairByte(p)) == p
    {
      PairOfDigits(p);
    }
    ToHexOfPairs(str, PairByte);
  }

  /** `ToHex` inverts a pair reader that `HexByte` inverts on lowercase digits. */
  lemma {:induction false} ToHexOfPairs(str: string, f: string -> byte)
    requires |str| % 2 == 0
    requires forall i :: 0 <= i < |str| ==> IsLowerHexDigit(str[i])
    requires forall p :: |p| == 2 && IsLowerHexDigit(p[0]) && IsLowerHexDigit(p[1]) ==> HexByte(f(p)) == p
    ensures ToHex(MapPairs(str, f)) == str
  {
    var u8 := MapPairs(str, f);
    var s := ToHex(u8);
    forall j | 0 <= j < |u8| ensures s[2 * j] == str[2 * j] && s[2 * j + 1] == str[2 * j + 1] {
      MapPairsAt(str, f, j);
      ToHexAt(u8, j);
      var p := str[2 * j..2 * j + 2];
      assert IsLowerHexDigit(p[0]) && IsLowerHexDigit(p[1]);
      assert s[2 * j..2 * j + 2] == p;
      assert p[0] == str[2 * j] && p[1] == str[2 * j + 1];
      assert s[2 * j] == s[2 * j..2 * j + 2][0] && s[2 * j + 1] == s[2 * j..2 * j + 2][1];
    }
    EqualByPairs(s, str);
  }

  lemma {:induction false} EqualByPairs(a: string, b: string)
    requires |a| == |b| && |a| % 2 == 0
    requires forall j :: 0 <= j < |a| / 2 ==> a[2 * j] == b[2 * j] && a[2 * j + 1] == b[2 * j + 1]
    ensures a == b
  {
    forall i | 0 <= i < |a| ensures a[i] == b[i] {
      var j := i / 2;
      assert i == 2 * j || i == 2 * j + 1;
    }
  }

  /** A pair of lowercase digits parses to the byte whose pair it is. */
  lemma {:induction false} PairOfDigits(p: string)
    requires |p| == 2 && IsLowerHexDigit(p[0]) && IsLowerHexDigit(p[1])
    ensures ToUint8(ParseIntHex(p)) < 256 && HexByte(ToUint8(ParseIntHex(p))) == p
  {
    DigitCharOfValue(p[0]);
    DigitCharOfValue(p[1]);
    ParseDigitPair(p);
    var hi, lo := HexDigitValue(p[0]), HexDigitValue(p[1]);
    var b := hi * 16 + lo;
    assert b / 16 == hi && b % 16 == lo;
    assert ToUint8(ParseIntHex(p)) == b;
    assert HexByte(b) == [p[0], p[1]];
    assert p == [p[0], p[1]];
  }

  /** The result of `fromHex` on one pair. */
  lemma {:induction false} DecodeOnePair(s: string)
    requires |s| == 2
    ensures DecodeHex(s) == Ok([PairByte(s)])
  {
    assert s[..2] == s && s[2..] == [];
    assert MapPairs(s[2..], PairByte) == [];
    assert MapPairs(s, PairByte) == [PairByte(s)];
  }

  /** Byte `i` of `fromHex(str)` is what `parseInt` makes of characters `2i` and `2i+1`, stored
      into a `Uint8Array`. */
  lemma {:induction false} DecodeHexAt(str: string, i: nat)
    requires |str| % 2 == 0 && i < |str| / 2
    ensures DecodeHex(str).Ok? && |DecodeHex(str).value| == |str| / 2
    ensures DecodeHex(str).value[i] == ToUint8(ParseIntHex(str[2 * i..2 * i + 2]))
  {
    MapPairsAt(str, PairByte, i);
  }

  /** `fromHex` does not validate: a pair that `parseInt` reads as NaN (no hex digit after the
      leading white space, the optional sign and the optional `0x`) gives byte 0. */
  lemma {:induction false} FromHexNaN(str: string, i: nat)
    requires |str| % 2 == 0 && i < |str| / 2
    requires ParseIntHex(str[2 * i..2 * i + 2]).None?
    ensures DecodeHex(str).Ok? && DecodeHex(str).value[i] == 0
  {
    DecodeHexAt(str, i);
  }

  /** Illustrations of `DecodeHexAt`: `parseInt` stops at the first character that is not a hex
      digit ... */
  lemma {:induction false} FromHexDigitPrefix()
    ensures DecodeHex("1z") == Ok([1])
  {
    var s := "1z";
    DecodeOnePair(s);
    assert TrimStart(s) == s;
    assert ParseSigned(s) == ParseMagnitude(s);
    assert StripHexPrefix(s) == s;
    assert HexPrefix(s[1..]) == [];
    assert HexPrefix(s) == "1";
    assert "1"[..0] == [];
    assert HexValue("1") == 1;
    assert ParseIntHex(s) == Some(1);
  }

  /** ... honours a sign, keeping the value modulo 256 ... */
  lemma {:induction false} FromHexSigned()
    ensures DecodeHex("-1") == Ok([255])
  {
    var s := "-1";
    DecodeOnePair(s);
    assert TrimStart(s) == s;
    var m := s[1..];
    assert m == "1";
    assert ParseSigned(s) == Negate(ParseMagnitude(m));
    assert StripHexPrefix(m) == m;
    assert HexPrefix(m[1..]) == [];
    assert HexPrefix(m) == m;
    assert m[..0] == [];
    assert HexValue(m) == 1;
    assert ParseIntHex(s) == Some(-1);
  }

  /** ... and skips leading blanks. */
  lemma {:induction false} FromHexSkipsBlank()
    ensures DecodeHex(" F") == Ok([15])
  {
    var s := " F";
    DecodeOnePair(s);
    var m := s[1..];
    assert m == "F";
    assert TrimStart(m) == m;
    assert TrimStart(s) == m;
    assert ParseSigned(m) == ParseMagnitude(m);
    assert StripHexPrefix(m) == m;
    assert HexPrefix(m[1..]) == [];
    assert HexPrefix(m) == m;
    assert m[..0] == [];
    assert HexValue(m) == 15;
    assert ParseIntHex(s) == Some(15);
  }
}
