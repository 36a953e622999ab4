/** `Number.prototype.toString(radix)` for the non-negative integers the archive engine
    formats: file sizes and offsets in radix 10 (dedup keys) and CRC values in radix 16. */
module NumText {

  /** The lowercase digit for `d`, as JavaScript writes it (`0`-`9`, then `a`-`z`). */
  function DigitChar(d: nat): char
    requires d < 36
  {
    if d < 10 then ('0' as int + d) as char else ('a' as int + d - 10) as char
  }

  /** The value of a lowercase digit character, when it is one. */
  function DigitValue(c: char): int {
    if '0' <= c <= '9' then c as int - '0' as int
    else if 'a' <= c <= 'z' then c as int - 'a' as int + 10
    else -1
  }

  lemma {:induction false} DigitRoundTrip(d: nat)
    requires d < 36
    ensures DigitValue(DigitChar(d)) == d
  {
  }

  /** `n.toString(radix)`: most significant digit first, no leading zeros, "0" for zero. */
  function ToRadix(n: nat, radix: nat): (s: string)
    requires 2 <= radix <= 36
    ensures |s| >= 1
    ensures forall i :: 0 <= i < |s| ==> 0 <= DigitValue(s[i]) < radix
    ensures |s| > 1 ==> s[0] != '0'
  {
    DigitRoundTrip(n % radix);
    if n < radix then DigitRoundTrip(n); [DigitChar(n)]
    else Shrinks(n, radix); ToRadix(n / radix, radix) + [DigitChar(n % radix)]
  }

  /** Reads a string of digits back, most significant first. */
  function FromDigits(s: string, radix: nat): int {
    if s == [] then 0 else FromDigits(s[..|s| - 1], radix) * radix + DigitValue(s[|s| - 1])
  }

  lemma {:induction false} FromToRadix(n: nat, radix: nat)
    requires 2 <= radix <= 36
    ensures FromDigits(ToRadix(n, radix), radix) == n
    decreases n
  {
    var s := ToRadix(n, radix);
    if n < radix {
      DigitRoundTrip(n);
      assert s == [DigitChar(n)];
      assert s[..0] == [];
    } else {
      var q, r := n / radix, n % radix;
      DivMod(n, radix);
      Shrinks(n, radix);
      FromToRadix(q, radix);
      DigitRoundTrip(r);
      var t := ToRadix(q, radix);
      assert s == t + [DigitChar(r)];
      assert s[..|s| - 1] == t;
      assert FromDigits(s, radix) == FromDigits(t, radix) * radix + r;
    }
  }

  lemma {:induction false} DivMod(n: nat, radix: nat)
    requires radix > 0
    ensures n == (n / radix) * radix + n % radix
  {
  }

  lemma {:induction false} Shrinks(n: nat, radix: nat)
    requires 2 <= radix <= n
    ensures n / radix < n
  {
    var q := n / radix;
    DivMod(n, radix);
    AtLeastDouble(q, radix);
  }

  lemma {:induction false} AtLeastDouble(q: nat, radix: nat)
    requires radix >= 2
    ensures q * radix >= 2 * q
  {
    if q > 0 {
      AtLeastDouble(q - 1, radix);
      assert q * radix == (q - 1) * radix + radix;
    }
  }

  /** Distinct numbers have distinct renderings. */
  lemma {:induction false} ToRadixInjective(m: nat, n: nat, radix: nat)
    requires 2 <= radix <= 36
    ensures ToRadix(m, radix) == ToRadix(n, radix) ==> m == n
  {
    FromToRadix(m, radix);
    FromToRadix(n, radix);
  }

  /** No rendering contains the separator `_` of the dedup keys. */
  lemma {:induction false} NoUnderscore(n: nat, radix: nat)
    requires 2 <= radix <= 36
    ensures '_' !in ToRadix(n, radix)
  {
    var s := ToRadix(n, radix);
    assert DigitValue('_') == -1;
    forall i | 0 <= i < |s| ensures s[i] != '_' {
    }
  }
}
