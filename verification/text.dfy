/**
 * The string operations the server relies on, written out for Dafny:
 * Python's `str.strip()` (with its notion of whitespace), `str(n)` for a
 * natural number, the `{n:05d}` format, and a decimal parser that inverts
 * the last two.
 */
module Text {

  /** Python's `str.isspace()` for one character: the characters `str.strip()` removes. */
  predicate IsSpace(c: char) {
    || c == ' '
    || ('\t' <= c <= '\r')                // \t \n \v \f \r
    || ('\U{1c}' <= c <= '\U{1f}')        // file, group, record and unit separators
    || c == '\U{85}' || c == '\U{a0}' || c == '\U{1680}'
    || ('\U{2000}' <= c <= '\U{200a}')
    || c == '\U{2028}' || c == '\U{2029}' || c == '\U{202f}' || c == '\U{205f}' || c == '\U{3000}'
  }

  /** Every character of `s` is whitespace (a line Python strips to ""). */
  predicate AllSpace(s: string) {
    forall k :: 0 <= k < |s| ==> IsSpace(s[k])
  }

  /** Neither end of `s` is whitespace: `s` is a fixed point of `strip()`. */
  predicate IsStripped(s: string) {
    s == [] || (!IsSpace(s[0]) && !IsSpace(s[|s| - 1]))
  }

  /** `s.rstrip()`: the prefix left after dropping trailing whitespace. */
  function TrimEnd(s: string): (r: string)
    ensures |r| <= |s| && r == s[..|r|]
    ensures AllSpace(s[|r|..])
    ensures r == [] || !IsSpace(r[|r| - 1])
  {
    if |s| > 0 && IsSpace(s[|s| - 1]) then
      var r := TrimEnd(s[..|s| - 1]);
      assert s[..|s| - 1][|r|..] + [s[|s| - 1]] == s[|r|..];
      r
    else s
  }

  /**
   * `s.strip()`: `s` minus its leading and trailing whitespace (the leading run
   * is dropped one character at a time, then the end is trimmed). The result
   * has no whitespace at either end, and it is empty exactly when `s` is all
   * whitespace; `StripIsInner` shows it is the piece of `s` between the two runs.
   */
  function Strip(s: string): (r: string)
    ensures IsStripped(r)
    ensures r == [] <==> AllSpace(s)
  {
    if |s| > 0 && IsSpace(s[0]) then
      var r := Strip(s[1..]);
      assert AllSpace(s) <==> AllSpace(s[1..]) by {
        assert forall k :: 0 < k < |s| ==> s[k] == s[1..][k - 1];
      }
      r
    else
      TrimEnd(s)
  }

  /** The length of the leading whitespace run of `s`. */
  function LeadingSpaces(s: string): (n: nat)
    ensures n <= |s|
  {
    if |s| > 0 && IsSpace(s[0]) then 1 + LeadingSpaces(s[1..]) else 0
  }

  lemma {:induction false} LeadingSpacesAreSpace(s: string)
    ensures AllSpace(s[..LeadingSpaces(s)])
  {
    if |s| > 0 && IsSpace(s[0]) {
      var t := s[1..];
      LeadingSpacesAreSpace(t);
      forall k | 1 <= k <= LeadingSpaces(t)
        ensures IsSpace(s[k])
      {
        assert s[k] == t[..LeadingSpaces(t)][k - 1];
      }
    }
  }

  /**
   * `s.strip()` is the contiguous piece of `s` that starts after the leading
   * whitespace run, with only whitespace after it.
   */
  lemma StripIsInner(s: string)
    ensures var i := LeadingSpaces(s);
      i + |Strip(s)| <= |s| && Strip(s) == s[i..i + |Strip(s)|] && AllSpace(s[..i]) && AllSpace(s[i + |Strip(s)|..])
  {
    LeadingSpacesAreSpace(s);
    StripIsSlice(s);
    StripTrailIsSpace(s);
  }

  lemma {:induction false} StripIsSlice(s: string)
    ensures LeadingSpaces(s) + |Strip(s)| <= |s|
    ensures Strip(s) == s[LeadingSpaces(s)..LeadingSpaces(s) + |Strip(s)|]
  {
    if |s| > 0 && IsSpace(s[0]) {
      var t := s[1..];
      StripIsSlice(t);
      assert t[LeadingSpaces(t)..LeadingSpaces(t) + |Strip(t)|] == s[LeadingSpaces(s)..LeadingSpaces(s) + |Strip(s)|];
    }
  }

  lemma {:induction false} StripTrailIsSpace(s: string)
    ensures LeadingSpaces(s) + |Strip(s)| <= |s|
    ensures AllSpace(s[LeadingSpaces(s) + |Strip(s)|..])
  {
    if |s| > 0 && IsSpace(s[0]) {
      var t := s[1..];
      StripTrailIsSpace(t);
      assert t[LeadingSpaces(t) + |Strip(t)|..] == s[LeadingSpaces(s) + |Strip(s)|..];
    }
  }

  /** Stripping a string that has no whitespace at either end leaves it alone. */
  lemma StripStripped(s: string)
    requires IsStripped(s)
    ensures Strip(s) == s
  {
    if s != [] {
      assert TrimEnd(s) == s;
    }
  }

  /** `strip()` is idempotent. */
  lemma StripIdempotent(s: string)
    ensures Strip(Strip(s)) == Strip(s)
  {
    StripStripped(Strip(s));
  }

  predicate IsDigit(c: char) {
    '0' <= c <= '9'
  }

  predicate AllDigits(s: string) {
    forall k :: 0 <= k < |s| ==> IsDigit(s[k])
  }

  function DigitChar(d: nat): (c: char)
    requires d < 10
    ensures IsDigit(c)
  {
    "0123456789"[d]
  }

  function DigitValue(c: char): (d: nat)
    requires IsDigit(c)
    ensures d < 10 && DigitChar(d) == c
  {
    (c as int - '0' as int) as nat
  }

  /** Python's `str(n)` for a natural number: decimal, no sign, no leading zeros. */
  function Decimal(n: nat): (r: string)
    ensures |r| >= 1 && AllDigits(r)
    ensures r[0] == '0' ==> n == 0
    decreases n
  {
    if n < 10 then [DigitChar(n)] else Decimal(n / 10) + [DigitChar(n % 10)]
  }

  function Zeros(k: nat): (r: string)
    ensures |r| == k && AllDigits(r)
  {
    if k == 0 then [] else ['0'] + Zeros(k - 1)
  }

  /** Python's `f"{n:05d}"` for a natural number: `str(n)` left-padded with '0' to width 5. */
  function Pad5(n: nat): (r: string)
    ensures |r| == if |Decimal(n)| < 5 then 5 else |Decimal(n)|
    ensures AllDigits(r)
  {
    var d := Decimal(n);
    if |d| < 5 then Zeros(5 - |d|) + d else d
  }

  /** The value of a string of decimal digits (leading zeros allowed): the inverse of `Decimal` and `Pad5`. */
  function ParseDecimal(s: string): nat
    requires AllDigits(s)
  {
    if s == [] then 0 else 10 * ParseDecimal(s[..|s| - 1]) + DigitValue(s[|s| - 1])
  }

  lemma {:induction false} ParseDecimalOfDecimal(n: nat)
    ensures ParseDecimal(Decimal(n)) == n
    decreases n
  {
    if n >= 10 {
      var d := Decimal(n);
      assert d[..|d| - 1] == Decimal(n / 10);
      ParseDecimalOfDecimal(n / 10);
    }
  }

  lemma {:induction false} ParseDecimalLeadingZeros(k: nat, s: string)
    requires AllDigits(s)
    ensures ParseDecimal(Zeros(k) + s) == ParseDecimal(s)
    decreases |s|
  {
    var z := Zeros(k);
    if s == [] {
      assert z + s == z;
      ZerosParseToZero(k);
    } else {
      var p := s[..|s| - 1];
      assert (z + s)[..|z + s| - 1] == z + p;
      ParseDecimalLeadingZeros(k, p);
    }
  }

  lemma {:induction false} ZerosParseToZero(k: nat)
    ensures ParseDecimal(Zeros(k)) == 0
  {
    if k > 0 {
      var z := Zeros(k);
      assert z[..|z| - 1] == Zeros(k - 1) by {
        ZerosAreZero(k);
        ZerosAreZero(k - 1);
      }
      ZerosAreZero(k);
      ZerosParseToZero(k - 1);
    }
  }

  lemma {:induction false} ZerosAreZero(k: nat)
    ensures forall i :: 0 <= i < k ==> Zeros(k)[i] == '0'
  {
    if k > 0 {
      ZerosAreZero(k - 1);
    }
  }

  /** `{n:05d}` can be read back: parsing the padded text gives `n`. */
  lemma Pad5RoundTrip(n: nat)
    ensures ParseDecimal(Pad5(n)) == n
  {
    var d := Decimal(n);
    ParseDecimalOfDecimal(n);
    if |d| < 5 {
      ParseDecimalLeadingZeros(5 - |d|, d);
    }
  }

  /** Distinct indices give distinct `{n:05d}` texts. */
  lemma Pad5Injective(i: nat, j: nat)
    requires Pad5(i) == Pad5(j)
    ensures i == j
  {
    Pad5RoundTrip(i);
    Pad5RoundTrip(j);
  }

  /** `str(n)` is injective as well. */
  lemma DecimalInjective(i: nat, j: nat)
    requires Decimal(i) == Decimal(j)
    ensures i == j
  {
    ParseDecimalOfDecimal(i);
    ParseDecimalOfDecimal(j);
  }
}
