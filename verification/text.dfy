/**
 * Character classes, Python's `str.strip()` and decimal digit strings, as used by
 * the caption writer and the sentence splitter (app.py).
 */
module Text {

  /**
   * Python's whitespace: the characters for which `str.isspace()` holds. The regular
   * expression class `\s` on a `str` pattern and `str.strip()` both use this set.
   */
  predicate IsSpace(c: char) {
    c in Whitespace
  }

  const Whitespace: set<char> := {
    '\t', '\n', '\U{0B}', '\U{0C}', '\r', '\U{1C}', '\U{1D}', '\U{1E}', '\U{1F}', ' ',
    '\U{85}', '\U{A0}', '\U{1680}', '\U{2000}', '\U{2001}', '\U{2002}', '\U{2003}',
    '\U{2004}', '\U{2005}', '\U{2006}', '\U{2007}', '\U{2008}', '\U{2009}', '\U{200A}',
    '\U{2028}', '\U{2029}', '\U{202F}', '\U{205F}', '\U{3000}'
  }

  /** Every character of `s` is whitespace (the empty string included). */
  predicate IsBlank(s: string) {
    forall i | 0 <= i < |s| :: IsSpace(s[i])
  }

  /** The end of the whitespace run of `s` that starts at `p`: the first non-space at or after `p`. */
  function RunEnd(s: string, p: nat): (e: nat)
    requires p <= |s|
    ensures p <= e <= |s| && IsBlank(s[p..e])
    ensures e == |s| || !IsSpace(s[e])
    ensures p < |s| && IsSpace(s[p]) ==> p < e
    decreases |s| - p
  {
    if p < |s| && IsSpace(s[p]) then RunEnd(s, p + 1) else p
  }

  /** The start of the whitespace run of `s[lo..hi]` that ends at `hi`, not going below `lo`. */
  function RunStart(s: string, lo: nat, hi: nat): (b: nat)
    requires lo <= hi <= |s|
    ensures lo <= b <= hi && forall k | b <= k < hi :: IsSpace(s[k])
    ensures b == lo || !IsSpace(s[b - 1])
    decreases hi - lo
  {
    if lo < hi && IsSpace(s[hi - 1]) then RunStart(s, lo, hi - 1) else hi
  }

  /**
   * Python's `str.strip()`: the leading whitespace run is skipped, then the trailing
   * one, which cannot reach back into the leading one.
   */
  function Strip(s: string): string {
    var i := RunEnd(s, 0);
    s[i..RunStart(s, i, |s|)]
  }

  /**
   * `Strip(s)` is the middle of `s = lead + r + trail`, with `lead` and `trail`
   * whitespace and `r` neither starting nor ending with whitespace.
   */
  lemma StripSpec(s: string)
    ensures var r := Strip(s);
      exists i, j | 0 <= i <= j <= |s| :: r == s[i..j] && IsBlank(s[..i]) && IsBlank(s[j..])
    ensures var r := Strip(s); r == [] || (!IsSpace(r[0]) && !IsSpace(r[|r| - 1]))
  {
    var i := RunEnd(s, 0);
    var j := RunStart(s, i, |s|);
    assert s[..i] == s[0..i];
    BlankSuffix(s, j);
  }

  /** A suffix of whitespace characters is blank. */
  lemma BlankSuffix(s: string, j: nat)
    requires j <= |s| && forall k | j <= k < |s| :: IsSpace(s[k])
    ensures IsBlank(s[j..])
  {
    forall k | 0 <= k < |s| - j ensures IsSpace(s[j..][k]) {
      assert s[j..][k] == s[j + k];
    }
  }

  /** Two blank strings side by side make a blank string. */
  lemma BlankJoin(s: string, i: nat)
    requires i <= |s| && IsBlank(s[..i]) && IsBlank(s[i..])
    ensures IsBlank(s)
  {
    forall k | 0 <= k < |s| ensures IsSpace(s[k]) {
      if k < i {
        assert s[k] == s[..i][k];
      } else {
        assert s[k] == s[i..][k - i];
      }
    }
  }

  /** `s.strip()` is empty exactly when `s` is all whitespace. */
  lemma StripEmpty(s: string)
    ensures Strip(s) == [] <==> IsBlank(s)
  {
    var i := RunEnd(s, 0);
    var j := RunStart(s, i, |s|);
    if j == i {
      assert s[..i] == s[0..i];
      BlankSuffix(s, i);
      BlankJoin(s, i);
    }
  }

  /** `Strip` does nothing to a string that neither starts nor ends with whitespace. */
  lemma StripTrimmed(s: string)
    requires s == [] || (!IsSpace(s[0]) && !IsSpace(s[|s| - 1]))
    ensures Strip(s) == s
  {
    assert s[0..|s|] == s;
  }

  // ---------------------------------------------------------------------------
  // Decimal digit strings: `str(n)` and the zero-padded `{n:0w}` of an f-string.

  predicate IsDigit(c: char) {
    '0' <= c <= '9'
  }

  predicate AllDigits(s: string) {
    forall i | 0 <= i < |s| :: IsDigit(s[i])
  }

  function DigitChar(d: nat): (c: char)
    requires d < 10
    ensures IsDigit(c)
  {
    (48 + d) as char
  }

  function DigitValue(c: char): (d: nat)
    requires IsDigit(c)
    ensures d < 10 && DigitChar(d) == c
  {
    (c as int) - 48
  }

  /** The number a string of decimal digits denotes (leading zeros allowed). */
  function ValueOf(s: string): nat
    requires AllDigits(s)
  {
    if s == [] then 0 else ValueOf(s[..|s| - 1]) * 10 + DigitValue(s[|s| - 1])
  }

  /** Python's `str(n)` for a non-negative integer: no leading zeros. */
  function Decimal(n: nat): (r: string)
    ensures AllDigits(r) && 1 <= |r|
    ensures |r| == 1 <==> n < 10
    ensures |r| > 1 ==> r[0] != '0'
  {
    if n < 10 then [DigitChar(n)] else Decimal(n / 10) + [DigitChar(n % 10)]
  }

  /** The zero-padded field `{n:0w}`: `str(n)` left-padded with `0` to at least `w` characters. */
  function Padded(n: nat, w: nat): (r: string)
    ensures |r| == if |Decimal(n)| < w then w else |Decimal(n)|
  {
    var d := Decimal(n);
    if |d| < w then Zeros(w - |d|) + d else d
  }

  function Zeros(k: nat): (r: string)
    ensures |r| == k && AllDigits(r) && ValueOf(r) == 0
  {
    if k == 0 then [] else Zeros(k - 1) + ['0']
  }

  /** `str(n)` reads back as `n`. */
  lemma {:induction false} DecimalValue(n: nat)
    ensures ValueOf(Decimal(n)) == n
  {
    if n >= 10 {
      var d := Decimal(n);
      assert d[..|d| - 1] == Decimal(n / 10);
      DecimalValue(n / 10);
    }
  }

  /** Leading zeros do not change the value of a digit string. */
  lemma {:induction false} LeadingZerosValue(k: nat, s: string)
    requires AllDigits(s)
    ensures AllDigits(Zeros(k) + s) && ValueOf(Zeros(k) + s) == ValueOf(s)
  {
    if s != [] {
      var t := Zeros(k) + s;
      assert t[..|t| - 1] == Zeros(k) + s[..|s| - 1];
      LeadingZerosValue(k, s[..|s| - 1]);
    } else {
      assert Zeros(k) + s == Zeros(k);
    }
  }

  /** A zero-padded field is all digits. */
  lemma PaddedDigits(n: nat, w: nat)
    ensures AllDigits(Padded(n, w))
  {
    var d := Decimal(n);
    if |d| < w {
      LeadingZerosValue(w - |d|, d);
    }
  }

  /** A zero-padded field reads back as the number it was made from. */
  lemma PaddedValue(n: nat, w: nat)
    ensures AllDigits(Padded(n, w)) && ValueOf(Padded(n, w)) == n
  {
    var d := Decimal(n);
    PaddedDigits(n, w);
    DecimalValue(n);
    if |d| < w {
      assert Padded(n, w) == Zeros(w - |d|) + d;
      LeadingZerosValue(w - |d|, d);
    } else {
      assert Padded(n, w) == d;
    }
  }

  /** The number of digits of `str(n)` for the widths the clock fields use. */
  lemma {:induction false} DecimalLength(n: nat)
    ensures n < 100 ==> |Decimal(n)| <= 2
    ensures n < 1000 ==> |Decimal(n)| <= 3
    ensures n >= 100 ==> |Decimal(n)| >= 3
  {
    if n >= 10 {
      DecimalLength(n / 10);
    }
  }
}
