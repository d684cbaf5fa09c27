/**
 * The PHP string built-ins the emitter relies on, on strings whose characters
 * stand for bytes. Case mapping is ASCII only, as PHP 8 does it.
 */
module PhpString {

  function Min(a: int, b: int): int { if a <= b then a else b }

  function Max(a: int, b: int): int { if a <= b then b else a }

  /** `substr($s, $start, $length)` for a non-negative start (PHP 8 rules). */
  function Substr(s: string, start: nat, length: int): (r: string)
    ensures r <= s[Min(start, |s|)..]
    ensures length >= 0 ==> |r| == Min(length, |s| - Min(start, |s|))
    ensures length < 0 ==> |r| == Max(0, |s| + length - start)
  {
    if start >= |s| then ""
    else if length >= 0 then s[start..Min(start + length, |s|)]
    else if |s| + length <= start then ""
    else s[start..|s| + length]
  }

  /** Two adjacent slices make the slice that spans both. */
  lemma SliceJoin<T>(s: seq<T>, i: nat, j: nat, k: nat)
    requires i <= j <= k <= |s|
    ensures s[i..j] + s[j..k] == s[i..k]
  {
    assert forall n :: 0 <= n < k - i ==> (s[i..j] + s[j..k])[n] == s[i..k][n];
  }

  /** `substr($s, $start)`: everything from `start` on, empty past the end. */
  function SubstrFrom(s: string, start: nat): (r: string)
    ensures |r| == |s| - Min(start, |s|)
    ensures r == s[|s| - |r|..]
  {
    if start >= |s| then "" else s[start..]
  }

  /** Cutting a slice out of a suffix is cutting it out of the whole string, further on. */
  lemma SubstrOfSuffix(s: string, start: nat, offset: nat, length: int)
    requires length >= 0
    ensures Substr(SubstrFrom(s, start), offset, length) == Substr(s, start + offset, length)
  {
    if start < |s| && offset < |s| - start {
      var e := Min(offset + length, |s| - start);
      assert s[start..][offset..e] == s[start + offset..start + e];
    }
  }

  /** `str_replace($from, $to, $s)` for one-character needle and replacement. */
  function ReplaceChar(s: string, from: char, to: char): string
  {
    seq(|s|, k requires 0 <= k < |s| => if s[k] == from then to else s[k])
  }

  /** ASCII `strtoupper` of one character. */
  function ToUpper(c: char): char
  {
    if 'a' <= c <= 'z' then (c as int - 32) as char else c
  }

  /** ASCII `strtolower` of one character. */
  function ToLower(c: char): char
  {
    if 'A' <= c <= 'Z' then (c as int + 32) as char else c
  }

  function Lowercase(s: string): string
  {
    seq(|s|, k requires 0 <= k < |s| => ToLower(s[k]))
  }

  /** The default word delimiters of `ucwords`: space, tab, CR, LF, form feed, vertical tab. */
  predicate IsUcwordsDelimiter(c: char)
  {
    c == ' ' || c == '\t' || c == '\r' || c == '\n' || c == '\U{C}' || c == '\U{B}'
  }

  /** `ucwords($s)`: upper-case the first character and every character after a delimiter. */
  function Ucwords(s: string): string
  {
    seq(|s|, k requires 0 <= k < |s| =>
      if k == 0 || IsUcwordsDelimiter(s[k - 1]) then ToUpper(s[k]) else s[k])
  }

  /** `str_replace` of one character touches each position on its own. */
  lemma ReplaceCharAt(s: string, from: char, to: char, k: nat)
    requires k < |s|
    ensures |ReplaceChar(s, from, to)| == |s|
    ensures ReplaceChar(s, from, to)[k] == if s[k] == from then to else s[k]
  {
  }

  /** `ucwords` upper-cases exactly the word starts and keeps the length. */
  lemma UcwordsAt(s: string, k: nat)
    requires k < |s|
    ensures |Ucwords(s)| == |s|
    ensures Ucwords(s)[k] == if k == 0 || IsUcwordsDelimiter(s[k - 1]) then ToUpper(s[k]) else s[k]
  {
  }

  /** PHP's truthiness of a string used as a condition: only "" and "0" are false. */
  predicate IsTruthy(s: string)
  {
    s != "" && s != "0"
  }

  /** `implode($glue, $pieces)`. */
  function Implode(glue: string, pieces: seq<string>): string
  {
    if pieces == [] then ""
    else if |pieces| == 1 then pieces[0]
    else Implode(glue, pieces[..|pieces| - 1]) + glue + pieces[|pieces| - 1]
  }

  // ---------------------------------------------------------------------------
  // Decimal numbers: PHP's int-to-string conversion and `(int)` of a digit run.

  predicate IsDigit(c: char) { '0' <= c <= '9' }

  predicate AllDigits(s: string) { forall k :: 0 <= k < |s| ==> IsDigit(s[k]) }

  function DigitChar(d: nat): char
    requires d < 10
  {
    ('0' as int + d) as char
  }

  /** The decimal rendering of a natural number, without leading zeros. */
  function NatToString(n: nat): string
    decreases n
  {
    if n < 10 then [DigitChar(n)] else NatToString(n / 10) + [DigitChar(n % 10)]
  }

  /** The decimal rendering of an integer, as PHP's string concatenation does it. */
  function IntToString(i: int): string
  {
    if i < 0 then "-" + NatToString(-i) else NatToString(i)
  }

  /** The value of a run of decimal digits, as `(int)` reads it (leading zeros allowed). */
  function DigitsValue(s: string): nat
    requires AllDigits(s)
  {
    if s == [] then 0
    else DigitsValue(s[..|s| - 1]) * 10 + (s[|s| - 1] as int - '0' as int)
  }

  /** Rendering a number in decimal and reading it back gives the number. */
  lemma {:induction false} DecimalRoundTrip(n: nat)
    ensures |NatToString(n)| > 0 && AllDigits(NatToString(n))
    ensures DigitsValue(NatToString(n)) == n
    decreases n
  {
    var s := NatToString(n);
    if n >= 10 {
      DecimalRoundTrip(n / 10);
      assert s[..|s| - 1] == NatToString(n / 10);
    }
  }
}
