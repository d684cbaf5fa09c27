/**
 * `SapiStreamEmitter::parseContentRange`: the unanchored match of
 *   (?P<unit>[\w]+)\s+(?P<first>\d+)-(?P<last>\d+)\/(?P<length>\d+|\*)
 * against a header value. PCRE tries the start positions left to right; at
 * each one every run is greedy and giving characters back never helps (the
 * character after each run is not of the run's class), so a match at a start
 * position is made of the maximal runs from there.
 */
module ContentRange {
  import opened PhpString

  datatype Option<T> = None | Some(value: T)

  /** The fourth element of the parsed tuple: a number, or '*' for an unknown length. */
  datatype CompleteLength = Length(n: nat) | Unknown

  /** The tuple `[unit, first, last, length]`. */
  datatype ContentRange = ContentRange(unit: string, first: nat, last: nat, length: CompleteLength)

  /** `\w` outside Unicode mode. */
  predicate IsWordChar(c: char)
  {
    'a' <= c <= 'z' || 'A' <= c <= 'Z' || IsDigit(c) || c == '_'
  }

  /** `\s`: space, tab, line feed, vertical tab, form feed, carriage return. */
  predicate IsSpace(c: char)
  {
    c == ' ' || c == '\t' || c == '\n' || c == '\U{B}' || c == '\U{C}' || c == '\r'
  }

  /** The character classes of the pattern's runs. */
  datatype CharClass = Word | Space | Digit

  predicate InClass(c: char, cls: CharClass)
  {
    match cls
    case Word => IsWordChar(c)
    case Space => IsSpace(c)
    case Digit => IsDigit(c)
  }

  /** The end of the longest run of characters of class `cls` that starts at `i`. */
  function RunEnd(s: string, i: nat, cls: CharClass): (j: nat)
    requires i <= |s|
    ensures i <= j <= |s|
    ensures forall k :: i <= k < j ==> InClass(s[k], cls)
    ensures j == |s| || !InClass(s[j], cls)
    decreases |s| - i
  {
    if i < |s| && InClass(s[i], cls) then RunEnd(s, i + 1, cls) else i
  }

  /** The run from `i` to `j` is the longest one. */
  lemma {:induction false} RunEndIs(s: string, i: nat, j: nat, cls: CharClass)
    requires i <= j <= |s|
    requires forall k :: i <= k < j ==> InClass(s[k], cls)
    requires j == |s| || !InClass(s[j], cls)
    ensures RunEnd(s, i, cls) == j
    decreases j - i
  {
    if i < j {
      RunEndIs(s, i + 1, j, cls);
    }
  }

  /** The match that starts exactly at `i`, if there is one. */
  function MatchAt(s: string, i: nat): (m: Option<ContentRange>)
    requires i <= |s|
    ensures m.Some? ==> 0 < |m.value.unit| && i + |m.value.unit| <= |s| && s[i..i + |m.value.unit|] == m.value.unit
    ensures m.Some? ==> forall k :: 0 <= k < |m.value.unit| ==> IsWordChar(m.value.unit[k])
  {
    var u := RunEnd(s, i, Word);
    var w := RunEnd(s, u, Space);
    if u == i || w == u then None
    else
      var f := RunEnd(s, w, Digit);
      if f == w || f == |s| || s[f] != '-' then None
      else
        var l := RunEnd(s, f + 1, Digit);
        if l == f + 1 || l == |s| || s[l] != '/' then None
        else
          var t := RunEnd(s, l + 1, Digit);
          var range := ContentRange(s[i..u], DigitsValue(s[w..f]), DigitsValue(s[f + 1..l]), Unknown);
          if t > l + 1 then Some(range.(length := Length(DigitsValue(s[l + 1..t]))))
          else if l + 1 < |s| && s[l + 1] == '*' then Some(range)
          else None
  }

  /** The match attempt at every start position of `s`, the end of `s` included. */
  function Attempts(s: string): (ms: seq<Option<ContentRange>>)
    ensures |ms| == |s| + 1
    ensures forall k :: 0 <= k <= |s| ==> ms[k] == MatchAt(s, k)
  {
    seq(|s| + 1, k requires 0 <= k <= |s| => MatchAt(s, k))
  }

  /** The first successful attempt at or after `i`: PCRE's left-to-right scan. */
  function FirstMatch(ms: seq<Option<ContentRange>>, i: nat): Option<ContentRange>
    requires i <= |ms|
    decreases |ms| - i
  {
    if i == |ms| then None
    else if ms[i].Some? then ms[i]
    else FirstMatch(ms, i + 1)
  }

  /**
   * The scan returns the attempt at the leftmost position that succeeds, and
   * nothing only when no attempt does.
   */
  lemma {:induction false} FirstMatchLeftmost(ms: seq<Option<ContentRange>>, i: nat)
    requires i <= |ms|
    ensures FirstMatch(ms, i).Some? ==>
      exists k :: i <= k < |ms| && ms[k] == FirstMatch(ms, i) && forall j :: i <= j < k ==> ms[j] == None
    ensures FirstMatch(ms, i).None? ==> forall k :: i <= k < |ms| ==> ms[k] == None
    decreases |ms| - i
  {
    if i < |ms| && ms[i].None? {
      FirstMatchLeftmost(ms, i + 1);
      if FirstMatch(ms, i).Some? {
        var k :| i + 1 <= k < |ms| && ms[k] == FirstMatch(ms, i) && forall j :: i + 1 <= j < k ==> ms[j] == None;
        assert forall j :: i <= j < k ==> ms[j] == None;
      }
    }
  }

  /** `parseContentRange`: the parsed tuple, or None (PHP's null) when the pattern does not match. */
  function ParseContentRange(header: string): Option<ContentRange>
  {
    FirstMatch(Attempts(header), 0)
  }

  /**
   * `preg_match` finds the leftmost position where the pattern matches, and
   * fails only when it matches at no position.
   */
  lemma ParseContentRangeLeftmost(header: string)
    ensures ParseContentRange(header).None? <==> forall k :: 0 <= k <= |header| ==> MatchAt(header, k) == None
    ensures ParseContentRange(header).Some? ==>
      exists k :: 0 <= k <= |header| && MatchAt(header, k) == ParseContentRange(header) &&
                  forall j :: 0 <= j < k ==> MatchAt(header, j) == None
  {
    FirstMatchLeftmost(Attempts(header), 0);
  }

  /** The canonical rendering `<unit> <first>-<last>/<length|*>`. */
  function Format(r: ContentRange): string
  {
    r.unit + " " + NatToString(r.first) + "-" + NatToString(r.last) + "/"
      + (match r.length case Length(n) => NatToString(n) case Unknown => "*")
  }

  /** A run given as a slice of `s` whose characters are all of class `cls`, followed by one that is not. */
  lemma RunOfSlice(s: string, i: nat, piece: string, cls: CharClass)
    requires i + |piece| <= |s| && s[i..i + |piece|] == piece
    requires forall k :: 0 <= k < |piece| ==> InClass(piece[k], cls)
    requires i + |piece| == |s| || !InClass(s[i + |piece|], cls)
    ensures RunEnd(s, i, cls) == i + |piece|
  {
    forall k | i <= k < i + |piece|
      ensures InClass(s[k], cls)
    {
      assert s[k] == piece[k - i];
    }
    RunEndIs(s, i, i + |piece|, cls);
  }

  /** The match at 0 read off the ends of its runs. */
  lemma MatchAtRuns(s: string, u: nat, w: nat, f: nat, l: nat, t: nat)
    requires 0 < u < w < f < |s| && s[f] == '-' && f + 1 < l < |s| && s[l] == '/' && l + 1 <= t <= |s|
    requires RunEnd(s, 0, Word) == u && RunEnd(s, u, Space) == w && RunEnd(s, w, Digit) == f
    requires RunEnd(s, f + 1, Digit) == l && RunEnd(s, l + 1, Digit) == t
    requires AllDigits(s[w..f]) && AllDigits(s[f + 1..l]) && AllDigits(s[l + 1..t])
    ensures t > l + 1 ==> MatchAt(s, 0) == Some(ContentRange(s[..u], DigitsValue(s[w..f]),
                                             DigitsValue(s[f + 1..l]), Length(DigitsValue(s[l + 1..t]))))
    ensures t == l + 1 && l + 1 < |s| && s[l + 1] == '*' ==>
              MatchAt(s, 0) == Some(ContentRange(s[..u], DigitsValue(s[w..f]), DigitsValue(s[f + 1..l]), Unknown))
  {
    assert s[0..u] == s[..u];
  }

  /** Where the pieces of the canonical rendering sit. */
  lemma FormatLayout(r: ContentRange) returns (w: nat, f: nat, l: nat)
    requires 0 < |r.unit| && forall k :: 0 <= k < |r.unit| ==> IsWordChar(r.unit[k])
    ensures Layout(Format(r), r, w, f, l)
  {
    var s := Format(r);
    var F, L := NatToString(r.first), NatToString(r.last);
    var T := match r.length case Length(n) => NatToString(n) case Unknown => "*";
    w := |r.unit| + 1;
    f := w + |F|;
    l := f + 1 + |L|;
    SliceOfConcat(r.unit, " ", F + "-" + L + "/" + T);
    SliceOfConcat(r.unit + " ", F, "-" + L + "/" + T);
    SliceOfConcat(r.unit + " " + F, "-", L + "/" + T);
    SliceOfConcat(r.unit + " " + F + "-", L, "/" + T);
    SliceOfConcat(r.unit + " " + F + "-" + L, "/", T);
    SliceOfConcat(r.unit + " " + F + "-" + L + "/", T, "");
  }

  lemma SliceOfConcat(a: string, b: string, c: string)
    ensures (a + b + c)[|a|..|a| + |b|] == b
    ensures (a + b + c)[..|a|] == a
    ensures (a + b + c)[|a|..] == b + c
  {
  }

  /** A value matched at the very start is the one parsed. */
  lemma ParseAtStart(s: string, m: ContentRange)
    requires MatchAt(s, 0) == Some(m)
    ensures ParseContentRange(s) == Some(m)
  {
    assert Attempts(s)[0] == Some(m);
  }

  /** The facts a string laid out as a rendering of `r` needs. */
  predicate Layout(s: string, r: ContentRange, w: nat, f: nat, l: nat)
  {
    0 < |r.unit| && (forall k :: 0 <= k < |r.unit| ==> IsWordChar(r.unit[k])) &&
    |r.unit| + 1 == w <= f < |s| && f + 1 <= l < |s| &&
    s[..|r.unit|] == r.unit && s[|r.unit|..w] == " " && s[w..f] == NatToString(r.first) &&
    s[f] == '-' && s[f + 1..l] == NatToString(r.last) && s[l] == '/' &&
    s[l + 1..] == (match r.length case Length(n) => NatToString(n) case Unknown => "*")
  }

  /** The decimal piece `digits` at `i` is a whole digit run, the next character not being a digit. */
  lemma NumberRun(s: string, i: nat, n: nat, digits: string)
    requires digits == NatToString(n)
    requires i + |digits| <= |s| && s[i..i + |digits|] == digits
    requires i + |digits| == |s| || !IsDigit(s[i + |digits|])
    ensures RunEnd(s, i, Digit) == i + |digits| > i
    ensures AllDigits(s[i..i + |digits|]) && DigitsValue(s[i..i + |digits|]) == n
  {
    DecimalRoundTrip(n);
    RunOfSlice(s, i, digits, Digit);
  }

  /** In a string laid out as a rendering, the unit and the space are whole runs. */
  lemma LayoutUnitRuns(s: string, r: ContentRange, w: nat, f: nat, l: nat)
    requires Layout(s, r, w, f, l)
    ensures RunEnd(s, 0, Word) == |r.unit| && RunEnd(s, |r.unit|, Space) == w
  {
    var F := NatToString(r.first);
    DecimalRoundTrip(r.first);
    assert s[w] == F[0];
    RunOfSlice(s, 0, r.unit, Word);
    RunOfSlice(s, |r.unit|, " ", Space);
  }

  /** In a string laid out as a rendering, the two positions are whole digit runs. */
  lemma LayoutPositionRuns(s: string, r: ContentRange, w: nat, f: nat, l: nat)
    requires Layout(s, r, w, f, l)
    ensures w < f && f + 1 < l
    ensures RunEnd(s, w, Digit) == f && RunEnd(s, f + 1, Digit) == l
    ensures AllDigits(s[w..f]) && DigitsValue(s[w..f]) == r.first
    ensures AllDigits(s[f + 1..l]) && DigitsValue(s[f + 1..l]) == r.last
  {
    NumberRun(s, w, r.first, NatToString(r.first));
    NumberRun(s, f + 1, r.last, NatToString(r.last));
  }

  /** In a string laid out as a rendering, the complete length is a whole digit run or a `*`. */
  lemma LayoutLengthRun(s: string, r: ContentRange, w: nat, f: nat, l: nat)
    requires Layout(s, r, w, f, l)
    ensures r.length.Length? ==>
      l + 1 < |s| && RunEnd(s, l + 1, Digit) == |s| && AllDigits(s[l + 1..|s|]) &&
      DigitsValue(s[l + 1..|s|]) == r.length.n
    ensures r.length.Unknown? ==> l + 1 < |s| && s[l + 1] == '*' && RunEnd(s, l + 1, Digit) == l + 1
  {
    if r.length.Length? {
      assert s[l + 1..|s|] == NatToString(r.length.n);
      NumberRun(s, l + 1, r.length.n, NatToString(r.length.n));
    } else {
      assert s[l + 1] == '*';
      RunOfSlice(s, l + 1, "", Digit);
    }
  }

  /** A string laid out as a rendering of `r` matches at its start, giving `r` back. */
  lemma MatchLayout(s: string, r: ContentRange, w: nat, f: nat, l: nat)
    requires Layout(s, r, w, f, l)
    ensures MatchAt(s, 0) == Some(r)
  {
    LayoutUnitRuns(s, r, w, f, l);
    LayoutPositionRuns(s, r, w, f, l);
    LayoutLengthRun(s, r, w, f, l);
    var u := |r.unit|;
    if r.length.Length? {
      MatchAtRuns(s, u, w, f, l, |s|);
    } else {
      MatchAtRuns(s, u, w, f, l, l + 1);
    }
  }

  /** A well-formed value is parsed back into its unit and numbers, `*` into the unknown length. */
  lemma ParseFormat(r: ContentRange)
    requires 0 < |r.unit| && forall k :: 0 <= k < |r.unit| ==> IsWordChar(r.unit[k])
    ensures ParseContentRange(Format(r)) == Some(r)
  {
    var w, f, l := FormatLayout(r);
    MatchLayout(Format(r), r, w, f, l);
    ParseAtStart(Format(r), r);
  }

  /** A value of the test suite, parsed back from its rendering. */
  lemma ParseExample(unit: string, first: nat, last: nat, length: CompleteLength, header: string)
    requires first < 10 && last < 10 && (length.Length? ==> length.n < 10)
    requires 0 < |unit| && forall k :: 0 <= k < |unit| ==> IsWordChar(unit[k])
    requires header == unit + [' ', DigitChar(first), '-', DigitChar(last), '/',
                               match length case Length(n) => DigitChar(n) case Unknown => '*']
    ensures ParseContentRange(header) == Some(ContentRange(unit, first, last, length))
  {
    var r := ContentRange(unit, first, last, length);
    assert Format(r) == header;
    ParseFormat(r);
  }

  /** The first byte range of the test suite. */
  lemma ParseFirstByteRange()
    ensures ParseContentRange("bytes 0-2/*") == Some(ContentRange("bytes", 0, 2, Unknown))
  {
    var h := "bytes 0-2/*";
    ParseExample("bytes", 0, 2, Unknown, h);
  }

  /** The second byte range of the test suite. */
  lemma ParseSecondByteRange()
    ensures ParseContentRange("bytes 3-6/*") == Some(ContentRange("bytes", 3, 6, Unknown))
  {
    var h := "bytes 3-6/*";
    ParseExample("bytes", 3, 6, Unknown, h);
  }

  /** A range in another unit is parsed too; the emitter then ignores it. */
  lemma ParseOtherUnit()
    ensures ParseContentRange("items 0-0/1") == Some(ContentRange("items", 0, 0, Length(1)))
  {
    var h := "items 0-0/1";
    ParseExample("items", 0, 0, Length(1), h);
  }

  /** The empty header value, as `getHeaderLine` gives for a missing header, is not a range. */
  lemma ParseEmpty()
    ensures ParseContentRange("") == None
  {
    assert MatchAt("", 0) == None;
  }
}
