/**
 * What both emitters share: the guard against earlier output, the header
 * emitter with its replace/append policy, header-name canonicalisation and
 * the status line.
 */
module AbstractEmitter {
  import opened PhpString
  import opened SapiHost
  import opened HttpMessage

  datatype HttpEmitterException = HttpEmitterException(message: string)

  /** How a call ends: normally, or with a thrown exception. */
  datatype Outcome<T> = Returned(value: T) | Thrown(exception: HttpEmitterException)

  const HeadersSentMessage: string := "Unable to emit response. Headers already sent"
  const PreviousOutputMessage: string := "Unable to emit response. Output has been emitted previously"

  // ---------------------------------------------------------------------------
  // assertNoPreviousOutput

  /**
   * The guard: throws when the host has sent headers, or when output
   * buffering is active and the buffer already holds something.
   */
  function AssertNoPreviousOutput(headersSent: bool, obLevel: int, obLength: int): (r: Outcome<()>)
    ensures r.Returned? <==> !headersSent && (obLevel <= 0 || obLength <= 0)
    ensures headersSent ==> r == Thrown(HttpEmitterException(HeadersSentMessage))
    ensures !headersSent && r.Thrown? ==> r.exception.message == PreviousOutputMessage
  {
    if headersSent then Thrown(HttpEmitterException(HeadersSentMessage))
    else if obLevel > 0 && obLength > 0 then Thrown(HttpEmitterException(PreviousOutputMessage))
    else Returned(())
  }

  // ---------------------------------------------------------------------------
  // sanitizeHeader

  /** A character after which `sanitizeHeader` starts a new word. */
  predicate IsWordBoundary(c: char)
  {
    c == '-' || IsUcwordsDelimiter(c)
  }

  /**
   * `sanitizeHeader`: hyphens become spaces, `ucwords`, spaces become hyphens.
   * Character by character: hyphens and spaces become hyphens, the first
   * character and every character after a word boundary is upper-cased, and
   * every other character is kept as it is.
   */
  function SanitizeHeader(header: string): string
  {
    ReplaceChar(Ucwords(ReplaceChar(header, '-', ' ')), ' ', '-')
  }

  /** What `sanitizeHeader` makes of the character at `k`. */
  function SanitizedChar(header: string, k: nat): char
    requires k < |header|
  {
    if header[k] == '-' || header[k] == ' ' then '-'
    else if k == 0 || IsWordBoundary(header[k - 1]) then ToUpper(header[k])
    else header[k]
  }

  /** The three steps of `sanitizeHeader` amount to a character-by-character rewrite of the name. */
  lemma SanitizeHeaderChars(header: string)
    ensures |SanitizeHeader(header)| == |header|
    ensures forall k :: 0 <= k < |header| ==> SanitizeHeader(header)[k] == SanitizedChar(header, k)
  {
    var spaced := ReplaceChar(header, '-', ' ');
    var cased := Ucwords(spaced);
    var name := ReplaceChar(cased, ' ', '-');
    forall k | 0 <= k < |header|
      ensures name[k] == SanitizedChar(header, k)
    {
      ReplaceCharAt(header, '-', ' ', k);
      if k > 0 {
        ReplaceCharAt(header, '-', ' ', k - 1);
      }
      UcwordsAt(spaced, k);
      ReplaceCharAt(cased, ' ', '-', k);
    }
  }

  /** Canonicalising a canonical name changes nothing. */
  lemma SanitizeHeaderIdempotent(header: string)
    ensures SanitizeHeader(SanitizeHeader(header)) == SanitizeHeader(header)
  {
    var once := SanitizeHeader(header);
    var twice := SanitizeHeader(once);
    SanitizeHeaderChars(header);
    SanitizeHeaderChars(once);
    forall k | 0 <= k < |header|
      ensures twice[k] == once[k]
    {
      if k > 0 {
        // A boundary in the canonical name stands where the original had a
        // boundary or a space.
        assert once[k - 1] == SanitizedChar(header, k - 1);
      }
    }
  }

  // ---------------------------------------------------------------------------
  // emitHeaders

  /**
   * The `header()` calls for the values of one header, in value order; only
   * the first may replace, and only if `replaceFirst`.
   */
  function ValueCalls(name: string, values: seq<string>, statusCode: int, replaceFirst: bool): seq<HeaderCall>
  {
    if values == [] then []
    else ValueCalls(name, values[..|values| - 1], statusCode, replaceFirst)
         + [HeaderCall(name + ": " + values[|values| - 1], replaceFirst && |values| == 1, statusCode)]
  }

  /** The `header()` calls `emitHeaders` makes, header by header. */
  function HeaderCalls(headers: seq<Header>, statusCode: int): seq<HeaderCall>
  {
    if headers == [] then []
    else
      var last := headers[|headers| - 1];
      var name := SanitizeHeader(last.name);
      HeaderCalls(headers[..|headers| - 1], statusCode) + ValueCalls(name, last.values, statusCode, name != "Set-Cookie")
  }

  /** The number of header values. */
  function ValueCount(headers: seq<Header>): nat
  {
    if headers == [] then 0 else ValueCount(headers[..|headers| - 1]) + |headers[|headers| - 1].values|
  }

  lemma {:induction false} ValueCallsLength(name: string, values: seq<string>, statusCode: int, replaceFirst: bool)
    ensures |ValueCalls(name, values, statusCode, replaceFirst)| == |values|
    decreases |values|
  {
    if values != [] {
      ValueCallsLength(name, values[..|values| - 1], statusCode, replaceFirst);
    }
  }

  lemma {:induction false} ValueCallsAt(name: string, values: seq<string>, statusCode: int, replaceFirst: bool, v: nat)
    requires v < |values|
    ensures |ValueCalls(name, values, statusCode, replaceFirst)| == |values|
    ensures ValueCalls(name, values, statusCode, replaceFirst)[v]
            == HeaderCall(name + ": " + values[v], replaceFirst && v == 0, statusCode)
    decreases |values|
  {
    var init := values[..|values| - 1];
    ValueCallsLength(name, values, statusCode, replaceFirst);
    ValueCallsLength(name, init, statusCode, replaceFirst);
    if v < |init| {
      ValueCallsAt(name, init, statusCode, replaceFirst, v);
    }
  }

  lemma {:induction false} HeaderCallsLength(headers: seq<Header>, statusCode: int)
    ensures |HeaderCalls(headers, statusCode)| == ValueCount(headers)
    decreases |headers|
  {
    if headers != [] {
      var last := headers[|headers| - 1];
      var name := SanitizeHeader(last.name);
      HeaderCallsLength(headers[..|headers| - 1], statusCode);
      ValueCallsLength(name, last.values, statusCode, name != "Set-Cookie");
    }
  }

  /**
   * One `header()` call per value, headers in order and values in order within
   * a header: value `v` of header `h` is call number ValueCount(headers[..h]) + v.
   * Its line is the canonical name, ": " and the value; it carries the status
   * code; it replaces exactly when it is the first value of a header whose
   * canonical name is not Set-Cookie.
   */
  lemma {:induction false} HeaderCallsAt(headers: seq<Header>, statusCode: int, h: nat, v: nat)
    requires h < |headers| && v < |headers[h].values|
    ensures |HeaderCalls(headers, statusCode)| == ValueCount(headers)
    ensures ValueCount(headers[..h]) + v < ValueCount(headers)
    ensures HeaderCalls(headers, statusCode)[ValueCount(headers[..h]) + v]
            == HeaderCall(SanitizeHeader(headers[h].name) + ": " + headers[h].values[v],
                          v == 0 && SanitizeHeader(headers[h].name) != "Set-Cookie",
                          statusCode)
    decreases |headers|
  {
    var init := headers[..|headers| - 1];
    var last := headers[|headers| - 1];
    var name := SanitizeHeader(last.name);
    var head := HeaderCalls(init, statusCode);
    var tail := ValueCalls(name, last.values, statusCode, name != "Set-Cookie");
    assert HeaderCalls(headers, statusCode) == head + tail;
    HeaderCallsLength(init, statusCode);
    ValueCallsLength(name, last.values, statusCode, name != "Set-Cookie");
    assert ValueCount(headers) == ValueCount(init) + |last.values|;
    if h < |init| {
      assert init[..h] == headers[..h];
      assert init[h] == headers[h];
      HeaderCallsAt(init, statusCode, h, v);
      var k := ValueCount(init[..h]) + v;
      assert (head + tail)[k] == head[k];
    } else {
      assert headers[..h] == init;
      ValueCallsAt(name, last.values, statusCode, name != "Set-Cookie", v);
      assert (head + tail)[|head| + v] == tail[v];
    }
  }

  lemma {:induction false} ValueCallsCarryStatus(name: string, values: seq<string>, statusCode: int, replaceFirst: bool)
    ensures forall k :: 0 <= k < |ValueCalls(name, values, statusCode, replaceFirst)| ==>
      ValueCalls(name, values, statusCode, replaceFirst)[k].statusCode == statusCode
    decreases |values|
  {
    if values != [] {
      ValueCallsCarryStatus(name, values[..|values| - 1], statusCode, replaceFirst);
    }
  }

  /** Every call `emitHeaders` makes carries the response's status code. */
  lemma {:induction false} HeaderCallsCarryStatus(headers: seq<Header>, statusCode: int)
    ensures forall k :: 0 <= k < |HeaderCalls(headers, statusCode)| ==>
      HeaderCalls(headers, statusCode)[k].statusCode == statusCode
    decreases |headers|
  {
    if headers != [] {
      var last := headers[|headers| - 1];
      var name := SanitizeHeader(last.name);
      HeaderCallsCarryStatus(headers[..|headers| - 1], statusCode);
      ValueCallsCarryStatus(name, last.values, statusCode, name != "Set-Cookie");
    }
  }

  /** A call replaces only if it is the first value of a header that is not Set-Cookie. */
  lemma {:induction false} HeaderCallsReplaceOnlyFirst(headers: seq<Header>, statusCode: int)
    ensures forall k :: 0 <= k < |HeaderCalls(headers, statusCode)| && HeaderCalls(headers, statusCode)[k].replace ==>
      exists h :: (0 <= h < |headers| && k == ValueCount(headers[..h]) && |headers[h].values| > 0 &&
        SanitizeHeader(headers[h].name) != "Set-Cookie")
    decreases |headers|
  {
    if headers != [] {
      var init := headers[..|headers| - 1];
      var last := headers[|headers| - 1];
      var name := SanitizeHeader(last.name);
      var calls := HeaderCalls(headers, statusCode);
      HeaderCallsReplaceOnlyFirst(init, statusCode);
      HeaderCallsLength(init, statusCode);
      ValueCallsLength(name, last.values, statusCode, name != "Set-Cookie");
      assert calls == HeaderCalls(init, statusCode) + ValueCalls(name, last.values, statusCode, name != "Set-Cookie");
      forall k | 0 <= k < |calls| && calls[k].replace
        ensures exists h :: (0 <= h < |headers| && k == ValueCount(headers[..h]) && |headers[h].values| > 0 &&
          SanitizeHeader(headers[h].name) != "Set-Cookie")
      {
        if k < ValueCount(init) {
          var h :| 0 <= h < |init| && k == ValueCount(init[..h]) && |init[h].values| > 0 &&
            SanitizeHeader(init[h].name) != "Set-Cookie";
          assert init[..h] == headers[..h];
        } else {
          var v := k - ValueCount(init);
          ValueCallsAt(name, last.values, statusCode, name != "Set-Cookie", v);
          assert headers[..|headers| - 1] == init;
        }
      }
    }
  }

  /** Every call `emitHeaders` makes is the line of some value of some response header: it invents none. */
  lemma {:induction false} HeaderCallsFromHeaders(headers: seq<Header>, statusCode: int)
    ensures forall k :: 0 <= k < |HeaderCalls(headers, statusCode)| ==>
      exists h, v :: (0 <= h < |headers| && 0 <= v < |headers[h].values| &&
        HeaderCalls(headers, statusCode)[k].line == SanitizeHeader(headers[h].name) + ": " + headers[h].values[v])
    decreases |headers|
  {
    if headers != [] {
      var init := headers[..|headers| - 1];
      var last := headers[|headers| - 1];
      var name := SanitizeHeader(last.name);
      var calls := HeaderCalls(headers, statusCode);
      HeaderCallsFromHeaders(init, statusCode);
      HeaderCallsLength(init, statusCode);
      ValueCallsLength(name, last.values, statusCode, name != "Set-Cookie");
      assert calls == HeaderCalls(init, statusCode) + ValueCalls(name, last.values, statusCode, name != "Set-Cookie");
      forall k | 0 <= k < |HeaderCalls(headers, statusCode)|
        ensures exists h, v :: (0 <= h < |headers| && 0 <= v < |headers[h].values| &&
          HeaderCalls(headers, statusCode)[k].line == SanitizeHeader(headers[h].name) + ": " + headers[h].values[v])
      {
        if k < ValueCount(init) {
          var h, v :| 0 <= h < |init| && 0 <= v < |init[h].values| &&
            HeaderCalls(init, statusCode)[k].line == SanitizeHeader(init[h].name) + ": " + init[h].values[v];
          assert init[h] == headers[h];
          assert calls[k] == HeaderCalls(init, statusCode)[k];
        } else {
          var v := k - ValueCount(init);
          ValueCallsAt(name, last.values, statusCode, name != "Set-Cookie", v);
          var h := |headers| - 1;
          assert calls[k].line == SanitizeHeader(headers[h].name) + ": " + headers[h].values[v];
        }
      }
    } else {
      assert HeaderCalls(headers, statusCode) == [];
    }
  }

  /**
   * `emitHeaders`: one `header()` call per value, with a `$first` flag that
   * starts true except for Set-Cookie and drops after the first value.
   */
  method EmitHeaders(response: Response, host: Host)
    modifies host
    ensures host.trace == old(host.trace) + HeaderEvents(HeaderCalls(response.headers, response.statusCode))
  {
    var statusCode := response.statusCode;
    var headers := response.headers;
    var i := 0;
    while i < |headers|
      invariant 0 <= i <= |headers|
      invariant host.trace == old(host.trace) + HeaderEvents(HeaderCalls(headers[..i], statusCode))
    {
      ghost var atHeader := host.trace;
      EmitValues(SanitizeHeader(headers[i].name), headers[i].values, statusCode, host);
      EmitHeadersStep(headers, statusCode, i, old(host.trace), atHeader, host.trace);
      i := i + 1;
    }
    assert headers[..i] == headers;
  }

  /** The inner loop of `emitHeaders`: one `header()` call per value of one header. */
  method EmitValues(name: string, values: seq<string>, statusCode: int, host: Host)
    modifies host
    ensures host.trace == old(host.trace) + HeaderEvents(ValueCalls(name, values, statusCode, name != "Set-Cookie"))
  {
    var first := name != "Set-Cookie";
    var j := 0;
    while j < |values|
      invariant 0 <= j <= |values|
      invariant first == (j == 0 && name != "Set-Cookie")
      invariant host.trace == old(host.trace) + HeaderEvents(ValueCalls(name, values[..j], statusCode, name != "Set-Cookie"))
    {
      ghost var before := host.trace;
      host.Header(HeaderCall(name + ": " + values[j], first, statusCode));
      first := false;
      ValueCallsStep(name, values, statusCode, name != "Set-Cookie", j, old(host.trace), before, host.trace);
      j := j + 1;
    }
    assert values[..j] == values;
  }

  lemma ValueCallsStep(name: string, values: seq<string>, statusCode: int, replaceFirst: bool, j: nat,
                       start: seq<Event>, before: seq<Event>, after: seq<Event>)
    requires j < |values|
    requires before == start + HeaderEvents(ValueCalls(name, values[..j], statusCode, replaceFirst))
    requires after == before + [HeaderEvent(HeaderCall(name + ": " + values[j], replaceFirst && j == 0, statusCode))]
    ensures after == start + HeaderEvents(ValueCalls(name, values[..j + 1], statusCode, replaceFirst))
  {
    var call := HeaderCall(name + ": " + values[j], replaceFirst && j == 0, statusCode);
    var done := ValueCalls(name, values[..j], statusCode, replaceFirst);
    assert values[..j + 1][..j] == values[..j];
    assert ValueCalls(name, values[..j + 1], statusCode, replaceFirst) == done + [call];
    HeaderEventsSnoc(done, call);
    ConcatAssoc(start, HeaderEvents(done), [HeaderEvent(call)]);
  }

  lemma EmitHeadersStep(headers: seq<Header>, statusCode: int, i: nat, start: seq<Event>, before: seq<Event>, after: seq<Event>)
    requires i < |headers|
    requires before == start + HeaderEvents(HeaderCalls(headers[..i], statusCode))
    requires after == before + HeaderEvents(ValueCalls(SanitizeHeader(headers[i].name), headers[i].values, statusCode,
                                                       SanitizeHeader(headers[i].name) != "Set-Cookie"))
    ensures after == start + HeaderEvents(HeaderCalls(headers[..i + 1], statusCode))
  {
    var done := HeaderCalls(headers[..i], statusCode);
    var name := SanitizeHeader(headers[i].name);
    var values := ValueCalls(name, headers[i].values, statusCode, name != "Set-Cookie");
    HeaderCallsStep(headers, statusCode, i);
    HeaderEventsAppend(done, values);
    ConcatAssoc(start, HeaderEvents(done), HeaderEvents(values));
  }

  lemma HeaderCallsStep(headers: seq<Header>, statusCode: int, i: nat)
    requires i < |headers|
    ensures HeaderCalls(headers[..i + 1], statusCode)
         == HeaderCalls(headers[..i], statusCode)
            + ValueCalls(SanitizeHeader(headers[i].name), headers[i].values, statusCode,
                         SanitizeHeader(headers[i].name) != "Set-Cookie")
  {
    assert headers[..i + 1][..i] == headers[..i];
  }

  /**
   * From index `k` on, `header` holds no space and every word start is
   * upper-case: `sanitizeHeader` leaves those characters alone.
   */
  predicate CanonicalFrom(header: string, k: nat)
    decreases |header| - k
  {
    k >= |header| ||
    (header[k] != ' ' && ((k == 0 || IsWordBoundary(header[k - 1])) ==> ToUpper(header[k]) == header[k]) &&
     CanonicalFrom(header, k + 1))
  }

  /** From a canonical index on, `sanitizeHeader` keeps every character. */
  lemma {:induction false} CanonicalChars(header: string, k: nat)
    requires CanonicalFrom(header, k)
    ensures forall n :: k <= n < |header| ==> SanitizedChar(header, n) == header[n]
    decreases |header| - k
  {
    if k < |header| {
      CanonicalChars(header, k + 1);
    }
  }

  /** A name that is canonical from its first character is its own canonical form. */
  lemma SanitizeHeaderFixed(header: string)
    requires CanonicalFrom(header, 0)
    ensures SanitizeHeader(header) == header
  {
    SanitizeHeaderChars(header);
    CanonicalChars(header, 0);
  }

  /** "Set-Cookie" is already canonical, so the emitter compares it as written. */
  lemma SetCookieCanonical()
    ensures SanitizeHeader("Set-Cookie") == "Set-Cookie"
  {
    var name := "Set-Cookie";
    assert CanonicalFrom(name, 10);
    assert CanonicalFrom(name, 9);
    assert CanonicalFrom(name, 8);
    assert CanonicalFrom(name, 7);
    assert CanonicalFrom(name, 6);
    assert CanonicalFrom(name, 5);
    assert CanonicalFrom(name, 4);
    assert CanonicalFrom(name, 3);
    assert CanonicalFrom(name, 2);
    assert CanonicalFrom(name, 1);
    assert CanonicalFrom(name, 0);
    SanitizeHeaderFixed(name);
  }

  /** Two Set-Cookie values are both appended: neither replaces the other. */
  lemma MultipleCookieHeaders(first: string, second: string, statusCode: int)
    ensures HeaderCalls([Header("Set-Cookie", [first, second])], statusCode)
         == [HeaderCall("Set-Cookie" + ": " + first, false, statusCode),
             HeaderCall("Set-Cookie" + ": " + second, false, statusCode)]
  {
    var headers := [Header("Set-Cookie", [first, second])];
    SetCookieCanonical();
    assert headers[..0] == [];
    HeaderCallsAt(headers, statusCode, 0, 0);
    HeaderCallsAt(headers, statusCode, 0, 1);
  }

  // ---------------------------------------------------------------------------
  // emitStatusLine

  /** "HTTP/<version> <code>", followed by " <reason>" when the reason phrase is truthy. */
  function StatusLine(protocolVersion: string, statusCode: int, reasonPhrase: string): (line: string)
    ensures "HTTP/" + protocolVersion + " " + IntToString(statusCode) <= line
    ensures IsTruthy(reasonPhrase) ==>
      |line| == 5 + |protocolVersion| + 1 + |IntToString(statusCode)| + 1 + |reasonPhrase| &&
      line[|line| - |reasonPhrase| - 1..] == " " + reasonPhrase
    ensures !IsTruthy(reasonPhrase) ==> line == "HTTP/" + protocolVersion + " " + IntToString(statusCode)
  {
    "HTTP/" + protocolVersion + " " + IntToString(statusCode) + (if IsTruthy(reasonPhrase) then " " + reasonPhrase else "")
  }

  /** The `header()` call `emitStatusLine` makes: the status line, replacing, with the status code. */
  function StatusLineCall(response: Response): HeaderCall
  {
    HeaderCall(StatusLine(response.protocolVersion, response.statusCode, response.reasonPhrase), true, response.statusCode)
  }

  /** The status line of a 202 Accepted response over HTTP/1.1. */
  lemma AcceptedStatusLine()
    ensures StatusLine("1.1", 202, "Accepted") == "HTTP/1.1 202 Accepted"
  {
    assert NatToString(20) == "20";
    assert NatToString(202) == "202";
  }

  method EmitStatusLine(response: Response, host: Host)
    modifies host
    ensures host.trace == old(host.trace) + [HeaderEvent(StatusLineCall(response))]
  {
    host.Header(StatusLineCall(response));
  }
}
