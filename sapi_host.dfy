/**
 * The host runtime (the SAPI) as the emitter sees it: the `headers_sent()`
 * and output-buffer signals it reads, and an append-only trace of what it
 * hands over -- `header()` calls, `echo`ed bytes and `flush()`.
 */
module SapiHost {

  /** One call `header($line, $replace, $statusCode)`. */
  datatype HeaderCall = HeaderCall(line: string, replace: bool, statusCode: int)

  datatype Event =
    | HeaderEvent(call: HeaderCall)
    | WriteEvent(bytes: string)
    | FlushEvent

  /** Regrouping an append, spelled out where the solver would search for it. */
  lemma ConcatAssoc<T>(a: seq<T>, b: seq<T>, c: seq<T>)
    ensures a + b + c == a + (b + c)
  {
  }

  /** The header calls of a trace, in order. */
  function HeaderLog(trace: seq<Event>): seq<HeaderCall>
  {
    if trace == [] then []
    else HeaderLog(trace[..|trace| - 1])
         + (match trace[|trace| - 1] case HeaderEvent(c) => [c] case _ => [])
  }

  /** The bytes a trace writes to the output, in order. */
  function Written(trace: seq<Event>): string
  {
    if trace == [] then ""
    else Written(trace[..|trace| - 1])
         + (match trace[|trace| - 1] case WriteEvent(b) => b case _ => "")
  }

  /** The events that hand the given header calls over, one each. */
  function HeaderEvents(calls: seq<HeaderCall>): (events: seq<Event>)
    ensures |events| == |calls|
  {
    if calls == [] then []
    else HeaderEvents(calls[..|calls| - 1]) + [HeaderEvent(calls[|calls| - 1])]
  }

  lemma HeaderEventsSnoc(calls: seq<HeaderCall>, call: HeaderCall)
    ensures HeaderEvents(calls + [call]) == HeaderEvents(calls) + [HeaderEvent(call)]
  {
    assert (calls + [call])[..|calls|] == calls;
  }

  lemma {:induction false} HeaderEventsAppend(a: seq<HeaderCall>, b: seq<HeaderCall>)
    ensures HeaderEvents(a + b) == HeaderEvents(a) + HeaderEvents(b)
    decreases |b|
  {
    if b == [] {
      assert a + b == a;
    } else {
      var b' := b[..|b| - 1];
      assert (a + b)[..|a + b| - 1] == a + b';
      HeaderEventsAppend(a, b');
    }
  }

  /** Every event of the trace is an output write of at most `bound` bytes. */
  predicate WritesOfAtMost(trace: seq<Event>, bound: int)
  {
    trace == [] ||
    (WritesOfAtMost(trace[..|trace| - 1], bound) &&
     trace[|trace| - 1].WriteEvent? && |trace[|trace| - 1].bytes| <= bound)
  }

  /** Every event of the trace is an output write. */
  predicate OnlyWrites(trace: seq<Event>)
  {
    trace == [] || (OnlyWrites(trace[..|trace| - 1]) && trace[|trace| - 1].WriteEvent?)
  }

  /** One more write within the bound keeps the trace within it. */
  lemma WritesOfAtMostWrite(trace: seq<Event>, bytes: string, bound: int)
    requires WritesOfAtMost(trace, bound) && |bytes| <= bound
    ensures WritesOfAtMost(trace + [WriteEvent(bytes)], bound)
  {
    assert (trace + [WriteEvent(bytes)])[..|trace|] == trace;
  }

  lemma {:induction false} WritesOfAtMostAppend(a: seq<Event>, b: seq<Event>, bound: int)
    requires WritesOfAtMost(a, bound) && WritesOfAtMost(b, bound)
    ensures WritesOfAtMost(a + b, bound)
    decreases |b|
  {
    if b != [] {
      var b' := b[..|b| - 1];
      WritesOfAtMostAppend(a, b', bound);
      assert (a + b)[..|a + b| - 1] == a + b';
    } else {
      assert a + b == a;
    }
  }

  lemma {:induction false} WritesAreWrites(trace: seq<Event>, bound: int)
    requires WritesOfAtMost(trace, bound)
    ensures OnlyWrites(trace)
    decreases |trace|
  {
    if trace != [] {
      WritesAreWrites(trace[..|trace| - 1], bound);
    }
  }

  /** The recursive definition says what it should: every event is a write of at most `bound` bytes. */
  lemma {:induction false} WritesOfAtMostAll(trace: seq<Event>, bound: int)
    ensures WritesOfAtMost(trace, bound) <==>
            forall k :: 0 <= k < |trace| ==> trace[k].WriteEvent? && |trace[k].bytes| <= bound
    decreases |trace|
  {
    if trace != [] {
      var init := trace[..|trace| - 1];
      WritesOfAtMostAll(init, bound);
      assert forall k :: 0 <= k < |init| ==> init[k] == trace[k];
    }
  }

  lemma {:induction false} HeaderLogAppend(a: seq<Event>, b: seq<Event>)
    ensures HeaderLog(a + b) == HeaderLog(a) + HeaderLog(b)
    decreases |b|
  {
    if b == [] {
      assert a + b == a;
    } else {
      var b' := b[..|b| - 1];
      assert (a + b)[..|a + b| - 1] == a + b';
      assert (a + b)[|a + b| - 1] == b[|b| - 1];
      HeaderLogAppend(a, b');
      var last := match b[|b| - 1] case HeaderEvent(c) => [c] case _ => [];
      assert HeaderLog(a + b) == HeaderLog(a + b') + last;
      ConcatAssoc(HeaderLog(a), HeaderLog(b'), last);
    }
  }

  lemma {:induction false} WrittenAppend(a: seq<Event>, b: seq<Event>)
    ensures Written(a + b) == Written(a) + Written(b)
    decreases |b|
  {
    if b == [] {
      assert a + b == a;
    } else {
      var b' := b[..|b| - 1];
      assert (a + b)[..|a + b| - 1] == a + b';
      assert (a + b)[|a + b| - 1] == b[|b| - 1];
      WrittenAppend(a, b');
      var last := match b[|b| - 1] case WriteEvent(bytes) => bytes case _ => "";
      assert Written(a + b) == Written(a + b') + last;
      ConcatAssoc(Written(a), Written(b'), last);
    }
  }

  /** One more output write adds its bytes at the end of what the trace writes. */
  lemma WrittenWrite(trace: seq<Event>, bytes: string)
    ensures Written(trace + [WriteEvent(bytes)]) == Written(trace) + bytes
  {
    assert (trace + [WriteEvent(bytes)])[..|trace|] == trace;
  }

  /** A single output write writes its bytes. */
  lemma WrittenSingle(bytes: string)
    ensures Written([WriteEvent(bytes)]) == bytes
  {
    assert [WriteEvent(bytes)][..0] == [];
  }

  /** Handing over header calls writes no byte and logs exactly those calls. */
  lemma {:induction false} HeaderEventsLogged(calls: seq<HeaderCall>)
    ensures HeaderLog(HeaderEvents(calls)) == calls
    ensures Written(HeaderEvents(calls)) == ""
    decreases |calls|
  {
    if calls != [] {
      var e := HeaderEvents(calls);
      assert e[..|e| - 1] == HeaderEvents(calls[..|calls| - 1]);
      HeaderEventsLogged(calls[..|calls| - 1]);
    }
  }

  /** A trace of output writes logs no header call. */
  lemma {:induction false} WritesLogNoHeader(trace: seq<Event>)
    requires OnlyWrites(trace)
    ensures HeaderLog(trace) == []
    decreases |trace|
  {
    if trace != [] {
      WritesLogNoHeader(trace[..|trace| - 1]);
    }
  }

  /** The events of an optional `flush()`. */
  function Flushed(flushed: bool): seq<Event>
  {
    if flushed then [FlushEvent] else []
  }

  /**
   * A trace that hands over header calls, perhaps flushes, then only writes
   * logs exactly those calls.
   */
  lemma HeadersThenOutputLog(before: seq<Event>, calls: seq<HeaderCall>, flushed: bool, tail: seq<Event>)
    requires OnlyWrites(tail)
    ensures HeaderLog(before + HeaderEvents(calls) + Flushed(flushed) + tail) == HeaderLog(before) + calls
  {
    var flush := Flushed(flushed);
    var handed := before + HeaderEvents(calls);
    HeaderEventsLogged(calls);
    HeaderLogAppend(before, HeaderEvents(calls));
    assert HeaderLog(handed) == HeaderLog(before) + calls;
    HeaderLogAppend(handed, flush);
    assert HeaderLog(flush) == [] by {
      if flushed {
        assert flush[..0] == [];
      }
    }
    WritesLogNoHeader(tail);
    HeaderLogAppend(handed + flush, tail);
  }

  /** Header calls and a flush write nothing: the trace writes what its remaining events write. */
  lemma HeadersThenOutputWritten(before: seq<Event>, calls: seq<HeaderCall>, flushed: bool, tail: seq<Event>)
    ensures Written(before + HeaderEvents(calls) + Flushed(flushed) + tail) == Written(before) + Written(tail)
  {
    var flush := Flushed(flushed);
    var handed := before + HeaderEvents(calls);
    HeaderEventsLogged(calls);
    WrittenAppend(before, HeaderEvents(calls));
    assert Written(handed) == Written(before);
    WrittenAppend(handed, flush);
    assert Written(flush) == "" by {
      if flushed {
        assert flush[..0] == [];
      }
    }
    WrittenAppend(handed + flush, tail);
  }

  class Host {
    /** What `headers_sent()` answers. */
    const headersSent: bool
    /** What `ob_get_level()` answers. */
    const obLevel: int
    /** What `ob_get_length()` answers (0 standing for PHP's `false`). */
    const obLength: int
    /** Everything handed to the host so far, oldest first. */
    var trace: seq<Event>

    constructor (headersSent: bool, obLevel: int, obLength: int)
      ensures this.headersSent == headersSent && this.obLevel == obLevel && this.obLength == obLength
      ensures trace == []
    {
      this.headersSent := headersSent;
      this.obLevel := obLevel;
      this.obLength := obLength;
      trace := [];
    }

    /** PHP's `header($line, $replace, $statusCode)`. */
    method Header(call: HeaderCall)
      modifies this
      ensures trace == old(trace) + [HeaderEvent(call)]
    {
      trace := trace + [HeaderEvent(call)];
    }

    /** PHP's `echo $bytes`. */
    method Write(bytes: string)
      modifies this
      ensures trace == old(trace) + [WriteEvent(bytes)]
    {
      trace := trace + [WriteEvent(bytes)];
    }

    /** PHP's `flush()`. */
    method Flush()
      modifies this
      ensures trace == old(trace) + [FlushEvent]
    {
      trace := trace + [FlushEvent];
    }
  }
}
