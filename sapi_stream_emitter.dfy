/**
 * `SapiStreamEmitter`: the emitter that streams the body in bounded reads
 * instead of converting it to one string. After the guard, the headers, the
 * status line and a flush, it emits either the byte range named by a
 * `Content-Range: bytes ...` header or the whole body.
 */
module SapiStreamEmitter {
  import opened PhpString
  import opened SapiHost
  import opened TestAssets
  import opened HttpMessage
  import CR = ContentRange
  import opened AbstractEmitter

  /** The chunk size of the reads: the constructor's `$maxBufferLength`. */
  type BufferLength = n: int | n > 0 witness 1

  // ---------------------------------------------------------------------------
  // What each emission writes, as a function of the body stream's state

  /** Where `emitBody` starts reading: 0 after the rewind of a seekable body, otherwise the cursor. */
  function FullBodyStart(position: nat, seekable: bool): nat
  {
    if seekable then 0 else position
  }

  /** The bytes `emitBody` writes: the rest of the body from its start, or its string form. */
  function FullBodyOutput(contents: string, position: nat, seekable: bool, readable: bool): string
  {
    if readable then SubstrFrom(contents, FullBodyStart(position, seekable)) else contents
  }

  /** `$last - $first + 1`. */
  function RangeLength(first: nat, last: nat): int
  {
    last - first + 1
  }

  /**
   * Where the cursor stands once `emitBodyRange` has sought: at `first` when
   * the body is seekable and the stream accepts the offset, otherwise where it was.
   */
  function RangeStart(size: nat, position: nat, seekable: bool, first: nat): nat
  {
    if seekable && first < size then first else position
  }

  /**
   * The bytes `emitBodyRange` writes: the bounded reads from the cursor when the
   * body is readable, else a `substr` of the rest of the body, at offset 0 after
   * a seek and at `first` without one.
   */
  function RangeBodyOutput(contents: string, position: nat, seekable: bool, readable: bool,
                           first: nat, last: nat): string
  {
    var length := RangeLength(first, last);
    var start := RangeStart(|contents|, position, seekable, first);
    if readable then (if length <= 0 then "" else Substr(contents, start, length))
    else Substr(SubstrFrom(contents, start), if seekable then 0 else first, length)
  }

  /** Once `emitBodyRange` has sought, its output and its final cursor depend only on the cursor, the offset and the length. */
  lemma RangeAfterSeek(c: string, p0: nat, seekable: bool, readable: bool, first: nat, last: nat,
                       pos: nat, offset: nat, length: int)
    requires pos == RangeStart(|c|, p0, seekable, first)
    requires offset == (if seekable then 0 else first) && length == RangeLength(first, last)
    ensures RangeBodyOutput(c, p0, seekable, readable, first, last)
         == if !readable then Substr(SubstrFrom(c, pos), offset, length)
            else if length <= 0 then "" else Substr(c, pos, length)
    ensures RangeEnd(c, p0, seekable, readable, first, last)
         == if !readable then Max(pos, |c|)
            else pos + if length <= 0 then 0 else |Substr(c, pos, length)|
  {
  }

  /** The range `emit` acts on: a parsed Content-Range whose unit is exactly "bytes". */
  function ByteRange(headers: seq<Header>): CR.Option<CR.ContentRange>
  {
    var range := CR.ParseContentRange(HeaderLine(headers, "Content-Range"));
    if range.Some? && range.value.unit == "bytes" then range else CR.None
  }

  /** The body bytes `emit` writes for a response with these headers and this body state. */
  function StreamOutput(headers: seq<Header>, contents: string, position: nat, seekable: bool, readable: bool): string
  {
    match ByteRange(headers)
    case Some(r) => RangeBodyOutput(contents, position, seekable, readable, r.first, r.last)
    case None => FullBodyOutput(contents, position, seekable, readable)
  }

  /**
   * Where `emitBody` leaves the cursor: at the end of the contents (or past it,
   * if it already stood there) after the reads, and at the size after the
   * string conversion of a non-readable body.
   */
  function FullBodyEnd(contents: string, position: nat, seekable: bool, readable: bool): nat
  {
    if readable then Max(FullBodyStart(position, seekable), |contents|) else |contents|
  }

  /**
   * Where `emitBodyRange` leaves the cursor: just past the bytes it read when
   * the body is readable, and at the end after `getContents` otherwise.
   */
  function RangeEnd(contents: string, position: nat, seekable: bool, readable: bool, first: nat, last: nat): nat
  {
    var start := RangeStart(|contents|, position, seekable, first);
    if readable then start + |RangeBodyOutput(contents, position, seekable, true, first, last)|
    else Max(start, |contents|)
  }

  /** Where `emit` leaves the body's cursor. */
  function StreamEnd(headers: seq<Header>, contents: string, position: nat, seekable: bool, readable: bool): nat
  {
    match ByteRange(headers)
    case Some(r) => RangeEnd(contents, position, seekable, readable, r.first, r.last)
    case None => FullBodyEnd(contents, position, seekable, readable)
  }

  // ---------------------------------------------------------------------------
  // The calls each emission makes on the body

  /** `emitBody` after the optional rewind: eof/read(bound) calls ending with the eof that stops it, or one string conversion. */
  predicate FullBodyReads(calls: seq<StreamCall>, readable: bool, bound: int)
  {
    if readable then ChunkedReads(calls, bound, true) && |calls| > 0 && calls[|calls| - 1] == EofCall
    else calls == [ToStringCall]
  }

  /** `emitBody`: a rewind first exactly when the body is seekable; never a seek. */
  predicate FullBodyCalls(calls: seq<StreamCall>, seekable: bool, readable: bool, bound: int)
  {
    if seekable then |calls| > 0 && calls[0] == RewindCall && FullBodyReads(calls[1..], readable, bound)
    else FullBodyReads(calls, readable, bound)
  }

  /**
   * The reads of `emitBodyRange`: eof checks and reads of exactly `bound`
   * bytes, possibly followed by one eof check and a last read of what
   * remains, between 1 and `bound - 1` bytes.
   */
  predicate RangeChunkedReads(calls: seq<StreamCall>, bound: int)
  {
    ChunkedReads(calls, bound, true) ||
    (|calls| >= 2 && ChunkedReads(calls[..|calls| - 2], bound, true) && calls[|calls| - 2] == EofCall &&
     calls[|calls| - 1].ReadCall? && 0 < calls[|calls| - 1].length < bound)
  }

  /** `emitBodyRange` after the optional seek: the chunked reads, or one `getContents`. */
  predicate RangeReads(calls: seq<StreamCall>, readable: bool, bound: int)
  {
    if readable then RangeChunkedReads(calls, bound) else calls == [GetContentsCall]
  }

  /** `emitBodyRange`: a seek to `first` first exactly when the body is seekable; never a rewind. */
  predicate RangeCalls(calls: seq<StreamCall>, seekable: bool, readable: bool, first: nat, bound: int)
  {
    if seekable then |calls| > 0 && calls[0] == SeekCall(first) && RangeReads(calls[1..], readable, bound)
    else RangeReads(calls, readable, bound)
  }

  /** The calls `emit` makes on the body: those of the range emission or of the whole-body emission. */
  predicate StreamCalls(headers: seq<Header>, calls: seq<StreamCall>, seekable: bool, readable: bool, bound: int)
  {
    match ByteRange(headers)
    case Some(r) => RangeCalls(calls, seekable, readable, r.first, bound)
    case None => FullBodyCalls(calls, seekable, readable, bound)
  }

  /** A read of up to `bound` bytes at a cursor inside the contents extends the written slice by what it returns. */
  lemma ChunkStep(c: string, p0: nat, pos: nat, data: string, out: seq<Event>, bound: int)
    requires p0 <= pos < |c| && bound > 0
    requires data == Substr(c, pos, bound)
    requires Written(out) == c[Min(p0, |c|)..Min(pos, |c|)]
    ensures 0 < |data| <= bound && pos + |data| <= |c|
    ensures Written(out + [WriteEvent(data)]) == c[Min(p0, |c|)..Min(pos + |data|, |c|)]
  {
    WrittenWrite(out, data);
    assert data == c[pos..pos + |data|];
    SliceJoin(c, p0, pos, pos + |data|);
  }

  /**
   * What the loop of `emitBody` has done once the cursor stands at `pos`: it
   * wrote the contents from `p0` to `pos` in writes of at most `bound` bytes,
   * and its calls are full-size reads, each after an eof check, ending with one.
   */
  predicate ReadToEndState(c: string, p0: nat, pos: nat, out: seq<Event>, issued: seq<StreamCall>, bound: int)
  {
    p0 <= pos && (pos == p0 || pos <= |c|) &&
    WritesOfAtMost(out, bound) && Written(out) == c[Min(p0, |c|)..Min(pos, |c|)] &&
    ChunkedReads(issued, bound, true) && |issued| > 0 && issued[|issued| - 1] == EofCall
  }

  /** The first eof check starts the loop of `emitBody`. */
  lemma ReadToEndStart(c: string, p0: nat, bound: int)
    ensures ReadToEndState(c, p0, p0, [], [EofCall], bound)
  {
    ChunkedReadsSnoc([], EofCall, bound, true);
    assert [] + [EofCall] == [EofCall];
  }

  /** One turn of the loop of `emitBody`: a full-size read, its write, and the next eof check. */
  lemma ReadToEndStep(c: string, p0: nat, pos: nat, data: string, out: seq<Event>, issued: seq<StreamCall>,
                      bound: int)
    requires ReadToEndState(c, p0, pos, out, issued, bound)
    requires pos < |c| && bound > 0 && data == Substr(c, pos, bound)
    ensures pos < pos + |data| <= |c|
    ensures ReadToEndState(c, p0, pos + |data|, out + [WriteEvent(data)], issued + [ReadCall(bound), EofCall], bound)
  {
    ChunkStep(c, p0, pos, data, out, bound);
    WritesOfAtMostWrite(out, data, bound);
    ChunkedReadsSnoc(issued, ReadCall(bound), bound, true);
    ChunkedReadsSnoc(issued + [ReadCall(bound)], EofCall, bound, true);
    assert issued + [ReadCall(bound)] + [EofCall] == issued + [ReadCall(bound), EofCall];
  }

  /** At eof the loop of `emitBody` has written the rest of the contents from `p0`. */
  lemma ReadToEndDone(c: string, p0: nat, pos: nat, out: seq<Event>, issued: seq<StreamCall>, bound: int)
    requires ReadToEndState(c, p0, pos, out, issued, bound) && pos >= |c|
    ensures Written(out) == SubstrFrom(c, p0) && pos == p0 + |SubstrFrom(c, p0)|
    ensures WritesOfAtMost(out, bound) && FullBodyReads(issued, true, bound)
  {
  }

  /**
   * What the loop of `emitBodyRange` has done once the cursor stands at `pos`
   * with `remaining` of the `length` bytes left: it wrote the contents from
   * `p0` to `pos` in writes of at most `bound` bytes, through eof checks and
   * full-size reads.
   */
  predicate RangeLoopState(c: string, p0: nat, pos: nat, length: int, remaining: int,
                           out: seq<Event>, issued: seq<StreamCall>, bound: int)
  {
    p0 <= pos && (pos == p0 || pos <= |c|) &&
    remaining == length - (pos - p0) && (pos > p0 ==> remaining >= 0) &&
    WritesOfAtMost(out, bound) && Written(out) == c[Min(p0, |c|)..Min(pos, |c|)] &&
    ChunkedReads(issued, bound, false)
  }

  lemma RangeLoopStart(c: string, p0: nat, length: int, bound: int)
    ensures RangeLoopState(c, p0, p0, length, length, [], [], bound)
  {
  }

  /** An eof check adds a call and nothing else. */
  lemma RangeEofCheck(c: string, p0: nat, pos: nat, length: int, remaining: int,
                      out: seq<Event>, issued: seq<StreamCall>, bound: int)
    requires RangeLoopState(c, p0, pos, length, remaining, out, issued, bound)
    ensures RangeLoopState(c, p0, pos, length, remaining, out, issued + [EofCall], bound)
  {
    ChunkedReadsSnoc(issued, EofCall, bound, false);
  }

  /** A full-size read while at least that many bytes remain, and its write. */
  lemma RangeChunkStep(c: string, p0: nat, pos: nat, length: int, remaining: int,
                       out: seq<Event>, issued: seq<StreamCall>, bound: int, data: string)
    requires RangeLoopState(c, p0, pos, length, remaining, out, issued, bound)
    requires pos < |c| && 0 < bound <= remaining && data == Substr(c, pos, bound)
    ensures pos < pos + |data| <= |c|
    ensures RangeLoopState(c, p0, pos + |data|, length, remaining - |data|,
                           out + [WriteEvent(data)], issued + [ReadCall(bound)], bound)
  {
    ChunkStep(c, p0, pos, data, out, bound);
    WritesOfAtMostWrite(out, data, bound);
    ChunkedReadsSnoc(issued, ReadCall(bound), bound, false);
  }

  /**
   * The chunk loop of `emitBodyRange` wrote the contents from `p0` to `pos`;
   * the last read of what remains completes the range of `length` bytes from `p0`.
   */
  lemma RangeJoin(c: string, p0: nat, pos: nat, length: int, remaining: int, out: seq<Event>, issued: seq<StreamCall>,
                  tail: seq<Event>, bound: int)
    requires RangeLoopState(c, p0, pos, length, remaining, out, issued, bound)
    requires WritesOfAtMost(tail, bound)
    requires Written(tail) == if remaining <= 0 then "" else Substr(c, pos, remaining)
    ensures Written(out + tail) == if length <= 0 then "" else Substr(c, p0, length)
    ensures WritesOfAtMost(out + tail, bound)
    ensures pos + (if remaining <= 0 then 0 else |Substr(c, pos, remaining)|)
         == p0 + if length <= 0 then 0 else |Substr(c, p0, length)|
  {
    WrittenAppend(out, tail);
    WritesOfAtMostAppend(out, tail, bound);
    RangeTextJoin(c, p0, pos, length, remaining);
    RangeEndJoin(c, p0, pos, length, remaining);
  }

  /** The bytes from `p0` to `pos`, then `substr` of what remains from `pos`, make `substr` of the range from `p0`. */
  lemma RangeTextJoin(c: string, p0: nat, pos: nat, length: int, remaining: int)
    requires p0 <= pos && (pos == p0 || pos <= |c|)
    requires remaining == length - (pos - p0) && (pos > p0 ==> remaining >= 0)
    ensures c[Min(p0, |c|)..Min(pos, |c|)] + (if remaining <= 0 then "" else Substr(c, pos, remaining))
         == if length <= 0 then "" else Substr(c, p0, length)
  {
    if remaining > 0 && pos < |c| {
      var e := Min(pos + remaining, |c|);
      assert Substr(c, pos, remaining) == c[pos..e];
      SliceJoin(c, p0, pos, e);
    }
  }

  /** The cursor after the last read is `p0` moved by the length of the whole range. */
  lemma RangeEndJoin(c: string, p0: nat, pos: nat, length: int, remaining: int)
    requires p0 <= pos && (pos == p0 || pos <= |c|)
    requires remaining == length - (pos - p0) && (pos > p0 ==> remaining >= 0)
    ensures pos + (if remaining <= 0 then 0 else |Substr(c, pos, remaining)|)
         == p0 + if length <= 0 then 0 else |Substr(c, p0, length)|
  {
    RangeTextJoin(c, p0, pos, length, remaining);
    assert |c[Min(p0, |c|)..Min(pos, |c|)]| == pos - p0;
  }

  /**
   * The full-size reads of the loop of `emitBodyRange`, then nothing when
   * nothing remains, an eof check alone at eof, or an eof check and the read
   * of what remains, which the loop left below `bound`.
   */
  lemma RangeChunkedReadsOf(chunks: seq<StreamCall>, last: seq<StreamCall>, bound: int, remaining: int, atEnd: bool)
    requires ChunkedReads(chunks, bound, true)
    requires remaining < bound || atEnd
    requires last == if remaining <= 0 then [] else if atEnd then [EofCall] else [EofCall, ReadCall(remaining)]
    ensures RangeChunkedReads(chunks + last, bound)
  {
    if remaining <= 0 {
      assert chunks + last == chunks;
    } else if atEnd {
      ChunkedReadsSnoc(chunks, EofCall, bound, true);
    } else {
      assert (chunks + last)[..|chunks + last| - 2] == chunks;
    }
  }

  /** The write of the last read of `emitBodyRange`. */
  lemma RemainderWrite(data: string, bound: int)
    requires |data| <= bound
    ensures WritesOfAtMost([WriteEvent(data)], bound) && Written([WriteEvent(data)]) == data
  {
    assert [WriteEvent(data)][..0] == [];
  }

  /** The calls of the last read of `emitBodyRange`: an eof check, then the read, if the body is not at eof. */
  lemma RemainderCalls(remaining: int, bound: int)
    requires 0 < remaining <= bound
    ensures ChunkedReads([EofCall, ReadCall(remaining)], bound, false)
  {
    RemainderEof(bound);
    assert [EofCall, ReadCall(remaining)][..1] == [EofCall];
  }

  /** An eof check alone is a well-formed sequence of range calls. */
  lemma RemainderEof(bound: int)
    ensures ChunkedReads([EofCall], bound, false)
  {
    assert [EofCall][..0] == [];
  }

  lemma {:induction false} ChunkedReadsAppend(a: seq<StreamCall>, b: seq<StreamCall>, bound: int, exact: bool)
    requires ChunkedReads(a, bound, exact) && ChunkedReads(b, bound, exact)
    ensures ChunkedReads(a + b, bound, exact)
    decreases |b|
  {
    if b != [] {
      var b' := b[..|b| - 1];
      ChunkedReadsAppend(a, b', bound, exact);
      assert (a + b)[..|a + b| - 1] == a + b';
    } else {
      assert a + b == a;
    }
  }

  lemma ChunkedReadsSnoc(calls: seq<StreamCall>, call: StreamCall, bound: int, exact: bool)
    requires ChunkedReads(calls, bound, exact) && ChunkedCall(call, bound, exact)
    ensures ChunkedReads(calls + [call], bound, exact)
  {
    assert (calls + [call])[..|calls|] == calls;
  }

  /** The optional rewind followed by the reads makes the calls of `emitBody`. */
  lemma FullBodyCallsOf(prefix: seq<StreamCall>, rest: seq<StreamCall>, seekable: bool, readable: bool, bound: int)
    requires prefix == (if seekable then [RewindCall] else [])
    requires FullBodyReads(rest, readable, bound)
    ensures FullBodyCalls(prefix + rest, seekable, readable, bound)
  {
    if seekable {
      assert (prefix + rest)[1..] == rest;
    } else {
      assert prefix + rest == rest;
    }
  }

  /** The optional seek followed by the reads makes the calls of `emitBodyRange`. */
  lemma RangeCallsOf(prefix: seq<StreamCall>, rest: seq<StreamCall>, seekable: bool, readable: bool, first: nat,
                     bound: int)
    requires prefix == (if seekable then [SeekCall(first)] else [])
    requires RangeReads(rest, readable, bound)
    ensures RangeCalls(prefix + rest, seekable, readable, first, bound)
  {
    if seekable {
      assert (prefix + rest)[1..] == rest;
    } else {
      assert prefix + rest == rest;
    }
  }

  /** Two calls made one after the other, regrouped. */
  lemma AppendPair<T>(a: seq<T>, b: seq<T>, x: T, y: T)
    ensures a + b + [x] + [y] == a + (b + [x, y])
  {
    assert b + [x] + [y] == b + [x, y];
  }

  /** What `emit` hands over before the body: one call per header value, the status line, a flush. */
  function Preamble(response: Response): seq<Event>
  {
    HeaderEvents(HeaderCalls(response.headers, response.statusCode) + [StatusLineCall(response)]) + [FlushEvent]
  }

  /** Whatever the body writes after the preamble, the log holds the preamble's header calls and only the body's bytes. */
  lemma PreambleLogs(before: seq<Event>, response: Response, tail: seq<Event>)
    requires OnlyWrites(tail)
    ensures HeaderLog(before + Preamble(response) + tail)
              == HeaderLog(before) + HeaderCalls(response.headers, response.statusCode) + [StatusLineCall(response)]
    ensures Written(before + Preamble(response) + tail) == Written(before) + Written(tail)
  {
    var calls := HeaderCalls(response.headers, response.statusCode) + [StatusLineCall(response)];
    assert Preamble(response) == HeaderEvents(calls) + Flushed(true);
    ConcatAssoc(before, HeaderEvents(calls), Flushed(true));
    HeadersThenOutputLog(before, calls, true, tail);
    HeadersThenOutputWritten(before, calls, true, tail);
  }

  lemma PreambleEvents(before: seq<Event>, response: Response, after: seq<Event>)
    requires after == before + HeaderEvents(HeaderCalls(response.headers, response.statusCode))
                     + [HeaderEvent(StatusLineCall(response))] + [FlushEvent]
    ensures after == before + Preamble(response)
    ensures after == before + HeaderEvents(HeaderCalls(response.headers, response.statusCode) + [StatusLineCall(response)])
                     + Flushed(true)
  {
    var calls := HeaderCalls(response.headers, response.statusCode);
    var status := StatusLineCall(response);
    HeaderEventsSnoc(calls, status);
    ConcatAssoc(before, HeaderEvents(calls), [HeaderEvent(status)]);
    ConcatAssoc(before, HeaderEvents(calls) + [HeaderEvent(status)], [FlushEvent]);
  }

  /** Dropping calls that are not reads leaves the read requests unchanged. */
  lemma ReadRequestsAfter(call: StreamCall, calls: seq<StreamCall>)
    requires !call.ReadCall?
    ensures ReadRequests([call] + calls) == ReadRequests(calls)
  {
    ReadRequestsAppend([call], calls);
    assert [call][..0] == [];
  }

  /** The reads of `emitBody` keep the tracked peak within the chunk size. */
  lemma FullBodyCallsPeak(calls: seq<StreamCall>, seekable: bool, readable: bool, bound: int)
    requires bound >= 0 && FullBodyCalls(calls, seekable, readable, bound)
    ensures PeakBufferLength(ReadRequests(calls)) <= bound
  {
    var rest := if seekable then calls[1..] else calls;
    if seekable {
      assert calls == [RewindCall] + rest;
      ReadRequestsAfter(RewindCall, rest);
    }
    if readable {
      ChunkedReadsPeak(rest, bound, true);
    } else {
      ReadRequestsAfter(ToStringCall, []);
    }
  }

  /** Full-size reads and one shorter last read keep the tracked peak within the chunk size. */
  lemma RangeChunkedReadsPeak(calls: seq<StreamCall>, bound: int)
    requires bound >= 0 && RangeChunkedReads(calls, bound)
    ensures PeakBufferLength(ReadRequests(calls)) <= bound
  {
    if ChunkedReads(calls, bound, true) {
      ChunkedReadsPeak(calls, bound, true);
    } else {
      var chunks, last := calls[..|calls| - 2], calls[|calls| - 2..];
      assert calls == chunks + last;
      RemainderCalls(calls[|calls| - 1].length, bound);
      assert last == [EofCall, ReadCall(calls[|calls| - 1].length)];
      ChunkedReadsPeak(chunks, bound, true);
      ChunkedReadsPeak(last, bound, false);
      ReadRequestsAppend(chunks, last);
      PeakWithinBound(ReadRequests(calls), bound);
    }
  }

  /** The reads of `emitBodyRange` keep the tracked peak within the chunk size. */
  lemma RangeCallsPeak(calls: seq<StreamCall>, seekable: bool, readable: bool, first: nat, bound: int)
    requires bound >= 0 && RangeCalls(calls, seekable, readable, first, bound)
    ensures PeakBufferLength(ReadRequests(calls)) <= bound
  {
    var rest := if seekable then calls[1..] else calls;
    if seekable {
      assert calls == [SeekCall(first)] + rest;
      ReadRequestsAfter(SeekCall(first), rest);
    }
    if readable {
      RangeChunkedReadsPeak(rest, bound);
    } else {
      ReadRequestsAfter(GetContentsCall, []);
    }
  }

  // ---------------------------------------------------------------------------
  // What the outputs mean

  /** A rewound, non-readable or untouched body is written whole. */
  lemma FullOutputIsContents(contents: string, position: nat, seekable: bool, readable: bool)
    requires !readable || seekable || position == 0
    ensures FullBodyOutput(contents, position, seekable, readable) == contents
  {
  }

  /**
   * When the seek succeeds (or, without one, the cursor stands where the
   * branch expects it), `emitBodyRange` writes exactly bytes `first..last` of
   * the body, cut short at its end.
   */
  lemma RangeOutputIsSubstr(c: string, position: nat, seekable: bool, readable: bool, first: nat, last: nat)
    requires first <= last
    requires seekable ==> first < |c|
    requires !seekable ==> position == if readable then first else 0
    ensures RangeBodyOutput(c, position, seekable, readable, first, last) == Substr(c, first, RangeLength(first, last))
    ensures |c| <= last + 1 ==> RangeBodyOutput(c, position, seekable, readable, first, last) == SubstrFrom(c, first)
  {
    var length := RangeLength(first, last);
    if !readable {
      if seekable {
        SubstrOfSuffix(c, first, 0, length);
      } else {
        SubstrOfSuffix(c, 0, first, length);
      }
    }
  }

  /**
   * A range whose last byte comes at least two before its first: the readable
   * branch writes nothing, while `substr` with the negative length
   * `last - first + 1` drops bytes only from the end of the remaining contents.
   */
  lemma InvertedRangeOutput(c: string, position: nat, seekable: bool, first: nat, last: nat)
    requires last + 1 < first
    ensures RangeBodyOutput(c, position, seekable, true, first, last) == ""
    ensures var rest := SubstrFrom(c, RangeStart(|c|, position, seekable, first));
            var offset := if seekable then 0 else first;
            var out := RangeBodyOutput(c, position, seekable, false, first, last);
            out <= rest[Min(offset, |rest|)..] && |out| == Max(0, |rest| + (last - first + 1) - offset)
  {
  }

  /**
   * A seek to a `first` at or past the end is refused and leaves the cursor
   * where it was, yet `first` is reset to 0: the bytes written are those from
   * the old cursor on, `last - first + 1` of them, whether the body is readable or not.
   */
  lemma RefusedSeekOutput(c: string, position: nat, readable: bool, first: nat, last: nat)
    requires |c| <= first <= last
    ensures RangeStart(|c|, position, true, first) == position
    ensures RangeBodyOutput(c, position, true, readable, first, last)
         == c[Min(position, |c|)..Min(position + (last - first + 1), |c|)]
  {
    if position < |c| {
      assert SubstrFrom(c, position) == c[position..];
      assert c[position..][0..Min(last - first + 1, |c| - position)]
          == c[position..Min(position + (last - first + 1), |c|)];
    }
  }

  /** A single `Content-Range` header naming a byte range selects `emitBodyRange` for that range. */
  lemma SingleRangeHeader(value: string, range: CR.ContentRange, contents: string, position: nat,
                          seekable: bool, readable: bool)
    requires CR.ParseContentRange(value) == CR.Some(range) && range.unit == "bytes"
    ensures StreamOutput([Header("Content-Range", [value])], contents, position, seekable, readable)
         == RangeBodyOutput(contents, position, seekable, readable, range.first, range.last)
  {
    assert HeaderLine([Header("Content-Range", [value])], "Content-Range") == value;
  }

  /** A `Content-Range` of bytes 0-2 (total unknown) on "Hello world" at its end writes "Hel". */
  lemma StreamFirstRange()
    ensures StreamOutput([Header("Content-Range", ["bytes 0-2/*"])], "Hello world", 11, true, true) == "Hel"
  {
    CR.ParseFirstByteRange();
    SingleRangeHeader("bytes 0-2/*", CR.ContentRange("bytes", 0, 2, CR.Unknown), "Hello world", 11, true, true);
    FirstRangeBytes();
  }

  lemma FirstRangeBytes()
    ensures RangeBodyOutput("Hello world", 11, true, true, 0, 2) == "Hel"
  {
    assert "Hello world"[0..3] == "Hel";
  }

  /** A `Content-Range` of bytes 3-6 (total unknown) on "Hello world" at its end writes "lo w". */
  lemma StreamSecondRange()
    ensures StreamOutput([Header("Content-Range", ["bytes 3-6/*"])], "Hello world", 11, true, true) == "lo w"
  {
    CR.ParseSecondByteRange();
    SingleRangeHeader("bytes 3-6/*", CR.ContentRange("bytes", 3, 6, CR.Unknown), "Hello world", 11, true, true);
    SecondRangeBytes();
  }

  lemma SecondRangeBytes()
    ensures RangeBodyOutput("Hello world", 11, true, true, 3, 6) == "lo w"
  {
    assert "Hello world"[3..7] == "lo w";
  }

  /** A range in another unit is ignored: the whole body is written. */
  lemma StreamOtherUnit()
    ensures StreamOutput([Header("Content-Range", ["items 0-0/1"])], "Hello world", 11, true, true) == "Hello world"
  {
    assert HeaderLine([Header("Content-Range", ["items 0-0/1"])], "Content-Range") == "items 0-0/1";
    CR.ParseOtherUnit();
  }

  class Emitter {
    const maxBufferLength: BufferLength

    /** `new SapiStreamEmitter($maxBufferLength = 8192)`. */
    constructor (maxBufferLength: BufferLength := 8192)
      ensures this.maxBufferLength == maxBufferLength
    {
      this.maxBufferLength := maxBufferLength;
    }

    /**
     * `emit`: the guard, the headers, the status line and a flush, then the
     * byte range of a `Content-Range: bytes ...` header, or else the whole body.
     * `tail` is what reaches the host after the flush, `issued` the calls on the body.
     */
    method Emit(response: Response, host: Host) returns (r: Outcome<bool>, ghost tail: seq<Event>, ghost issued: seq<StreamCall>)
      requires response.body.size == |response.body.contents|
      modifies host, response.body
      ensures r.Thrown? <==> AssertNoPreviousOutput(host.headersSent, host.obLevel, host.obLength).Thrown?
      ensures r.Thrown? ==>
        r.exception == AssertNoPreviousOutput(host.headersSent, host.obLevel, host.obLength).exception &&
        host.trace == old(host.trace) &&
        response.body.position == old(response.body.position) && response.body.calls == old(response.body.calls)
      ensures r.Returned? ==> r.value
      ensures r.Returned? ==> host.trace == old(host.trace) + Preamble(response) + tail && OnlyWrites(tail)
      ensures r.Returned? ==>
        Written(tail) == StreamOutput(response.headers, response.body.contents, old(response.body.position),
                                      response.body.seekable, response.body.readable)
      ensures r.Returned? ==>
        if response.body.readable then WritesOfAtMost(tail, maxBufferLength) else |tail| == 1
      ensures r.Returned? ==>
        HeaderLog(host.trace)
          == HeaderLog(old(host.trace)) + HeaderCalls(response.headers, response.statusCode) + [StatusLineCall(response)]
      ensures r.Returned? ==>
        Written(host.trace)
          == Written(old(host.trace)) + StreamOutput(response.headers, response.body.contents, old(response.body.position),
                                                     response.body.seekable, response.body.readable)
      ensures r.Returned? ==>
        response.body.calls == old(response.body.calls) + issued &&
        StreamCalls(response.headers, issued, response.body.seekable, response.body.readable, maxBufferLength) &&
        PeakBufferLength(ReadRequests(issued)) <= maxBufferLength
      ensures r.Returned? ==>
        response.body.position == StreamEnd(response.headers, response.body.contents, old(response.body.position),
                                            response.body.seekable, response.body.readable)
    {
      var guard := AssertNoPreviousOutput(host.headersSent, host.obLevel, host.obLength);
      if guard.Thrown? {
        r, tail, issued := Thrown(guard.exception), [], [];
      } else {
        EmitPreamble(response, host);
        tail, issued := EmitSelectedBody(response, host);
        PreambleLogs(old(host.trace), response, tail);
        r := Returned(true);
      }
    }

    /** The part of `emit` before the body: the headers, the status line and a flush. */
    method EmitPreamble(response: Response, host: Host)
      modifies host
      ensures host.trace == old(host.trace) + Preamble(response)
    {
      EmitHeaders(response, host);
      EmitStatusLine(response, host);
      host.Flush();
      PreambleEvents(old(host.trace), response, host.trace);
    }

    /** The tail of `emit`: the byte range of a `Content-Range: bytes ...` header, or else the whole body. */
    method EmitSelectedBody(response: Response, host: Host) returns (ghost tail: seq<Event>, ghost issued: seq<StreamCall>)
      requires response.body.size == |response.body.contents|
      modifies host, response.body
      ensures host.trace == old(host.trace) + tail && OnlyWrites(tail)
      ensures Written(tail) == StreamOutput(response.headers, response.body.contents, old(response.body.position),
                                            response.body.seekable, response.body.readable)
      ensures if response.body.readable then WritesOfAtMost(tail, maxBufferLength) else |tail| == 1
      ensures response.body.calls == old(response.body.calls) + issued
      ensures StreamCalls(response.headers, issued, response.body.seekable, response.body.readable, maxBufferLength)
      ensures PeakBufferLength(ReadRequests(issued)) <= maxBufferLength
      ensures response.body.position == StreamEnd(response.headers, response.body.contents, old(response.body.position),
                                                  response.body.seekable, response.body.readable)
    {
      var range := CR.ParseContentRange(HeaderLine(response.headers, "Content-Range"));
      if range.Some? && range.value.unit == "bytes" {
        tail, issued := EmitBodyRange(range.value, response, host);
        RangeCallsPeak(issued, response.body.seekable, response.body.readable, range.value.first, maxBufferLength);
      } else {
        tail, issued := EmitBody(response, host);
        FullBodyCallsPeak(issued, response.body.seekable, response.body.readable, maxBufferLength);
      }
      if response.body.readable {
        WritesAreWrites(tail, maxBufferLength);
      }
    }

    /**
     * `emitBody`: rewind a seekable body; write a non-readable body as one
     * string; otherwise read `maxBufferLength` bytes at a time until eof.
     */
    method EmitBody(response: Response, host: Host) returns (ghost out: seq<Event>, ghost issued: seq<StreamCall>)
      requires response.body.size == |response.body.contents|
      modifies host, response.body
      ensures host.trace == old(host.trace) + out
      ensures Written(out) == FullBodyOutput(response.body.contents, old(response.body.position),
                                             response.body.seekable, response.body.readable)
      ensures if response.body.readable then WritesOfAtMost(out, maxBufferLength)
              else out == [WriteEvent(response.body.contents)]
      ensures response.body.calls == old(response.body.calls) + issued
      ensures FullBodyCalls(issued, response.body.seekable, response.body.readable, maxBufferLength)
      ensures response.body.position
           == FullBodyEnd(response.body.contents, old(response.body.position), response.body.seekable, response.body.readable)
    {
      var body := response.body;
      ghost var prefix: seq<StreamCall> := [];
      if body.seekable {
        var rewound := body.Rewind();
        prefix := [RewindCall];
      }
      assert body.position == FullBodyStart(old(body.position), body.seekable);
      ghost var rest: seq<StreamCall>;
      out, rest := EmitFromCursor(body, host);
      ConcatAssoc(old(body.calls), prefix, rest);
      FullBodyCallsOf(prefix, rest, body.seekable, body.readable, maxBufferLength);
      issued := prefix + rest;
    }

    /** `emitBody` once the body is rewound: its string form when not readable, otherwise the read loop. */
    method EmitFromCursor(body: Stream, host: Host) returns (ghost out: seq<Event>, ghost rest: seq<StreamCall>)
      requires body.size == |body.contents|
      modifies host, body
      ensures host.trace == old(host.trace) + out
      ensures Written(out) == FullBodyOutput(body.contents, old(body.position), false, body.readable)
      ensures if body.readable then WritesOfAtMost(out, maxBufferLength) else out == [WriteEvent(body.contents)]
      ensures body.calls == old(body.calls) + rest && FullBodyReads(rest, body.readable, maxBufferLength)
      ensures body.position == FullBodyEnd(body.contents, old(body.position), false, body.readable)
    {
      if !body.readable {
        var contents := body.ToString();
        host.Write(contents);
        out, rest := [WriteEvent(contents)], [ToStringCall];
        WrittenSingle(contents);
      } else {
        out, rest := ReadToEnd(body, host);
      }
    }

    /** The loop of `emitBody`: `read(maxBufferLength)` and write until `eof`. */
    method ReadToEnd(body: Stream, host: Host) returns (ghost out: seq<Event>, ghost issued: seq<StreamCall>)
      requires body.size == |body.contents|
      modifies host, body
      ensures host.trace == old(host.trace) + out
      ensures Written(out) == SubstrFrom(body.contents, old(body.position))
      ensures WritesOfAtMost(out, maxBufferLength)
      ensures body.calls == old(body.calls) + issued && FullBodyReads(issued, true, maxBufferLength)
      ensures body.position == old(body.position) + |SubstrFrom(body.contents, old(body.position))|
    {
      ghost var c, p0 := body.contents, body.position;
      out := [];
      var atEnd := body.Eof();
      issued := [EofCall];
      ReadToEndStart(c, p0, maxBufferLength);
      while !atEnd
        invariant ReadToEndState(c, p0, body.position, out, issued, maxBufferLength)
        invariant atEnd <==> body.position >= |c|
        invariant host.trace == old(host.trace) + out
        invariant body.calls == old(body.calls) + issued
        decreases |c| - body.position
      {
        ghost var pos := body.position;
        ghost var data;
        atEnd, data := CopyChunk(body, host);
        ReadToEndStep(c, p0, pos, data, out, issued, maxBufferLength);
        ConcatAssoc(old(host.trace), out, [WriteEvent(data)]);
        AppendPair(old(body.calls), issued, ReadCall(maxBufferLength), EofCall);
        out := out + [WriteEvent(data)];
        issued := issued + [ReadCall(maxBufferLength), EofCall];
      }
      ReadToEndDone(c, p0, body.position, out, issued, maxBufferLength);
    }

    /** One turn of the loop of `emitBody`: read `maxBufferLength` bytes, write them, check for eof again. */
    method CopyChunk(body: Stream, host: Host) returns (atEnd: bool, ghost data: string)
      modifies host, body
      ensures data == Substr(body.contents, old(body.position), maxBufferLength)
      ensures body.position == old(body.position) + |data|
      ensures atEnd <==> body.position >= body.size
      ensures host.trace == old(host.trace) + [WriteEvent(data)]
      ensures body.calls == old(body.calls) + [ReadCall(maxBufferLength), EofCall]
    {
      var contents := body.Read(maxBufferLength);
      host.Write(contents);
      atEnd := body.Eof();
      data := contents;
    }

    /**
     * `emitBodyRange`: seek a seekable body to `first` (which then counts as 0);
     * write `substr` of the remaining contents for a non-readable body;
     * otherwise read the `last - first + 1` bytes in bounded chunks.
     */
    method EmitBodyRange(range: CR.ContentRange, response: Response, host: Host)
      returns (ghost out: seq<Event>, ghost issued: seq<StreamCall>)
      requires response.body.size == |response.body.contents|
      modifies host, response.body
      ensures host.trace == old(host.trace) + out
      ensures Written(out) == RangeBodyOutput(response.body.contents, old(response.body.position),
                                              response.body.seekable, response.body.readable, range.first, range.last)
      ensures if response.body.readable then WritesOfAtMost(out, maxBufferLength)
              else |out| == 1 && out[0].WriteEvent?
      ensures response.body.calls == old(response.body.calls) + issued
      ensures RangeCalls(issued, response.body.seekable, response.body.readable, range.first, maxBufferLength)
      ensures response.body.position
           == RangeEnd(response.body.contents, old(response.body.position), response.body.seekable,
                       response.body.readable, range.first, range.last)
    {
      var body := response.body;
      var length := RangeLength(range.first, range.last);
      var first: nat;
      ghost var prefix: seq<StreamCall>;
      first, prefix := SeekToFirst(body, range.first);
      ghost var rest: seq<StreamCall>;
      RangeAfterSeek(body.contents, old(body.position), body.seekable, body.readable, range.first, range.last,
                     body.position, first, length);
      out, rest := EmitRangeFromCursor(body, host, first, length);
      ConcatAssoc(old(body.calls), prefix, rest);
      RangeCallsOf(prefix, rest, body.seekable, body.readable, range.first, maxBufferLength);
      issued := prefix + rest;
    }

    /** The start of `emitBodyRange`: a seekable body seeks to `first`, which then counts as offset 0. */
    method SeekToFirst(body: Stream, first: nat) returns (offset: nat, ghost prefix: seq<StreamCall>)
      modifies body
      ensures body.position == RangeStart(body.size, old(body.position), body.seekable, first)
      ensures offset == if body.seekable then 0 else first
      ensures prefix == (if body.seekable then [SeekCall(first)] else []) && body.calls == old(body.calls) + prefix
    {
      offset, prefix := first, [];
      if body.seekable {
        var sought := body.Seek(first);
        offset, prefix := 0, [SeekCall(first)];
      }
    }

    /**
     * `emitBodyRange` once the body has sought: `substr($contents, $first, $length)`
     * of the rest of the body when not readable, otherwise the bounded reads.
     */
    method EmitRangeFromCursor(body: Stream, host: Host, first: nat, length: int)
      returns (ghost out: seq<Event>, ghost rest: seq<StreamCall>)
      requires body.size == |body.contents|
      modifies host, body
      ensures host.trace == old(host.trace) + out
      ensures Written(out)
           == if !body.readable then Substr(SubstrFrom(body.contents, old(body.position)), first, length)
              else if length <= 0 then "" else Substr(body.contents, old(body.position), length)
      ensures if body.readable then WritesOfAtMost(out, maxBufferLength) else |out| == 1 && out[0].WriteEvent?
      ensures body.calls == old(body.calls) + rest && RangeReads(rest, body.readable, maxBufferLength)
      ensures body.position
           == if !body.readable then Max(old(body.position), |body.contents|)
              else old(body.position) + if length <= 0 then 0 else |Substr(body.contents, old(body.position), length)|
    {
      if !body.readable {
        var contents := body.GetContents();
        var slice := Substr(contents, first, length);
        host.Write(slice);
        out, rest := [WriteEvent(slice)], [GetContentsCall];
        WrittenSingle(slice);
      } else {
        out, rest := ReadBounded(body, host, length);
      }
    }

    /**
     * The readable part of `emitBodyRange`: read `maxBufferLength` bytes while
     * at least that many remain and the body is not at eof, then read what
     * remains unless nothing does or the body is at eof.
     */
    method ReadBounded(body: Stream, host: Host, length: int) returns (ghost out: seq<Event>, ghost issued: seq<StreamCall>)
      requires body.size == |body.contents|
      modifies host, body
      ensures host.trace == old(host.trace) + out
      ensures Written(out) == if length <= 0 then "" else Substr(body.contents, old(body.position), length)
      ensures WritesOfAtMost(out, maxBufferLength)
      ensures body.calls == old(body.calls) + issued && RangeChunkedReads(issued, maxBufferLength)
      ensures body.position == old(body.position) + if length <= 0 then 0 else |Substr(body.contents, old(body.position), length)|
    {
      ghost var p0 := body.position;
      var remaining;
      remaining, out, issued := ReadFullChunks(body, host, length);
      ghost var pos := body.position;
      ghost var tailOut, tailIssued := ReadRemainder(body, host, remaining);
      RangeJoin(body.contents, p0, pos, length, remaining, out, issued, tailOut, maxBufferLength);
      RangeChunkedReadsOf(issued, tailIssued, maxBufferLength, remaining, pos >= body.size);
      ConcatAssoc(old(host.trace), out, tailOut);
      ConcatAssoc(old(body.calls), issued, tailIssued);
      out, issued := out + tailOut, issued + tailIssued;
    }

    /** The end of `emitBodyRange`: unless nothing remains or the body is at eof, read and write what remains. */
    method ReadRemainder(body: Stream, host: Host, remaining: int)
      returns (ghost out: seq<Event>, ghost issued: seq<StreamCall>)
      requires remaining < maxBufferLength || body.position >= body.size
      requires body.size == |body.contents|
      modifies host, body
      ensures host.trace == old(host.trace) + out && WritesOfAtMost(out, maxBufferLength)
      ensures Written(out) == if remaining <= 0 then "" else Substr(body.contents, old(body.position), remaining)
      ensures body.position
           == old(body.position) + if remaining <= 0 then 0 else |Substr(body.contents, old(body.position), remaining)|
      ensures body.calls == old(body.calls) + issued && ChunkedReads(issued, maxBufferLength, false)
      ensures issued == if remaining <= 0 then []
                        else if old(body.position) >= body.size then [EofCall]
                        else [EofCall, ReadCall(remaining)]
    {
      if remaining > 0 {
        var atEnd := body.Eof();
        if !atEnd {
          var contents := body.Read(remaining);
          host.Write(contents);
          RemainderWrite(contents, maxBufferLength);
          RemainderCalls(remaining, maxBufferLength);
          ConcatAssoc(old(body.calls), [EofCall], [ReadCall(remaining)]);
          out, issued := [WriteEvent(contents)], [EofCall, ReadCall(remaining)];
        } else {
          RemainderEof(maxBufferLength);
          out, issued := [], [EofCall];
        }
      } else {
        out, issued := [], [];
      }
    }

    /**
     * The loop of `emitBodyRange`: while at least `maxBufferLength` bytes remain
     * and the body is not at eof, read that many and write them. Returns what remains.
     */
    method ReadFullChunks(body: Stream, host: Host, length: int)
      returns (remaining: int, ghost out: seq<Event>, ghost issued: seq<StreamCall>)
      requires body.size == |body.contents|
      modifies host, body
      ensures RangeLoopState(body.contents, old(body.position), body.position, length, remaining, out, issued, maxBufferLength)
      ensures remaining < maxBufferLength || body.position >= body.size
      ensures host.trace == old(host.trace) + out
      ensures body.calls == old(body.calls) + issued && ChunkedReads(issued, maxBufferLength, true)
    {
      ghost var c, p0 := body.contents, body.position;
      out, issued := [], [];
      remaining := length;
      RangeLoopStart(c, p0, length, maxBufferLength);
      while true
        invariant RangeLoopState(c, p0, body.position, length, remaining, out, issued, maxBufferLength)
        invariant host.trace == old(host.trace) + out
        invariant body.calls == old(body.calls) + issued && ChunkedReads(issued, maxBufferLength, true)
        decreases |c| - body.position
      {
        if remaining < maxBufferLength {
          break;
        }
        var atEnd := body.Eof();
        RangeEofCheck(c, p0, body.position, length, remaining, out, issued, maxBufferLength);
        ConcatAssoc(old(body.calls), issued, [EofCall]);
        ChunkedReadsSnoc(issued, EofCall, maxBufferLength, true);
        issued := issued + [EofCall];
        if atEnd {
          break;
        }
        ghost var pos := body.position;
        var contents := body.Read(maxBufferLength);
        host.Write(contents);
        RangeChunkStep(c, p0, pos, length, remaining, out, issued, maxBufferLength, contents);
        ConcatAssoc(old(host.trace), out, [WriteEvent(contents)]);
        ConcatAssoc(old(body.calls), issued, [ReadCall(maxBufferLength)]);
        ChunkedReadsSnoc(issued, ReadCall(maxBufferLength), maxBufferLength, true);
        remaining := remaining - |contents|;
        out := out + [WriteEvent(contents)];
        issued := issued + [ReadCall(maxBufferLength)];
      }
    }
  }
}
