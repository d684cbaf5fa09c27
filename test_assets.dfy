/**
 * The in-memory body stream of the test suite, `TestAssets\Stream`: a string
 * of contents, a declared size and a mutable read cursor. The capability flags
 * `seekable` and `readable` are those the PSR-7 stream mock around it answers,
 * and `calls` records, in order, every call the emitter makes on the body: it
 * is what the mock's call expectations and the peak-length tracker observe.
 */
module TestAssets {
  import opened PhpString

  datatype StreamCall =
    | ToStringCall
    | TellCall
    | EofCall
    | SeekCall(offset: nat)
    | RewindCall
    | ReadCall(length: int)
    | GetContentsCall

  /** The lengths passed to `read`, in order: what the peak tracker is given. */
  function ReadRequests(calls: seq<StreamCall>): seq<int>
  {
    if calls == [] then []
    else ReadRequests(calls[..|calls| - 1])
         + (match calls[|calls| - 1] case ReadCall(n) => [n] case _ => [])
  }

  /** The tracker closure of the tests: starts at 0 and keeps the largest length seen. */
  function PeakBufferLength(requests: seq<int>): int
  {
    if requests == [] then 0
    else Max(PeakBufferLength(requests[..|requests| - 1]), requests[|requests| - 1])
  }

  /**
   * Every call is `eof` or `read`; every `read` asks for exactly `bound` bytes
   * when `exact`, and otherwise for between 1 and `bound` bytes.
   */
  predicate ChunkedReads(calls: seq<StreamCall>, bound: int, exact: bool)
  {
    calls == [] || (ChunkedReads(calls[..|calls| - 1], bound, exact) && ChunkedCall(calls[|calls| - 1], bound, exact))
  }

  predicate ChunkedCall(call: StreamCall, bound: int, exact: bool)
  {
    call == EofCall || (call.ReadCall? && if exact then call.length == bound else 0 < call.length <= bound)
  }

  /** The recursive definition says what it should: every call is `eof` or a bounded `read`. */
  lemma {:induction false} ChunkedReadsAll(calls: seq<StreamCall>, bound: int, exact: bool)
    ensures ChunkedReads(calls, bound, exact) <==> forall k :: 0 <= k < |calls| ==> ChunkedCall(calls[k], bound, exact)
    decreases |calls|
  {
    if calls != [] {
      var init := calls[..|calls| - 1];
      ChunkedReadsAll(init, bound, exact);
      assert forall k :: 0 <= k < |init| ==> init[k] == calls[k];
    }
  }

  /** The tracked peak stays within a non-negative bound exactly when every request does. */
  lemma {:induction false} PeakWithinBound(requests: seq<int>, bound: int)
    requires bound >= 0
    ensures PeakBufferLength(requests) <= bound <==>
            forall k :: 0 <= k < |requests| ==> requests[k] <= bound
    decreases |requests|
  {
    if requests != [] {
      var init := requests[..|requests| - 1];
      PeakWithinBound(init, bound);
      assert forall k :: 0 <= k < |init| ==> init[k] == requests[k];
    }
  }

  /** Reads issued in bounded chunks keep the tracked peak within the chunk bound. */
  lemma {:induction false} ChunkedReadsPeak(calls: seq<StreamCall>, bound: int, exact: bool)
    requires bound >= 0 && ChunkedReads(calls, bound, exact)
    ensures forall k :: 0 <= k < |ReadRequests(calls)| ==> ReadRequests(calls)[k] <= bound
    ensures PeakBufferLength(ReadRequests(calls)) <= bound
    decreases |calls|
  {
    if calls != [] {
      ChunkedReadsPeak(calls[..|calls| - 1], bound, exact);
    }
    PeakWithinBound(ReadRequests(calls), bound);
  }

  lemma {:induction false} ReadRequestsAppend(a: seq<StreamCall>, b: seq<StreamCall>)
    ensures ReadRequests(a + b) == ReadRequests(a) + ReadRequests(b)
    decreases |b|
  {
    if b == [] {
      assert a + b == a;
    } else {
      var b' := b[..|b| - 1];
      assert (a + b)[..|a + b| - 1] == a + b';
      ReadRequestsAppend(a, b');
    }
  }

  class Stream {
    const contents: string
    const size: nat
    var position: nat
    const seekable: bool
    const readable: bool
    var calls: seq<StreamCall>

    constructor (contents: string, size: nat, position: nat, seekable: bool, readable: bool)
      ensures this.contents == contents && this.size == size && this.position == position
      ensures this.seekable == seekable && this.readable == readable
      ensures calls == []
    {
      this.contents := contents;
      this.size := size;
      this.position := position;
      this.seekable := seekable;
      this.readable := readable;
      calls := [];
    }

    /** `handleToString`: the whole contents whatever the cursor; the cursor moves to the end. */
    method ToString() returns (s: string)
      modifies this
      ensures s == contents && position == size
      ensures calls == old(calls) + [ToStringCall]
    {
      calls := calls + [ToStringCall];
      position := size;
      s := contents;
    }

    /** `handleTell`. */
    method Tell() returns (p: nat)
      modifies this`calls
      ensures p == position
      ensures calls == old(calls) + [TellCall]
    {
      calls := calls + [TellCall];
      p := position;
    }

    /** `handleEof`: at or past the declared size. */
    method Eof() returns (atEnd: bool)
      modifies this`calls
      ensures atEnd <==> position >= size
      ensures calls == old(calls) + [EofCall]
    {
      calls := calls + [EofCall];
      atEnd := position >= size;
    }

    /** `handleSeek`: refuses an offset at or past the declared size. */
    method Seek(offset: nat) returns (ok: bool)
      modifies this
      ensures ok <==> offset < size
      ensures position == if ok then offset else old(position)
      ensures calls == old(calls) + [SeekCall(offset)]
    {
      calls := calls + [SeekCall(offset)];
      if offset >= size {
        return false;
      }
      position := offset;
      ok := true;
    }

    /** `handleRewind`. */
    method Rewind() returns (ok: bool)
      modifies this
      ensures ok && position == 0
      ensures calls == old(calls) + [RewindCall]
    {
      calls := calls + [RewindCall];
      position := 0;
      ok := true;
    }

    /** `handleRead`: reports `length` to the tracker, returns the next bytes and advances past them. */
    method Read(length: int) returns (data: string)
      modifies this
      ensures data == Substr(contents, old(position), length)
      ensures length >= 0 ==> |data| <= length
      ensures position == old(position) + |data|
      ensures calls == old(calls) + [ReadCall(length)]
    {
      calls := calls + [ReadCall(length)];
      data := Substr(contents, position, length);
      position := position + |data|;
    }

    /** `handleGetContents`: everything from the cursor on; the cursor advances past it. */
    method GetContents() returns (data: string)
      modifies this
      ensures data == SubstrFrom(contents, old(position))
      ensures position == old(position) + |data|
      ensures calls == old(calls) + [GetContentsCall]
    {
      calls := calls + [GetContentsCall];
      data := SubstrFrom(contents, position);
      position := position + |data|;
    }
  }
}
