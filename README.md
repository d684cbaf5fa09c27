# http-emitter in Dafny

A model of the response-emission engine of zaphyr-org/http-emitter, together
with proofs about it. The engine takes a PSR-7 response and hands it to the PHP
SAPI in a fixed order:

1. the guard against earlier output;
2. one `header()` call per header value;
3. the status line.

Then it writes the body.

`SapiEmitter` echoes the body's string form in one piece. `SapiStreamEmitter`
flushes and then streams the body in reads of at most `maxBufferLength`
bytes. When the response carries a `Content-Range: bytes first-last/...`
header, it emits only that byte range.

Modules:

- `PhpString`: PHP's `substr` (PHP 8 rules), `str_replace` of one character,
  ASCII `ucwords`/`strtoupper`/`strtolower`, string truthiness, `implode`, the
  decimal rendering of integers and `(int)` of a digit run.
- `SapiHost`: the host side, as class `Host`.
  - The answers of `headers_sent()`, `ob_get_level()` and `ob_get_length()`
    are constant inputs.
  - `header()`, `echo` and `flush()` append to one append-only `trace` of events.
  - `HeaderLog` and `Written` project that trace onto the header tuples
    `(line, replace, statusCode)` and the output bytes.
- `TestAssets`: the test suite's in-memory body stream, `Stream`, as a class.
  - It holds the contents, the declared size and the mutable `position` cursor.
  - It records every call the emitter makes on it in `calls`, which is what
    the test doubles' call expectations observe.
  - The peak-length tracker of the tests becomes `PeakBufferLength` over the
    read requests in `calls`.
- `HttpMessage`: the response record (status code, reason phrase, protocol
  version, ordered headers with their values, body stream) and PSR-7
  `getHeaderLine`.
- `AbstractEmitter`: `assertNoPreviousOutput`, `sanitizeHeader`,
  `emitHeaders` and `emitStatusLine`.
- `ContentRange`: `parseContentRange`, with its regular expression modelled
  by hand. The match is unanchored: the leftmost position wins, and each run
  is maximal.
- `SapiStreamEmitter`: class `Emitter` with the constant `maxBufferLength`,
  and its `emit`, `emitBody` and `emitBodyRange`.
  - Each method is proved against specification functions of the body's
    initial state.
  - `StreamOutput` gives the bytes written; `FullBodyCalls` and `RangeCalls`
    give the calls made on the body.
- `SapiEmitter`: `emit` of the non-streaming emitter.

Each method that emits states the host's whole new trace, as the old trace
followed by what it appended. The methods of `AbstractEmitter` and
`Emitter.EmitPreamble` change only the host.

Each method that reaches the body also states:

- the body's new cursor, as a function of its initial state (`FullBodyEnd`,
  `RangeEnd`, `StreamEnd`, or the size after a string conversion);
- the calls it made on the body (`FullBodyCalls`, `RangeCalls`, `StreamCalls`,
  or the single string conversion).

`SapiEmitter.Emit` and `Emitter.Emit` state these only when the guard lets
the emission through; when it throws, nothing changes. The ghost
out-parameters `tail`/`out`, `rest` and `issued` name what was appended.

## Model

| member | source | states |
|---|---|---|
| AbstractEmitter.AssertNoPreviousOutput | src/AbstractEmitter.php:20-29 | returns normally iff headers were not sent and not (buffer level > 0 and buffer length > 0); headers already sent throws the "Headers already sent" message, which wins over a non-empty buffer; any other throw carries the "Output has been emitted previously" message |
| AbstractEmitter.SanitizeHeader | src/AbstractEmitter.php:57-62 | defines `sanitizeHeader` as `str_replace(' ', '-', ucwords(str_replace('-', ' ', $header)))`; its meaning is stated by `SanitizeHeaderChars`, `SanitizeHeaderIdempotent` and `SanitizeHeaderFixed` |
| PhpString.ReplaceChar | src/AbstractEmitter.php:59-61 | defines `str_replace` of one character by another, character by character; its effect inside `sanitizeHeader` is stated by `AbstractEmitter.SanitizeHeaderChars` |
| PhpString.Ucwords | src/AbstractEmitter.php:61 | defines ASCII `ucwords` with its default delimiters: the first character and each character after a delimiter upper-cased; its effect inside `sanitizeHeader` is stated by `AbstractEmitter.SanitizeHeaderChars` |
| AbstractEmitter.SanitizeHeaderChars | src/AbstractEmitter.php:57-62 | the canonical name has the input's length; `-` and space become `-`; the first character and each character after a hyphen or a `ucwords` delimiter is upper-cased; every other character is kept unchanged (no lower-casing) |
| AbstractEmitter.SanitizeHeaderIdempotent | src/AbstractEmitter.php:59-61 | canonicalising a canonical name returns it unchanged |
| AbstractEmitter.SanitizeHeaderFixed | src/AbstractEmitter.php:57-62 | a name with no spaces whose word starts are already upper-case is left as it is |
| AbstractEmitter.SetCookieCanonical | src/AbstractEmitter.php:41-42 | `Set-Cookie` is already canonical, so a header named so keeps the name the `$first` test compares with |
| AbstractEmitter.ValueCalls | src/AbstractEmitter.php:44-48 | defines the calls of the inner loop: one `name: value` call per value, in order, the first replacing when asked to; `EmitValues` is proved against it |
| AbstractEmitter.HeaderCalls | src/AbstractEmitter.php:38-49 | defines the calls of `emitHeaders`: the `ValueCalls` of each header in order, with the canonical name and replacing first unless it is `Set-Cookie`; `HeaderCallsLength`, `HeaderCallsAt`, `HeaderCallsCarryStatus`, `HeaderCallsReplaceOnlyFirst` and `HeaderCallsFromHeaders` state what they are |
| AbstractEmitter.EmitHeaders | src/AbstractEmitter.php:36-50 | the host receives exactly the header calls `HeaderCalls(headers, statusCode)`, in order, and nothing else |
| AbstractEmitter.EmitValues | src/AbstractEmitter.php:41-48 | the inner loop sends one call per value of one header, `name: value`; the `$first` flag makes only the first call replace, and only when the name is not `Set-Cookie` |
| AbstractEmitter.HeaderCallsLength | src/AbstractEmitter.php:40-48 | exactly one header call per header value |
| AbstractEmitter.HeaderCallsAt | src/AbstractEmitter.php:38-49 | value `v` of header `h` is call number (values of the earlier headers) + `v`: headers in order, then values in order; its line is canonical name + ": " + value; it carries the status code; it replaces exactly when `v` = 0 and the canonical name is not `Set-Cookie` |
| AbstractEmitter.HeaderCallsCarryStatus | src/AbstractEmitter.php:38-45 | every header call carries the response's status code |
| AbstractEmitter.HeaderCallsReplaceOnlyFirst | src/AbstractEmitter.php:42-47 | a call that replaces is the first value of a header whose canonical name is not `Set-Cookie`; every later value and every `Set-Cookie` value appends |
| AbstractEmitter.HeaderCallsFromHeaders | src/AbstractEmitter.php:40-45 | every header call is the line of some value of some response header: no header (such as `Content-Length`) is invented |
| AbstractEmitter.MultipleCookieHeaders | src/AbstractEmitter.php:42-47 | two `Set-Cookie` values produce two appending calls with the status code, in order |
| AbstractEmitter.StatusLine | src/AbstractEmitter.php:74-75 | the line starts with "HTTP/" + version + " " + code; when the reason phrase is truthy (not "" and not "0"), " " + reason ends it and nothing lies between; otherwise the line is exactly that prefix |
| AbstractEmitter.StatusLineCall | src/AbstractEmitter.php:74-78 | defines the one `header()` call of `emitStatusLine`: the `StatusLine` text, replacing, with the status code |
| AbstractEmitter.AcceptedStatusLine | src/AbstractEmitter.php:69-79 | version 1.1, code 202 and reason "Accepted" give "HTTP/1.1 202 Accepted" |
| AbstractEmitter.EmitStatusLine | src/AbstractEmitter.php:69-79 | the host receives one call, `StatusLineCall`: the status line with replace true and the status code, and nothing else |
| PhpString.DecimalRoundTrip | src/SapiStreamEmitter.php:61-64 | the decimal rendering of a number is a non-empty digit run that `(int)` reads back as the number |
| PhpString.Substr | src/SapiStreamEmitter.php:86 | `substr` gives a prefix of the suffix at `start`; its length is `min(length, rest)` for a non-negative length, and the rest shortened by `-length` for a negative one |
| PhpString.SubstrOfSuffix | src/SapiStreamEmitter.php:86 | cutting `length` bytes at `offset` out of the suffix at `start` is cutting them at `start + offset` out of the whole |
| HttpMessage.HeaderLine | src/SapiStreamEmitter.php:32 | defines PSR-7 `getHeaderLine`: the values of the first header whose name matches case-insensitively, joined by ", ", or "" when none matches |
| HttpMessage.HeaderLineAbsent | src/SapiStreamEmitter.php:32 | when no header name matches case-insensitively, the header line is "", so no range is parsed |
| ContentRange.MatchAt | src/SapiStreamEmitter.php:51-55 | a match at `i` has a non-empty unit of word characters that stands in the header at `i` |
| ContentRange.RunEnd | src/SapiStreamEmitter.php:52 | a greedy run ends at the first character outside its class, and every character before it is inside |
| ContentRange.ParseContentRange | src/SapiStreamEmitter.php:48-66 | defines `parseContentRange` as the first match among the attempts at each position of the header; its meaning is stated by `ParseContentRangeLeftmost`, `MatchAt` and `ParseFormat` |
| ContentRange.ParseContentRangeLeftmost | src/SapiStreamEmitter.php:48-66 | the result is null iff the pattern matches at no position; otherwise it is the match at the leftmost matching position |
| ContentRange.ParseFormat | src/SapiStreamEmitter.php:48-66 | parsing `"unit first-last/length"` or `"unit first-last/*"` for a word-character unit returns exactly `(unit, first, last, length or *)` |
| ContentRange.ParseExample | src/SapiStreamEmitter.php:48-66 | the single-digit instance of the same round trip |
| ContentRange.ParseFirstByteRange | tests/SapiStreamEmitterTest.php:459 | "bytes 0-2/*" parses as ("bytes", 0, 2, *) |
| ContentRange.ParseSecondByteRange | tests/SapiStreamEmitterTest.php:460 | "bytes 3-6/*" parses as ("bytes", 3, 6, *) |
| ContentRange.ParseOtherUnit | tests/SapiStreamEmitterTest.php:461 | "items 0-0/1" parses as ("items", 0, 0, 1) |
| ContentRange.ParseEmpty | src/SapiStreamEmitter.php:50-58 | an empty header line does not match and gives null |
| TestAssets.Stream.constructor | tests/TestAssets/Stream.php:12-18 | the stream holds the given contents, size and position, and no call has been made yet |
| TestAssets.Stream.ToString | tests/TestAssets/Stream.php:20-25 | returns the whole contents whatever the cursor, and moves the cursor to the size |
| TestAssets.Stream.Tell | tests/TestAssets/Stream.php:27-30 | returns the cursor and leaves it unchanged |
| TestAssets.Stream.Eof | tests/TestAssets/Stream.php:32-35 | at the end iff the cursor is at or past the size |
| TestAssets.Stream.Seek | tests/TestAssets/Stream.php:37-46 | refuses (false, cursor unchanged) iff the offset is at or past the size; otherwise moves the cursor to the offset |
| TestAssets.Stream.Rewind | tests/TestAssets/Stream.php:48-53 | returns true and sets the cursor to 0 |
| TestAssets.Stream.Read | tests/TestAssets/Stream.php:55-68 | records the requested length (what the tracker sees); returns `substr(contents, position, length)`, at most `length` bytes; advances the cursor by what it returned |
| TestAssets.Stream.GetContents | tests/TestAssets/Stream.php:70-79 | returns the contents from the cursor to the end and advances the cursor by their length |
| SapiHost.Host.Header | src/AbstractEmitter.php:45 | `header()` appends one header event, and nothing else, to the trace |
| SapiHost.Host.Write | src/SapiStreamEmitter.php:97 | `echo` appends one write event of exactly those bytes to the trace |
| SapiHost.Host.Flush | src/SapiStreamEmitter.php:30 | `flush()` appends one flush event to the trace |
| TestAssets.PeakBufferLength | tests/SapiStreamEmitterTest.php:77-81 | defines the tests' tracker: the largest read request so far, 0 before any; `PeakWithinBound` and `ChunkedReadsPeak` state what it bounds |
| TestAssets.ChunkedReadsAll | src/SapiStreamEmitter.php:93-97 | a call log is made of eof checks and bounded reads iff each of its calls is one |
| TestAssets.PeakWithinBound | tests/SapiStreamEmitterTest.php:77-81 | the tracked peak stays within a non-negative bound iff every read request does |
| TestAssets.ChunkedReadsPeak | tests/SapiStreamEmitterTest.php:129 | reads issued in chunks of at most the bound keep every request, and so the tracked peak, within the bound |
| SapiStreamEmitter.Emitter.constructor | src/SapiStreamEmitter.php:17-19 | the chunk size is the argument, 8192 by default |
| SapiStreamEmitter.FullBodyOutput | src/SapiStreamEmitter.php:112-129 | defines the bytes `emitBody` writes: the contents from 0 (seekable) or from the cursor when readable, the whole string form otherwise; `FullOutputIsContents` and `EmitBody` state it |
| SapiStreamEmitter.RangeBodyOutput | src/SapiStreamEmitter.php:74-105 | defines the bytes `emitBodyRange` writes: the `length` bytes from the cursor after the optional seek when readable, `substr` of the rest at offset 0 or `first` otherwise; `RangeOutputIsSubstr`, `InvertedRangeOutput` and `RefusedSeekOutput` state what they are |
| SapiStreamEmitter.StreamOutput | src/SapiStreamEmitter.php:32-38 | defines the body bytes of `emit`: `RangeBodyOutput` of a parsed range whose unit is exactly "bytes", else `FullBodyOutput`; `SingleRangeHeader` and the three test cases state it |
| SapiStreamEmitter.StreamCalls | src/SapiStreamEmitter.php:32-38 | defines the body calls of `emit`: `RangeCalls` (optional seek, then eof checks and bounded reads or one `getContents`) for a bytes range, `FullBodyCalls` (optional rewind, then the eof/read loop or one string conversion) otherwise |
| SapiStreamEmitter.StreamEnd | src/SapiStreamEmitter.php:32-38 | defines where `emit` leaves the cursor: `RangeEnd` (past the bytes read from the cursor after the optional seek, or at the end after `getContents`) for a bytes range, `FullBodyEnd` otherwise |
| SapiStreamEmitter.Emitter.Emit | src/SapiStreamEmitter.php:24-41 | when the guard throws, `emit` throws the same exception and touches neither the host nor the body. Otherwise it returns true, and the trace is the header calls, the status line, a flush, then only writes. The header log gains exactly the response's header calls and then the status line. The output gains exactly `StreamOutput` of the body's initial state. A readable body is written in chunks of at most `maxBufferLength`, any other in exactly one write. The body calls are `RangeCalls` for a bytes range and `FullBodyCalls` otherwise (`StreamCalls`), the tracked read peak stays within `maxBufferLength`, and the cursor ends at `StreamEnd` of the initial state |
| SapiStreamEmitter.Emitter.EmitPreamble | src/SapiStreamEmitter.php:27-30 | the trace gains the header calls, the status line and one flush, and nothing else |
| SapiStreamEmitter.Emitter.EmitSelectedBody | src/SapiStreamEmitter.php:32-38 | a parsed range whose unit is exactly "bytes" selects the range emission, anything else the whole body: the output is `StreamOutput`, in writes of at most `maxBufferLength` for a readable body and in exactly one write otherwise, the body calls satisfy `StreamCalls` (`RangeCalls` or `FullBodyCalls` by that choice), the cursor ends at `StreamEnd`, and the read peak stays within `maxBufferLength` |
| SapiStreamEmitter.Emitter.EmitBody | src/SapiStreamEmitter.php:112-129 | writes the rest of the body from 0 after a rewind (seekable) or from the cursor, or the string form of a non-readable body in one write. The calls are a rewind first exactly when seekable, never a seek; then `eof`/`read(maxBufferLength)` ending with the eof that stops the loop, or one string conversion and no `read`/`eof`. The cursor ends at `FullBodyEnd`: at the end of the contents, or, for a readable body, where the rewind or the old cursor left it if that lies further |
| SapiStreamEmitter.Emitter.EmitFromCursor | src/SapiStreamEmitter.php:120-128 | after the optional rewind: the string form in one write when not readable, otherwise the rest of the contents from the cursor in chunks of at most `maxBufferLength`; the calls are one string conversion or the eof/read loop |
| SapiStreamEmitter.Emitter.CopyChunk | src/SapiStreamEmitter.php:126-127 | one turn of the loop: a read of `maxBufferLength` bytes from the cursor, one write of exactly those bytes, then the next eof check |
| SapiStreamEmitter.Emitter.ReadToEnd | src/SapiStreamEmitter.php:126-128 | writes `substr(contents, position)` in writes of at most `maxBufferLength`; every read asks for exactly `maxBufferLength`; the last call is the eof that ends the loop; the cursor ends past what was written |
| SapiStreamEmitter.Emitter.EmitBodyRange | src/SapiStreamEmitter.php:74-105 | writes `RangeBodyOutput` of the body's initial state. The calls are a seek to `first` first exactly when seekable, never a rewind; then `RangeChunkedReads` (readable): eof checks and reads of exactly `maxBufferLength`, possibly followed by one eof check and one read of the 1 to `maxBufferLength - 1` bytes that remain, or one `getContents` and no `read`/`eof`. The cursor ends at `RangeEnd` of the initial state |
| SapiStreamEmitter.Emitter.SeekToFirst | src/SapiStreamEmitter.php:80-83 | a seekable body gets exactly one seek to `first`, its cursor ends at `RangeStart` (at `first` when inside the body, unchanged otherwise), and the offset becomes 0; a body that is not seekable gets no call and keeps `first` |
| SapiStreamEmitter.Emitter.EmitRangeFromCursor | src/SapiStreamEmitter.php:85-104 | after the optional seek: one write of `substr(getContents(), offset, length)` when not readable, the cursor moving to the end; otherwise the `length` bytes from the cursor (nothing for length <= 0) through the bounded reads; the calls are one `getContents`, or `RangeChunkedReads` |
| SapiStreamEmitter.Emitter.ReadBounded | src/SapiStreamEmitter.php:91-104 | writes `substr(contents, position, length)` (nothing for length <= 0), tolerating short reads, in writes of at most `maxBufferLength`, and advances the cursor past it; the calls are `RangeChunkedReads`: eof checks and reads of exactly `maxBufferLength`, then nothing, an eof check alone, or an eof check and a read of the 1 to `maxBufferLength - 1` bytes that remain |
| SapiStreamEmitter.Emitter.ReadFullChunks | src/SapiStreamEmitter.php:91-98 | the loop writes the contents from the start cursor to the final one; `remaining` is `length` minus the bytes read; it stops with fewer than `maxBufferLength` remaining or at eof; every read asks for exactly `maxBufferLength` |
| SapiStreamEmitter.Emitter.ReadRemainder | src/SapiStreamEmitter.php:100-104 | no call when nothing remains; otherwise one eof check, then exactly one read of `remaining` bytes unless at eof; writes that read |
| SapiStreamEmitter.FullBodyCallsPeak | src/SapiStreamEmitter.php:112-129 | the calls of `emitBody` keep the tracked read peak within `maxBufferLength` |
| SapiStreamEmitter.RangeChunkedReadsOf | src/SapiStreamEmitter.php:91-104 | the full-size reads of the loop followed by the calls of the last step (nothing when nothing remains, an eof check alone at eof, otherwise an eof check and a read of what remains, which the loop left below the bound) are `RangeChunkedReads` |
| SapiStreamEmitter.RangeCallsPeak | src/SapiStreamEmitter.php:91-104 | the calls of `emitBodyRange` keep the tracked read peak within `maxBufferLength` |
| SapiStreamEmitter.FullOutputIsContents | src/SapiStreamEmitter.php:116-124 | a rewound, non-readable or unread body is written whole |
| SapiStreamEmitter.RangeOutputIsSubstr | src/SapiStreamEmitter.php:76-104 | in all four seekable × readable paths, when the seek succeeds (or the cursor is where the path expects it), the output is `substr(contents, first, last - first + 1)`, and all of the contents from `first` on when `last` lies past the end |
| SapiStreamEmitter.InvertedRangeOutput | src/SapiStreamEmitter.php:78-104 | for any contents, cursor and seekability, a range with last < first - 1 writes nothing when readable; when not readable, `substr` with the negative length `last - first + 1` writes a prefix of the remaining contents at the offset, shortened by `first - last - 1` bytes from the end |
| SapiStreamEmitter.RefusedSeekOutput | src/SapiStreamEmitter.php:80-104 | for any contents, cursor and readability, a seek to a `first` at or past the end is refused and the cursor stays put, yet `$first` is reset to 0: the bytes written are the `last - first + 1` bytes from the old cursor, not from `first` |
| SapiStreamEmitter.SingleRangeHeader | src/SapiStreamEmitter.php:32-35 | a single `Content-Range` header that parses as a bytes range makes the output that range's output |
| SapiStreamEmitter.StreamFirstRange | tests/SapiStreamEmitterTest.php:459 | "bytes 0-2/*" over "Hello world" writes "Hel" |
| SapiStreamEmitter.StreamSecondRange | tests/SapiStreamEmitterTest.php:460 | "bytes 3-6/*" over "Hello world" writes "lo w" |
| SapiStreamEmitter.StreamOtherUnit | tests/SapiStreamEmitterTest.php:461 | "items 0-0/1" over "Hello world" writes the whole body |
| SapiEmitter.EmitHeaderCalls | src/SapiEmitter.php:20-21 | the header log gains one call per header value and then the status line, which is last and replaces |
| SapiEmitter.Emit | src/SapiEmitter.php:17-26 | when the guard throws, `emit` throws the same exception and touches neither the host nor the body. Otherwise it returns true; the trace is the header calls, the status line and one write of the body's string form; the header log gains exactly those calls; the output gains the whole contents; the only body call is the string conversion, which leaves the cursor at the size |

## Left out

- `flush()` is recorded as a `FlushEvent` in the trace and has no other effect.
- The globals `headers_sent()`, `ob_get_level()` and `ob_get_length()` are
  constant inputs of the host. `ob_get_length()` answering `false` is
  represented by 0.
- The PCRE engine is not modelled. Only the one pattern of
  `parseContentRange` is modelled, with `\w` as ASCII letters, digits and `_`,
  and `\s` as ASCII white space.
- `ucwords` and `strtoupper` are ASCII only, with no locale.
- The PSR-7 response is a record. `getHeaderLine` follows PSR-7
  (case-insensitive name, values joined by ", "). The response class itself
  is not part of this model.
- `(int)` on a digit run is unbounded. PHP saturates at `PHP_INT_MAX`, which
  only a range with more than 18 digits reaches.
- The callable form of the `Stream` contents is left out; only the memory
  test uses it. The contents are a string.
- The memory measurement of the tests (`memory_get_usage`, `gc_*`) is left
  out. The bound on the read requests stands in for it.
- `src/Contracts/EmitterInterface.php` declares `emit` and holds no behaviour.
- `tests/TestAssets/HeaderStack.php` and `tests/TestAssets/headers_override.php`
  are the test doubles of `header()` and `headers_sent()`. `Host.trace` plays
  their role.
- The `isSeekable`/`isReadable` answers of the test suite's stream mock are
  constant fields of `Stream`.
- SapiStreamEmitter.Emitter.constructor: `maxBufferLength` must be positive.
  With 0, `emitBody`'s loop never terminates on a non-empty readable body, so
  that case is not modelled.
- SapiStreamEmitter.Emitter.Emit: requires that the stream's declared size is
  its content length. Every test builds the stream that way, and the reads
  only terminate against the contents under that assumption.
- TestAssets.Stream.Seek: the offset is a natural number, since the emitter
  only seeks to a parsed digit run. The `$whence` argument is ignored, as the
  test stream ignores it.
- AbstractEmitter.EmitHeaders: the inner loop over the values of one header
  is the separate method `EmitValues`.
- SapiStreamEmitter.Emitter.EmitBodyRange: the seek is the separate method
  `SeekToFirst`; what follows it is `EmitRangeFromCursor`, whose loop and final
  read are split into `ReadFullChunks` and `ReadRemainder`, called through
  `ReadBounded`.
- SapiStreamEmitter.Emitter.EmitBody: what follows the rewind is the separate
  method `EmitFromCursor`; its read loop is `ReadToEnd`, one turn of which is
  `CopyChunk`.
- SapiStreamEmitter.Emitter.Emit: the headers, the status line and the flush
  are the separate method `EmitPreamble`; the choice of body emission is
  `EmitSelectedBody`.
- SapiStreamEmitter.RangeOutputIsSubstr: for a body that is not seekable it
  requires the cursor to stand at `first` when the body is readable and at 0
  when it is not. `emitBodyRange` checks neither; it reads from wherever the
  cursor is. The tests set the start position that way by hand
  (tests/SapiStreamEmitterTest.php:151). With the cursor elsewhere, the
  output is still `RangeBodyOutput`, but not `substr(contents, first, length)`.
- SapiStreamEmitter.Emitter.Emit: the body methods return their effect on the
  trace and on the body's call log as ghost out-parameters.
