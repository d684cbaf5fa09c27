/**
 * `SapiEmitter`: the emitter that writes the whole body at once. After the
 * guard, the headers and the status line it echoes the body's string form.
 */
module SapiEmitter {
  import opened SapiHost
  import opened TestAssets
  import opened HttpMessage
  import opened AbstractEmitter

  /** The header calls `emit` makes: one per header value, then the status line. */
  function EmitHeaderCalls(response: Response): (calls: seq<HeaderCall>)
    ensures |calls| == |HeaderCalls(response.headers, response.statusCode)| + 1
    ensures calls[|calls| - 1] == StatusLineCall(response) && calls[|calls| - 1].replace
  {
    HeaderCalls(response.headers, response.statusCode) + [StatusLineCall(response)]
  }

  /**
   * `emit`: throws before touching the host or the body when output has
   * already started; otherwise hands over the header calls and the status
   * line, then writes the body's string form in one piece and returns true.
   */
  method Emit(response: Response, host: Host) returns (r: Outcome<bool>)
    modifies host, response.body
    ensures r.Thrown? <==> AssertNoPreviousOutput(host.headersSent, host.obLevel, host.obLength).Thrown?
    ensures r.Thrown? ==>
      r.exception == AssertNoPreviousOutput(host.headersSent, host.obLevel, host.obLength).exception &&
      host.trace == old(host.trace) &&
      response.body.position == old(response.body.position) && response.body.calls == old(response.body.calls)
    ensures r.Returned? ==> r.value
    ensures r.Returned? ==>
      host.trace == old(host.trace) + HeaderEvents(EmitHeaderCalls(response)) + [WriteEvent(response.body.contents)]
    ensures r.Returned? ==> HeaderLog(host.trace) == HeaderLog(old(host.trace)) + EmitHeaderCalls(response)
    ensures r.Returned? ==> Written(host.trace) == Written(old(host.trace)) + response.body.contents
    ensures r.Returned? ==> response.body.calls == old(response.body.calls) + [ToStringCall]
    ensures r.Returned? ==> response.body.position == response.body.size
  {
    var guard := AssertNoPreviousOutput(host.headersSent, host.obLevel, host.obLength);
    if guard.Thrown? {
      r := Thrown(guard.exception);
    } else {
      EmitHeaders(response, host);
      EmitStatusLine(response, host);
      ghost var handed := host.trace;
      var body := response.body.ToString();
      host.Write(body);
      HeadersHandedOver(old(host.trace), response, handed);
      HeadersThenOutputLog(old(host.trace), EmitHeaderCalls(response), false, [WriteEvent(body)]);
      HeadersThenOutputWritten(old(host.trace), EmitHeaderCalls(response), false, [WriteEvent(body)]);
      WrittenSingle(body);
      r := Returned(true);
    }
  }

  lemma HeadersHandedOver(before: seq<Event>, response: Response, after: seq<Event>)
    requires after == before + HeaderEvents(HeaderCalls(response.headers, response.statusCode))
                     + [HeaderEvent(StatusLineCall(response))]
    ensures after == before + HeaderEvents(EmitHeaderCalls(response))
    ensures after == before + HeaderEvents(EmitHeaderCalls(response)) + Flushed(false)
  {
    var calls := HeaderCalls(response.headers, response.statusCode);
    var status := StatusLineCall(response);
    HeaderEventsSnoc(calls, status);
    ConcatAssoc(before, HeaderEvents(calls), [HeaderEvent(status)]);
    assert after + [] == after;
  }
}
