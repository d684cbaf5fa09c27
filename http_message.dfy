/**
 * The PSR-7 response the emitter consumes: status, reason phrase, protocol
 * version, the headers in insertion order with their values, and the body.
 */
module HttpMessage {
  import opened PhpString
  import opened TestAssets

  datatype Header = Header(name: string, values: seq<string>)

  datatype Response = Response(
    statusCode: int,
    reasonPhrase: string,
    protocolVersion: string,
    headers: seq<Header>,
    body: Stream)

  /**
   * PSR-7 `getHeaderLine($name)`: the values of the header whose name matches
   * case-insensitively, joined by ", ", or "" when there is none.
   */
  function HeaderLine(headers: seq<Header>, name: string): string
  {
    if headers == [] then ""
    else if Lowercase(headers[0].name) == Lowercase(name) then Implode(", ", headers[0].values)
    else HeaderLine(headers[1..], name)
  }

  /** A header that is not there reads as the empty line. */
  lemma {:induction false} HeaderLineAbsent(headers: seq<Header>, name: string)
    requires forall k :: 0 <= k < |headers| ==> Lowercase(headers[k].name) != Lowercase(name)
    ensures HeaderLine(headers, name) == ""
  {
    if headers != [] {
      assert Lowercase(headers[0].name) != Lowercase(name);
      HeaderLineAbsent(headers[1..], name);
    }
  }
}
