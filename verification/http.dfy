/**
 * HTTP request and response extraction.
 *
 * The payload of every packet with TCP and a raw layer is decoded as UTF-8,
 * dropping the bytes that do not decode.  Text that starts with one of the
 * request methods followed by a space is a request when its first line (up to
 * the first CRLF) has at least three whitespace-separated tokens: method, URL
 * and version.  Otherwise, text that starts with "HTTP/" is a response when its
 * first line has at least two tokens, the second being the status code.  Text
 * that starts like a request but has too few tokens is not tried as a
 * response.  Addresses come from the IP layer, or are empty without one.  A
 * packet whose fields cannot be read is skipped.
 */
module Http {
  import opened Collections
  import opened Utf8
  import opened Text
  import opened Packets

  datatype HttpRequest = HttpRequest(srcIp: string, dstIp: string, httpMethod: string, url: string, version: string, timestamp: real)
  datatype HttpResponse = HttpResponse(srcIp: string, dstIp: string, statusCode: string, timestamp: real)

  const Methods: seq<string> := ["GET", "POST", "PUT", "DELETE", "HEAD"]
  const RequestPrefixes: seq<string> := ["GET ", "POST ", "PUT ", "DELETE ", "HEAD "]
  const ResponsePrefix: string := "HTTP/"

  /** `s.startswith(prefixes)` for a tuple of prefixes. */
  predicate StartsWithAny(s: string, prefixes: seq<string>)
  {
    exists i :: 0 <= i < |prefixes| && prefixes[i] <= s
  }

  /**
   * The decoded payload of a packet the extractor looks at.  On a malformed
   * packet a field read inside the `try` raises, and the bare `except` skips
   * the packet, so it has no text to look at.
   */
  function PayloadText(p: Packet): Option<string>
  {
    if p.tcp.Some? && p.raw.Some? && !p.malformed then Some(DecodeIgnore(p.raw.value)) else None
  }

  function SrcOrEmpty(p: Packet): string
  {
    if p.ip.Some? then p.ip.value.src else ""
  }

  function DstOrEmpty(p: Packet): string
  {
    if p.ip.Some? then p.ip.value.dst else ""
  }

  /** The request a packet yields, if any. */
  function RequestOf(p: Packet): Option<HttpRequest>
  {
    match PayloadText(p)
    case None => None
    case Some(text) =>
      if !StartsWithAny(text, RequestPrefixes) then None
      else
        var methodLine := Tokens(FirstLine(text));
        if |methodLine| >= 3 then
          Some(HttpRequest(SrcOrEmpty(p), DstOrEmpty(p), methodLine[0], methodLine[1], methodLine[2], p.time))
        else None
  }

  /** The response a packet yields, if any; only text that does not start like a request is tried. */
  function ResponseOf(p: Packet): Option<HttpResponse>
  {
    match PayloadText(p)
    case None => None
    case Some(text) =>
      if StartsWithAny(text, RequestPrefixes) || !(ResponsePrefix <= text) then None
      else
        var statusLine := Tokens(FirstLine(text));
        if |statusLine| >= 2 then Some(HttpResponse(SrcOrEmpty(p), DstOrEmpty(p), statusLine[1], p.time))
        else None
  }

  /** The requests of a capture, in capture order. */
  function Requests(ps: seq<Packet>): seq<HttpRequest>
  {
    FilterMap(RequestOf, ps)
  }

  /** The responses of a capture, in capture order. */
  function Responses(ps: seq<Packet>): seq<HttpResponse>
  {
    FilterMap(ResponseOf, ps)
  }

  /** One pass over the packets, appending each request and each response found. */
  method ExtractHttpInfo(packets: seq<Packet>) returns (httpRequests: seq<HttpRequest>, httpResponses: seq<HttpResponse>)
    ensures httpRequests == Requests(packets)
    ensures httpResponses == Responses(packets)
  {
    httpRequests, httpResponses := [], [];
    for i := 0 to |packets|
      invariant httpRequests == Requests(packets[..i])
      invariant httpResponses == Responses(packets[..i])
    {
      var pkt := packets[i];
      assert packets[..i + 1][..i] == packets[..i];
      // A malformed packet raises inside the `try` and is skipped by the bare `except`.
      if pkt.tcp.Some? && pkt.raw.Some? && !pkt.malformed {
        var payloadStr := DecodeIgnore(pkt.raw.value);
        if StartsWithAny(payloadStr, RequestPrefixes) {
          var methodLine := Tokens(FirstLine(payloadStr));
          if |methodLine| >= 3 {
            var srcIp := if pkt.ip.Some? then pkt.ip.value.src else "";
            var dstIp := if pkt.ip.Some? then pkt.ip.value.dst else "";
            httpRequests := httpRequests + [HttpRequest(srcIp, dstIp, methodLine[0], methodLine[1], methodLine[2], pkt.time)];
          }
        } else if ResponsePrefix <= payloadStr {
          var statusLine := Tokens(FirstLine(payloadStr));
          if |statusLine| >= 2 {
            var srcIp := if pkt.ip.Some? then pkt.ip.value.src else "";
            var dstIp := if pkt.ip.Some? then pkt.ip.value.dst else "";
            httpResponses := httpResponses + [HttpResponse(srcIp, dstIp, statusLine[1], pkt.time)];
          }
        }
      }
    }
    assert packets[..|packets|] == packets;
  }

  // ---------------------------------------------------------------------------
  // What a recorded request or response looks like.

  /** A packet whose fields cannot be read yields neither a request nor a response. */
  lemma MalformedYieldsNothing(p: Packet)
    requires p.malformed
    ensures RequestOf(p).None? && ResponseOf(p).None?
  {
  }

  /** No packet is both a request and a response. */
  lemma RequestOrResponse(p: Packet)
    ensures !(RequestOf(p).Some? && ResponseOf(p).Some?)
  {
  }

  /** Each request prefix is a method name followed by a space, and a method name is one word on one line. */
  lemma PrefixIsMethod(k: int)
    requires 0 <= k < |RequestPrefixes|
    ensures RequestPrefixes[k] == Methods[k] + " "
    ensures Methods[k] != [] && NoSpace(Methods[k])
    ensures forall i :: 0 <= i < |Methods[k]| ==> Methods[k][i] != '\r'
  {
  }

  /**
   * A recorded request's method is one of the five methods, and it is the
   * text's own first word: the text starts with the method and a space.
   */
  lemma RequestMethod(p: Packet)
    requires RequestOf(p).Some?
    ensures RequestOf(p).value.httpMethod in Methods
    ensures RequestOf(p).value.httpMethod + " " <= PayloadText(p).value
  {
    var text := PayloadText(p).value;
    var k :| 0 <= k < |RequestPrefixes| && RequestPrefixes[k] <= text;
    PrefixIsMethod(k);
    FirstWordOfFirstLine(Methods[k], text);
  }

  /** The first token of a recorded response's status line starts with "HTTP/". */
  lemma ResponseLine(p: Packet)
    requires ResponseOf(p).Some?
    ensures var line := Tokens(FirstLine(PayloadText(p).value));
            |line| >= 2 && ResponsePrefix <= line[0] && ResponseOf(p).value.statusCode == line[1]
  {
    StatusLineStart(PayloadText(p).value);
  }

  /** Text that starts with "HTTP/" has a first token, on its first line, that starts with "HTTP/". */
  lemma StatusLineStart(text: string)
    requires ResponsePrefix <= text
    ensures Tokens(FirstLine(text)) != [] && ResponsePrefix <= Tokens(FirstLine(text))[0]
  {
    var rest := text[|ResponsePrefix|..];
    assert text == ResponsePrefix + rest;
    FirstLineOfPrefix(ResponsePrefix, rest);
    FirstTokenExtends(ResponsePrefix, FirstLine(rest));
  }

  /** A request or response from a packet without IP has empty addresses. */
  lemma NoIpNoAddresses(p: Packet)
    requires p.ip.None?
    ensures RequestOf(p).Some? ==> RequestOf(p).value.srcIp == "" && RequestOf(p).value.dstIp == ""
    ensures ResponseOf(p).Some? ==> ResponseOf(p).value.srcIp == "" && ResponseOf(p).value.dstIp == ""
  {
  }

  /** Every recorded request comes from a packet of the capture, and every request-yielding packet is recorded. */
  lemma RequestsFromPackets(ps: seq<Packet>)
    ensures forall r :: r in Requests(ps) <==> exists i :: 0 <= i < |ps| && RequestOf(ps[i]) == Some(r)
  {
    FilterMapMembers(RequestOf, ps);
  }

  /** Every recorded response comes from a packet of the capture, and every response-yielding packet is recorded. */
  lemma ResponsesFromPackets(ps: seq<Packet>)
    ensures forall r :: r in Responses(ps) <==> exists i :: 0 <= i < |ps| && ResponseOf(ps[i]) == Some(r)
  {
    FilterMapMembers(ResponseOf, ps);
  }

  /** `GE\xffT / H` decodes, with `errors='ignore'`, to `GET / H`. */
  lemma DroppedByteText(bs: seq<byte>)
    requires bs == [0x47, 0x45, 0xFF, 0x54, 0x20, 0x2F, 0x20, 0x48]
    ensures DecodeIgnore(bs) == "GET / H"
  {
    var tail := bs[3..];
    DecodeAscii(tail);
    assert DecodeIgnore(tail) == "T / H";
    assert SequenceLength(bs[2..]) == 0;
    assert DecodeIgnore(bs[2..]) == DecodeIgnore(tail);
    DecodeAsciiHead(bs[1..]);
    DecodeAsciiHead(bs);
    assert bs[1..][1..] == bs[2..];
  }

  /** The first line of `GET / H` splits into the method, the URL and the version. */
  lemma DroppedByteLine(text: string)
    requires text == "GET / H"
    ensures StartsWithAny(text, RequestPrefixes)
    ensures Tokens(FirstLine(text)) == ["GET", "/", "H"]
  {
    assert RequestPrefixes[0] <= text;
    assert text == "GET" + [' '] + ("/" + [' '] + "H");
    WholeLine(text);
    ThreeWords("GET", "/", "H");
  }

  /**
   * A byte that does not decode is dropped, not replaced: the payload
   * `GE\xffT / H` still reads as a GET request for `/`.
   */
  lemma DroppedByte(p: Packet)
    requires p.tcp.Some? && p.ip.None? && !p.malformed
    requires p.raw == Some([0x47, 0x45, 0xFF, 0x54, 0x20, 0x2F, 0x20, 0x48])
    ensures RequestOf(p) == Some(HttpRequest("", "", "GET", "/", "H", p.time))
  {
    DroppedByteText(p.raw.value);
    DroppedByteLine(DecodeIgnore(p.raw.value));
  }
}
