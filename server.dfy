/**
 * handle_connection end to end: read the first line of the request, pick the
 * target, route it, and write exactly one reply to the connection.
 */
module Server {
  import opened Wrappers
  import opened Bytes
  import opened Utf8
  import opened Request
  import opened Router
  import opened Reader
  import opened Response

  /** The bytes handle_connection writes for an incoming stream, or why it stops before writing. */
  function Respond(stream: seq<byte>): (r: Result<seq<byte>, ReadError>)
    ensures r.Failure? <==> FirstLine(stream).Failure?
    ensures r.Failure? ==> r.error == FirstLine(stream).error
    ensures r.Success? ==> Read(r.value).Some? && Read(r.value).value.1 == []
    ensures r.Success? ==> Read(r.value).value.0.code in {200, 404}
    ensures r.Success? ==> Read(r.value) == Some((MessageOf(Route(Target(FirstLine(stream).value))), []))
  {
    match FirstLine(stream)
    case Failure(e) => Failure(e)
    case Success(line) =>
      var o := Route(Target(line));
      ReadServed(o);
      Success(Serialize(o))
  }

  /** One accepted connection: the bytes the client sent and the bytes written back so far. */
  class Connection {
    const incoming: seq<byte>
    var written: seq<byte>

    constructor (incoming: seq<byte>)
      ensures this.incoming == incoming && written == []
    {
      this.incoming := incoming;
      written := [];
    }

    /** `stream.write_all(bytes)`: the bytes are appended to what the connection has sent. */
    method WriteAll(bytes: seq<byte>)
      modifies this
      ensures written == old(written) + bytes
    {
      written := written + bytes;
    }

    /**
     * Reads the request line, routes its target and writes one reply. When no
     * request line can be read nothing is written and the reason is returned.
     */
    method Handle() returns (result: Result<(), ReadError>)
      modifies this
      ensures Respond(incoming).Success? ==> result.Success? && written == old(written) + Respond(incoming).value
      ensures Respond(incoming).Failure? ==> result == Failure(Respond(incoming).error) && written == old(written)
    {
      var requestLine := FirstLine(incoming);
      if requestLine.Failure? {
        return Failure(requestLine.error);
      }
      var url := Target(requestLine.value);
      if StartsWith(url, EchoPrefix) {
        var echoString := url[6..];
        var response := EchoResponse(echoString);
        WriteAll(response);
      } else {
        var status := if url == Slash then Status200 else Status404;
        var response := StatusResponse(status);
        WriteAll(response);
      }
      return Success(());
    }
  }

  // ---- what a client observes ----

  /** `METHOD /echo/x VERSION` gets the echo reply for `x`, whatever METHOD and VERSION are. */
  lemma RespondEcho(lead: seq<byte>, verb: seq<byte>, sep: seq<byte>, x: seq<byte>, tail: seq<byte>, rest: seq<byte>)
    requires Blank(lead) && IsWord(verb) && Blank(sep) && |sep| > 0 && Solid(x) && Delimited(tail)
    requires var line := lead + verb + sep + (EchoPrefix + x) + tail; LF !in line && ValidUtf8(line)
    ensures Respond(lead + verb + sep + (EchoPrefix + x) + tail + CRLF + rest) == Success(EchoResponse(x))
  {
    var line := lead + verb + sep + (EchoPrefix + x) + tail;
    FirstLineOfRequest(line, rest);
    EchoOfRequestLine(lead, verb, sep, x, tail);
  }

  /** A request line with fewer than two tokens (an empty one included) gets the bare 200 reply. */
  lemma RespondShortLine(lead: seq<byte>, word: seq<byte>, trail: seq<byte>, rest: seq<byte>)
    requires Blank(lead) && Solid(word) && Blank(trail)
    requires var line := lead + word + trail; LF !in line && ValidUtf8(line)
    ensures Respond(lead + word + trail + CRLF + rest) == Success(StatusResponse(Status200))
  {
    FirstLineOfRequest(lead + word + trail, rest);
    TargetOfShortLine(lead, word, trail);
  }

  /** A request line whose second token is exactly "/" gets the bare 200 reply. */
  lemma RespondRoot(lead: seq<byte>, verb: seq<byte>, sep: seq<byte>, tail: seq<byte>, rest: seq<byte>)
    requires Blank(lead) && IsWord(verb) && Blank(sep) && |sep| > 0 && Delimited(tail)
    requires var line := lead + verb + sep + Slash + tail; LF !in line && ValidUtf8(line)
    ensures Respond(lead + verb + sep + Slash + tail + CRLF + rest) == Success(StatusResponse(Status200))
  {
    FirstLineOfRequest(lead + verb + sep + Slash + tail, rest);
    TargetOfRequestLine(lead, verb, sep, Slash, tail);
  }

  /** Any other target, "/echo" without its slash among them, gets the bare 404 reply. */
  lemma RespondNotFound(lead: seq<byte>, verb: seq<byte>, sep: seq<byte>, target: seq<byte>, tail: seq<byte>, rest: seq<byte>)
    requires Blank(lead) && IsWord(verb) && Blank(sep) && |sep| > 0 && IsWord(target) && Delimited(tail)
    requires !StartsWith(target, EchoPrefix) && target != Slash
    requires var line := lead + verb + sep + target + tail; LF !in line && ValidUtf8(line)
    ensures Respond(lead + verb + sep + target + tail + CRLF + rest) == Success(StatusResponse(Status404))
  {
    FirstLineOfRequest(lead + verb + sep + target + tail, rest);
    TargetOfRequestLine(lead, verb, sep, target, tail);
  }

  /** "POST /echo/x HTTP/1.1\r\n..." echoes "x" with Content-Length 1. */
  lemma PostEchoes(rest: seq<byte>)
    ensures Respond([80, 79, 83, 84, 32, 47, 101, 99, 104, 111, 47, 120, 32, 72, 84, 84, 80, 47, 49, 46, 49, 13, 10] + rest)
      == Success(EchoResponse([120]))
  {
    var post: seq<byte> := [80, 79, 83, 84];
    var tail: seq<byte> := [SP] + HttpVersion;
    var line := [] + post + [SP] + (EchoPrefix + [120]) + tail;
    assert line + CRLF + rest == [80, 79, 83, 84, 32, 47, 101, 99, 104, 111, 47, 120, 32, 72, 84, 84, 80, 47, 49, 46, 49, 13, 10] + rest;
    AsciiIsValid(line);
    RespondEcho([], post, [SP], [120], tail, rest);
  }

  /** "HEAD /echo/x HTTP/1.1\r\n..." also gets the echo reply with its body: the method is never looked at. */
  lemma HeadEchoes(rest: seq<byte>)
    ensures Respond([72, 69, 65, 68, 32, 47, 101, 99, 104, 111, 47, 120, 32, 72, 84, 84, 80, 47, 49, 46, 49, 13, 10] + rest)
      == Success(EchoResponse([120]))
  {
    var head: seq<byte> := [72, 69, 65, 68];
    var tail: seq<byte> := [SP] + HttpVersion;
    var line := [] + head + [SP] + (EchoPrefix + [120]) + tail;
    assert line + CRLF + rest == [72, 69, 65, 68, 32, 47, 101, 99, 104, 111, 47, 120, 32, 72, 84, 84, 80, 47, 49, 46, 49, 13, 10] + rest;
    AsciiIsValid(line);
    RespondEcho([], head, [SP], [120], tail, rest);
  }

  /** "/echo/" alone echoes the empty text: Content-Length 0 and no body. */
  lemma EchoNothing()
    ensures Route(EchoPrefix) == Echo([])
    ensures EchoResponse([]) == EchoPreamble + [48] + CRLF + CRLF
  {
    assert EchoPrefix == EchoPrefix + [];
  }
}
