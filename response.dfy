/**
 * The response bytes handle_connection builds with `format!`, and the proof
 * that a client reads them back as the intended status, fields and body.
 */
module Response {
  import opened Wrappers
  import opened Bytes
  import opened Numerals
  import opened Router
  import opened Reader

  /** "HTTP/1.1" */
  const HttpVersion: seq<byte> := [72, 84, 84, 80, 47, 49, 46, 49]

  /** "HTTP/1.1 " */
  const StatusLinePrefix: seq<byte> := HttpVersion + [SP]

  /** "200 OK" */
  const Status200: seq<byte> := [50, 48, 48, 32, 79, 75]

  /** "404 Not Found" */
  const Status404: seq<byte> := [52, 48, 52, 32, 78, 111, 116, 32, 70, 111, 117, 110, 100]

  /** "Content-Type" */
  const ContentTypeName: seq<byte> := [67, 111, 110, 116, 101, 110, 116, 45, 84, 121, 112, 101]

  /** "text/plain" */
  const TextPlain: seq<byte> := [116, 101, 120, 116, 47, 112, 108, 97, 105, 110]

  /** ": " */
  const ColonSp: seq<byte> := [COLON, SP]

  /**
   * "HTTP/1.1 200 OK\r\nContent-Type: text/plain\r\nContent-Length: ", the
   * fixed part of the echo reply, line by line as the format string has it.
   */
  const EchoPreamble: seq<byte> :=
    StatusLinePrefix + Status200 + CRLF
    + ContentTypeName + ColonSp + TextPlain + CRLF
    + ContentLengthName + ColonSp

  /**
   * The echo reply: the preamble, the body's byte length in decimal, an
   * empty line, the body. The digits between the preamble and the empty
   * line read back as the length of what follows the empty line.
   */
  function EchoResponse(text: seq<byte>): (r: seq<byte>)
    ensures StartsWith(r, EchoPreamble) && |r| >= |EchoPreamble| + |text| + 4
    ensures r[|r| - |text| - 4..] == CRLF + CRLF + text
    ensures ParseDecimal(r[|EchoPreamble|..|r| - |text| - 4]) == Some(|text|)
  {
    var d := Decimal(|text|);
    var r := EchoPreamble + d + CRLF + CRLF + text;
    assert r[..|EchoPreamble|] == EchoPreamble;
    assert r[|r| - |text| - 4..] == CRLF + CRLF + text;
    assert r[|EchoPreamble|..|r| - |text| - 4] == d;
    ParseDecimalOfDecimal(|text|);
    r
  }

  /**
   * The reply with a status line and nothing else: its first line is the
   * status line, and the empty line that ends the header section follows at
   * once, with no field and no body after it.
   */
  function StatusResponse(status: seq<byte>): (r: seq<byte>)
    ensures CR !in status ==> ReadLine(r) == Some((StatusLinePrefix + status, CRLF))
    ensures CR !in status ==> ReadFields(r[|StatusLinePrefix + status| + 2..]) == Some(([], []))
  {
    var r := StatusLinePrefix + status + CRLF + CRLF;
    if CR in status then r
    else
      ReadLineOf(StatusLinePrefix + status, CRLF);
      assert r[|StatusLinePrefix + status| + 2..] == CRLF;
      ReadLineOf([], []);
      assert [] + CRLF + [] == CRLF;
      r
  }

  function BodyOf(o: Outcome): seq<byte> {
    if o.Echo? then o.text else []
  }

  /** The bytes written for an outcome: every reply is an HTTP/1.1 status line and ends with the body. */
  function Serialize(o: Outcome): (r: seq<byte>)
    ensures StartsWith(r, StatusLinePrefix)
    ensures |r| >= |BodyOf(o)| + 4 && r[|r| - |BodyOf(o)| - 4..] == CRLF + CRLF + BodyOf(o)
  {
    match o
    case Echo(text) =>
      var r := EchoResponse(text);
      assert r[..|StatusLinePrefix|] == r[..|EchoPreamble|][..|StatusLinePrefix|];
      r
    case Root => StatusResponse(Status200)
    case NotFound => StatusResponse(Status404)
  }

  // ---- the messages the replies stand for ----

  /** "OK" */
  const ReasonOk: seq<byte> := [79, 75]

  /** "Not Found" */
  const ReasonNotFound: seq<byte> := [78, 111, 116, 32, 70, 111, 117, 110, 100]

  /**
   * The message a client should see for each outcome: 200 with a text/plain
   * body and its exact length for an echo, a bare 200 for the root and a
   * bare 404 otherwise.
   */
  function MessageOf(o: Outcome): Message {
    match o
    case Echo(text) =>
      Message(HttpVersion, 200, ReasonOk,
        [Field(ContentTypeName, TextPlain), Field(ContentLengthName, Decimal(|text|))], text)
    case Root => Message(HttpVersion, 200, ReasonOk, [], [])
    case NotFound => Message(HttpVersion, 404, ReasonNotFound, [], [])
  }

  lemma Status200Parts()
    ensures Status200 == Decimal(200) + [SP] + ReasonOk
  {
    assert Decimal(20) == Decimal(2) + [48];
  }

  lemma Status404Parts()
    ensures Status404 == Decimal(404) + [SP] + ReasonNotFound
  {
    assert Decimal(40) == Decimal(4) + [48];
  }

  /** The bytes of each reply are the HTTP/1.1 rendering of its message. */
  lemma SerializeRenders(o: Outcome)
    ensures Serialize(o) == Render(MessageOf(o))
  {
    match o
    case Echo(text) => EchoRenders(text);
    case Root =>
      Status200Parts();
      StatusRenders(200, ReasonOk);
    case NotFound =>
      Status404Parts();
      StatusRenders(404, ReasonNotFound);
  }

  lemma StatusRenders(code: nat, reason: seq<byte>)
    ensures StatusResponse(Decimal(code) + [SP] + reason)
      == Render(Message(HttpVersion, code, reason, [], []))
  {
    assert RenderFields([]) == [];
  }

  lemma EchoRenders(text: seq<byte>)
    ensures EchoResponse(text) == Render(MessageOf(Echo(text)))
  {
    var m := MessageOf(Echo(text));
    var d := Decimal(|text|);
    var statusLine := HttpVersion + [SP] + Decimal(200) + [SP] + ReasonOk;
    var contentType := ContentTypeName + [COLON, SP] + TextPlain + CRLF;
    var contentLength := ContentLengthName + [COLON, SP] + d + CRLF;
    Status200Parts();
    assert EchoPreamble == statusLine + CRLF + contentType + ContentLengthName + [COLON, SP];
    assert RenderFields(m.fields) == contentType + contentLength by {
      assert RenderFields(m.fields[1..]) == contentLength + RenderFields([]);
    }
    calc {
      Render(m);
      statusLine + CRLF + (contentType + contentLength) + CRLF + text;
      (statusLine + CRLF + contentType + ContentLengthName + [COLON, SP]) + d + CRLF + CRLF + text;
      EchoResponse(text);
    }
  }

  lemma MessageOfWellFormed(o: Outcome)
    ensures WellFormed(MessageOf(o))
  {
    var m := MessageOf(o);
    if o.Echo? {
      var d := Decimal(|o.text|);
      DigitsHaveNoCr(d);
      assert FieldOk(m.fields[0]) && FieldOk(m.fields[1]);
      assert ContentTypeName != ContentLengthName by {
        assert ContentTypeName[8] != ContentLengthName[8];
      }
      ParseDecimalOfDecimal(|o.text|);
      assert FramingOf(m.fields) == FramingOf(m.fields[1..]);
    }
  }

  /**
   * A client reads every reply back as its message: for an echo, the body
   * after the empty line is exactly the echoed text and the Content-Length
   * field gives its byte length; the other replies have no body. Nothing
   * follows the body.
   */
  lemma ReadServed(o: Outcome)
    ensures Read(Serialize(o)) == Some((MessageOf(o), []))
  {
    SerializeRenders(o);
    MessageOfWellFormed(o);
    ReadRender(MessageOf(o));
  }

  lemma ReadEcho(text: seq<byte>)
    ensures Read(EchoResponse(text)).Some?
    ensures var m := Read(EchoResponse(text)).value.0;
      m.code == 200 && m.body == text && FramingOf(m.fields) == Length(|text|)
    ensures Read(EchoResponse(text)).value.1 == []
  {
    ReadServed(Echo(text));
    MessageOfWellFormed(Echo(text));
  }
}
