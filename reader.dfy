/**
 * A client's reading of an HTTP/1.1 response (sections 2.1, 4, 5 and 6.3 of
 * RFC 9112): the status line, the field lines up to the empty line, and a
 * body framed by Content-Length or, without one, by the close of the
 * connection. It is the inverse against which the server's responses are
 * checked; Render is the grammar's own serialisation of a message.
 */
module Reader {
  import opened Wrappers
  import opened Bytes
  import opened Numerals

  datatype Field = Field(name: seq<byte>, value: seq<byte>)

  datatype Message = Message(version: seq<byte>, code: nat, reason: seq<byte>, fields: seq<Field>, body: seq<byte>)

  /** How the body of a response is delimited. */
  datatype Framing = UntilClose | Length(n: nat) | BadLength

  /** "Content-Length" */
  const ContentLengthName: seq<byte> := [67, 111, 110, 116, 101, 110, 116, 45, 76, 101, 110, 103, 116, 104]

  /** Index of the first CRLF in `s`. */
  function FindCrlf(s: seq<byte>): (r: Option<nat>)
    ensures r.Some? ==> r.value + 2 <= |s| && s[r.value] == CR && s[r.value + 1] == LF
  {
    if |s| < 2 then None
    else if s[0] == CR && s[1] == LF then Some(0)
    else
      match FindCrlf(s[1..])
      case None => None
      case Some(i) => Some(i + 1)
  }

  lemma {:induction false} FindCrlfAfter(x: seq<byte>, y: seq<byte>)
    requires CR !in x
    ensures FindCrlf(x + CRLF + y) == Some(|x|)
  {
    if x != [] {
      assert (x + CRLF + y)[1..] == x[1..] + CRLF + y;
      FindCrlfAfter(x[1..], y);
    }
  }

  /** One CRLF-terminated line and what follows it. */
  function ReadLine(s: seq<byte>): (r: Option<(seq<byte>, seq<byte>)>)
    ensures r.Some? ==> |r.value.1| < |s|
  {
    match FindCrlf(s)
    case None => None
    case Some(i) => Some((s[..i], s[i + 2..]))
  }

  lemma ReadLineOf(x: seq<byte>, y: seq<byte>)
    requires CR !in x
    ensures ReadLine(x + CRLF + y) == Some((x, y))
  {
    FindCrlfAfter(x, y);
    var s := x + CRLF + y;
    assert s[..|x|] == x && s[|x| + 2..] == y;
  }

  /** status-line = HTTP-version SP status-code SP reason-phrase, with a three-digit code. */
  function ParseStatusLine(line: seq<byte>): (r: Option<(seq<byte>, nat, seq<byte>)>)
    ensures r.Some? ==> SP !in r.value.0
  {
    match FindByte(line, SP)
    case None => None
    case Some(i) =>
      var after := line[i + 1..];
      if |after| >= 4 && AllDigits(after[..3]) && after[3] == SP then
        Some((line[..i], Value(after[..3]), after[4..]))
      else None
  }

  /** Drops the optional whitespace before a field value. */
  function SkipOws(v: seq<byte>): (r: seq<byte>)
    ensures r == [] || (r[0] != SP && r[0] != HTAB)
  {
    if v != [] && (v[0] == SP || v[0] == HTAB) then SkipOws(v[1..]) else v
  }

  /** field-line = field-name ":" OWS field-value */
  function ParseField(line: seq<byte>): (r: Option<Field>)
    ensures r.Some? ==> |r.value.name| > 0 && COLON !in r.value.name
  {
    match FindByte(line, COLON)
    case None => None
    case Some(i) => if i == 0 then None else Some(Field(line[..i], SkipOws(line[i + 1..])))
  }

  /** The field lines up to and including the empty line, and the bytes after it. */
  function ReadFields(s: seq<byte>): (r: Option<(seq<Field>, seq<byte>)>)
    decreases |s|
  {
    match ReadLine(s)
    case None => None
    case Some((line, rest)) =>
      if line == [] then Some(([], rest))
      else
        match ParseField(line)
        case None => None
        case Some(f) =>
          match ReadFields(rest)
          case None => None
          case Some((fs, after)) => Some(([f] + fs, after))
  }

  /** The framing the first Content-Length field announces. */
  function FramingOf(fields: seq<Field>): Framing {
    if fields == [] then UntilClose
    else if fields[0].name == ContentLengthName then
      match ParseDecimal(fields[0].value)
      case Some(n) => Length(n)
      case None => BadLength
    else FramingOf(fields[1..])
  }

  /**
   * Reads one response off `s` (everything the server sent before it closed
   * the connection) and returns it with the bytes left over after its body.
   */
  function Read(s: seq<byte>): (r: Option<(Message, seq<byte>)>)
    ensures r.Some? ==> FramingOf(r.value.0.fields) in {UntilClose, Length(|r.value.0.body|)}
    ensures r.Some? && FramingOf(r.value.0.fields) == UntilClose ==> r.value.1 == []
  {
    match ReadLine(s)
    case None => None
    case Some((statusLine, rest)) =>
      match ParseStatusLine(statusLine)
      case None => None
      case Some((version, code, reason)) =>
        match ReadFields(rest)
        case None => None
        case Some((fields, payload)) =>
          match FramingOf(fields)
          case BadLength => None
          case UntilClose => Some((Message(version, code, reason, fields, payload), []))
          case Length(n) =>
            if n <= |payload| then Some((Message(version, code, reason, fields, payload[..n]), payload[n..]))
            else None
  }

  // ---- the grammar's serialisation, and reading it back ----

  function RenderFields(fs: seq<Field>): seq<byte> {
    if fs == [] then [] else fs[0].name + [COLON, SP] + fs[0].value + CRLF + RenderFields(fs[1..])
  }

  function Render(m: Message): seq<byte> {
    m.version + [SP] + Decimal(m.code) + [SP] + m.reason + CRLF + RenderFields(m.fields) + CRLF + m.body
  }

  predicate FieldOk(f: Field) {
    |f.name| > 0 && COLON !in f.name && CR !in f.name && CR !in f.value
    && (f.value == [] || (f.value[0] != SP && f.value[0] != HTAB))
  }

  /** What a message must satisfy to be written unambiguously in HTTP/1.1 framing. */
  predicate WellFormed(m: Message) {
    SP !in m.version && CR !in m.version && 100 <= m.code < 1000 && CR !in m.reason
    && (forall i :: 0 <= i < |m.fields| ==> FieldOk(m.fields[i]))
    && FramingOf(m.fields) in {UntilClose, Length(|m.body|)}
  }

  lemma DigitsHaveNoCr(s: seq<byte>)
    requires AllDigits(s)
    ensures CR !in s && SP !in s
  {
  }

  lemma ParseStatusLineOf(version: seq<byte>, code: nat, reason: seq<byte>)
    requires SP !in version && 100 <= code < 1000
    ensures ParseStatusLine(version + [SP] + Decimal(code) + [SP] + reason) == Some((version, code, reason))
  {
    var d := Decimal(code);
    ThreeDigits(code);
    ParseDecimalOfDecimal(code);
    var after := d + [SP] + reason;
    var line := version + [SP] + after;
    assert line == version + [SP] + d + [SP] + reason;
    FindByteAfter(version, SP, after);
    assert line[..|version|] == version;
    assert line[|version| + 1..] == after;
    StatusCodeOf(d, reason);
  }

  lemma StatusCodeOf(d: seq<byte>, reason: seq<byte>)
    requires |d| == 3 && AllDigits(d)
    ensures var after := d + [SP] + reason;
      |after| >= 4 && after[..3] == d && after[3] == SP && after[4..] == reason
  {
    var after := d + [SP] + reason;
    assert after[..3] == d;
    assert after[4..] == reason;
  }

  lemma ParseFieldOf(f: Field)
    requires FieldOk(f)
    ensures ParseField(f.name + [COLON, SP] + f.value) == Some(f)
  {
    var line := f.name + [COLON, SP] + f.value;
    assert line == f.name + [COLON] + ([SP] + f.value);
    FindByteAfter(f.name, COLON, [SP] + f.value);
    assert line[..|f.name|] == f.name;
    assert line[|f.name| + 1..] == [SP] + f.value;
    assert ([SP] + f.value)[1..] == f.value;
    assert SkipOws([SP] + f.value) == SkipOws(f.value) == f.value;
  }

  lemma {:induction false} ReadFieldsOf(fs: seq<Field>, body: seq<byte>)
    requires forall i :: 0 <= i < |fs| ==> FieldOk(fs[i])
    ensures ReadFields(RenderFields(fs) + CRLF + body) == Some((fs, body))
    decreases |fs|
  {
    if fs == [] {
      assert RenderFields(fs) + CRLF + body == [] + CRLF + body;
      ReadLineOf([], body);
    } else {
      var f := fs[0];
      var line := f.name + [COLON, SP] + f.value;
      var rest := RenderFields(fs[1..]) + CRLF + body;
      assert RenderFields(fs) + CRLF + body == line + CRLF + rest;
      assert FieldOk(f);
      ReadLineOf(line, rest);
      ParseFieldOf(f);
      ReadFieldsOf(fs[1..], body);
      assert [f] + fs[1..] == fs;
    }
  }

  /** Whatever a well-formed message renders to reads back as that message, with nothing left over. */
  lemma ReadRender(m: Message)
    requires WellFormed(m)
    ensures Read(Render(m)) == Some((m, []))
  {
    var statusLine := m.version + [SP] + Decimal(m.code) + [SP] + m.reason;
    var rest := RenderFields(m.fields) + CRLF + m.body;
    assert Render(m) == statusLine + CRLF + rest;
    DigitsHaveNoCr(Decimal(m.code));
    assert CR !in statusLine;
    ReadLineOf(statusLine, rest);
    ParseStatusLineOf(m.version, m.code, m.reason);
    ReadFieldsOf(m.fields, m.body);
    ReadOfParts(Render(m), statusLine, rest, m);
  }

  lemma ReadOfParts(s: seq<byte>, statusLine: seq<byte>, rest: seq<byte>, m: Message)
    requires ReadLine(s) == Some((statusLine, rest))
    requires ParseStatusLine(statusLine) == Some((m.version, m.code, m.reason))
    requires ReadFields(rest) == Some((m.fields, m.body))
    requires FramingOf(m.fields) in {UntilClose, Length(|m.body|)}
    ensures Read(s) == Some((m, []))
  {
    assert m == Message(m.version, m.code, m.reason, m.fields, m.body);
    assert m.body[..|m.body|] == m.body && m.body[|m.body|..] == [];
  }
}
