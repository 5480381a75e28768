/**
 * The request side of handle_connection: the first line of the stream
 * (`lines().next()`) and the target, the second whitespace-separated token
 * of that line (`split_whitespace().nth(1).unwrap_or("/")`).
 */
module Request {
  import opened Wrappers
  import opened Bytes
  import opened Utf8

  /** Why no request line could be read (each one is an `unwrap()` panic in the server). */
  datatype ReadError = EndOfStream | InvalidUtf8

  /** The bytes BufRead::read_line takes: up to and including the first LF, or all of them. */
  function LineChunk(stream: seq<byte>): (c: seq<byte>)
    ensures StartsWith(stream, c)
    ensures LF in c ==> c[|c| - 1] == LF && LF !in c[..|c| - 1]
    ensures LF !in c ==> c == stream
  {
    match FindByte(stream, LF)
    case None => stream
    case Some(i) =>
      assert stream[..i + 1][..i] == stream[..i];
      stream[..i + 1]
  }

  /** The line terminator that `lines()` removes: one LF, and then one CR before it. */
  function StripNewline(c: seq<byte>): (r: seq<byte>)
    ensures |r| <= |c| && c == r + c[|r|..]
    ensures c[|r|..] == [] || c[|r|..] == [LF] || c[|r|..] == CRLF
    ensures c[|r|..] == [] <==> c == [] || c[|c| - 1] != LF
    ensures c[|r|..] == CRLF <==> |c| >= 2 && c[|c| - 2..] == CRLF
  {
    if |c| > 0 && c[|c| - 1] == LF then
      var d := c[..|c| - 1];
      if |d| > 0 && d[|d| - 1] == CR then d[..|d| - 1] else d
    else c
  }

  /** The first line of the request stream, or why there is none. */
  function FirstLine(stream: seq<byte>): (r: Result<seq<byte>, ReadError>)
    ensures r == Failure(EndOfStream) <==> stream == []
    ensures r == Failure(InvalidUtf8) <==> stream != [] && !ValidUtf8(LineChunk(stream))
    ensures r.Success? ==> StartsWith(stream, r.value) && LF !in r.value && ValidUtf8(r.value)
  {
    if stream == [] then Failure(EndOfStream)
    else
      var chunk := LineChunk(stream);
      if !ValidUtf8(chunk) then Failure(InvalidUtf8)
      else
        LineOfChunk(stream);
        Success(StripNewline(chunk))
  }

  lemma LineOfChunk(stream: seq<byte>)
    ensures var line := StripNewline(LineChunk(stream));
      StartsWith(stream, line) && LF !in line &&
      (ValidUtf8(LineChunk(stream)) ==> ValidUtf8(line))
  {
    var chunk := LineChunk(stream);
    var line := StripNewline(chunk);
    var term := chunk[|line|..];
    assert chunk[..|line|] == line;
    assert stream[..|line|] == line;
    assert IsAscii(term);
    if ValidUtf8(chunk) {
      ValidBeforeAscii(line, term);
    }
  }

  /** A request line terminated by CRLF is read as exactly its own bytes. */
  lemma FirstLineOfRequest(line: seq<byte>, rest: seq<byte>)
    requires LF !in line && ValidUtf8(line)
    ensures FirstLine(line + CRLF + rest) == Success(line)
  {
    var s := line + CRLF + rest;
    FindByteAfter(line + [CR], LF, rest);
    assert line + [CR] + [LF] + rest == s;
    assert LineChunk(s) == line + CRLF;
    AsciiIsValid(CRLF);
    ValidAppend(line, CRLF);
  }

  /** A line terminated by a bare LF loses only the LF, unless it ends in CR. */
  lemma FirstLineOfBareLf(line: seq<byte>, rest: seq<byte>)
    requires LF !in line && ValidUtf8(line)
    requires line == [] || line[|line| - 1] != CR
    ensures FirstLine(line + [LF] + rest) == Success(line)
  {
    var s := line + [LF] + rest;
    FindByteAfter(line, LF, rest);
    assert LineChunk(s) == line + [LF];
    AsciiIsValid([LF]);
    ValidAppend(line, [LF]);
  }

  /** A stream that ends without any LF is one line, trailing CR included. */
  lemma FirstLineOfUnterminated(stream: seq<byte>)
    requires stream != [] && LF !in stream && ValidUtf8(stream)
    ensures FirstLine(stream) == Success(stream)
  {
  }

  // ---- split_whitespace ----

  predicate Blank(s: seq<byte>) {
    forall i :: 0 <= i < |s| ==> IsWhitespace(s[i])
  }

  /** No whitespace at all (possibly empty). */
  predicate Solid(s: seq<byte>) {
    forall i :: 0 <= i < |s| ==> !IsWhitespace(s[i])
  }

  /** A token: a non-empty run of non-whitespace bytes. */
  predicate IsWord(s: seq<byte>) {
    |s| > 0 && Solid(s)
  }

  /** `s` is empty or starts at a word boundary (a whitespace byte). */
  predicate Delimited(s: seq<byte>) {
    s == [] || IsWhitespace(s[0])
  }

  function SkipBlank(s: seq<byte>): (r: seq<byte>)
    ensures |r| <= |s|
    ensures r == [] || !IsWhitespace(r[0])
    ensures r == [] <==> Blank(s)
  {
    if s != [] && IsWhitespace(s[0]) then
      assert Blank(s) <==> Blank(s[1..]) by {
        assert forall i :: 1 <= i < |s| ==> s[i] == s[1..][i - 1];
      }
      SkipBlank(s[1..])
    else s
  }

  /** The longest whitespace-free prefix of `s`. */
  function LeadingWord(s: seq<byte>): (w: seq<byte>)
    ensures Solid(w) && StartsWith(s, w) && Delimited(s[|w|..])
  {
    if s == [] || IsWhitespace(s[0]) then []
    else
      var w := LeadingWord(s[1..]);
      assert s[1..][|w|..] == s[|w| + 1..];
      [s[0]] + w
  }

  /** The tokens of `s`, in order: what `split_whitespace()` yields. */
  function Tokens(s: seq<byte>): (r: seq<seq<byte>>)
    ensures r == [] <==> Blank(s)
    decreases |s|
  {
    var t := SkipBlank(s);
    if t == [] then []
    else
      var w := LeadingWord(t);
      [w] + Tokens(t[|w|..])
  }

  /**
   * The routing target: the second token of the request line, or "/" when
   * the line has fewer than two tokens. It is never empty and never holds
   * whitespace, so in particular no CR or LF.
   */
  function Target(line: seq<byte>): (t: seq<byte>)
    ensures IsWord(t)
  {
    var toks := Tokens(line);
    TokensAreWords(line);
    if |toks| >= 2 then toks[1] else Slash
  }

  /** "/" */
  const Slash: seq<byte> := [47]

  lemma {:induction false} TokensAreWords(s: seq<byte>)
    ensures forall i :: 0 <= i < |Tokens(s)| ==> IsWord(Tokens(s)[i])
    decreases |s|
  {
    var t := SkipBlank(s);
    if t != [] {
      var w := LeadingWord(t);
      TokensAreWords(t[|w|..]);
    }
  }

  // ---- how Tokens sees its input one byte at a time ----

  lemma TokensAfterBlankByte(c: byte, r: seq<byte>)
    requires IsWhitespace(c)
    ensures Tokens([c] + r) == Tokens(r)
  {
    assert ([c] + r)[1..] == r;
  }

  lemma {:induction false} TokensAfterBlank(b: seq<byte>, r: seq<byte>)
    requires Blank(b)
    ensures Tokens(b + r) == Tokens(r)
    decreases |b|
  {
    if b != [] {
      assert b + r == [b[0]] + (b[1..] + r);
      TokensAfterBlankByte(b[0], b[1..] + r);
      assert Tokens(b + r) == Tokens(b[1..] + r);
      TokensAfterBlank(b[1..], r);
      assert Tokens(b[1..] + r) == Tokens(r);
    } else {
      assert b + r == r;
    }
  }

  lemma {:induction false} LeadingWordOf(w: seq<byte>, r: seq<byte>)
    requires Solid(w) && Delimited(r)
    ensures LeadingWord(w + r) == w
    decreases |w|
  {
    if w != [] {
      assert (w + r)[1..] == w[1..] + r;
      LeadingWordOf(w[1..], r);
    } else {
      assert w + r == r;
    }
  }

  /** A word followed by a boundary is the first token. */
  lemma TokensOfWord(w: seq<byte>, r: seq<byte>)
    requires IsWord(w) && Delimited(r)
    ensures Tokens(w + r) == [w] + Tokens(r)
  {
    LeadingWordOf(w, r);
    assert (w + r)[|w|..] == r;
  }

  lemma TokensOfBlank(b: seq<byte>)
    requires Blank(b)
    ensures Tokens(b) == []
  {
    TokensAfterBlank(b, []);
    assert b + [] == b;
  }

  /**
   * The target of `lead verb sep target tail` is `target`, whatever the
   * method and whatever comes after the target: "POST /echo/x HTTP/1.1" and
   * "GET /echo/x" route alike.
   */
  lemma TargetOfRequestLine(lead: seq<byte>, verb: seq<byte>, sep: seq<byte>, target: seq<byte>, tail: seq<byte>)
    requires Blank(lead) && IsWord(verb) && Blank(sep) && |sep| > 0
    requires IsWord(target) && Delimited(tail)
    ensures Target(lead + verb + sep + target + tail) == target
  {
    var line := lead + verb + sep + target + tail;
    assert line == lead + (verb + (sep + (target + tail)));
    TokensAfterBlank(lead, verb + (sep + (target + tail)));
    TokensOfWord(verb, sep + (target + tail));
    TokensAfterBlank(sep, target + tail);
    TokensOfWord(target, tail);
  }

  /** A line with at most one token (an empty line included) has target "/". */
  lemma TargetOfShortLine(lead: seq<byte>, word: seq<byte>, trail: seq<byte>)
    requires Blank(lead) && Solid(word) && Blank(trail)
    ensures Target(lead + word + trail) == Slash
  {
    var line := lead + word + trail;
    assert line == lead + (word + trail);
    TokensAfterBlank(lead, word + trail);
    if word == [] {
      assert word + trail == trail;
      TokensOfBlank(trail);
    } else {
      TokensOfWord(word, trail);
      TokensOfBlank(trail);
    }
  }

  // ---- the reference reading of split_whitespace: split at every whitespace byte, drop empty pieces ----

  /** The pieces between whitespace bytes (as `split(char::is_whitespace)`); never empty. */
  function SplitAtWhitespace(s: seq<byte>): (r: seq<seq<byte>>)
    ensures |r| > 0
  {
    if s == [] then [[]]
    else
      var p := SplitAtWhitespace(s[1..]);
      if IsWhitespace(s[0]) then [[]] + p else [[s[0]] + p[0]] + p[1..]
  }

  function NonEmpty(ps: seq<seq<byte>>): seq<seq<byte>> {
    if ps == [] then [] else (if ps[0] == [] then [] else [ps[0]]) + NonEmpty(ps[1..])
  }

  lemma {:induction false} FirstPieceEmpty(s: seq<byte>)
    ensures SplitAtWhitespace(s)[0] == [] <==> Delimited(s)
  {
  }

  lemma TokensOfSolidByte(c: byte, r: seq<byte>)
    requires !IsWhitespace(c)
    ensures Delimited(r) ==> Tokens([c] + r) == [[c]] + Tokens(r)
    ensures !Delimited(r) ==> |Tokens(r)| > 0 && Tokens([c] + r) == [[c] + Tokens(r)[0]] + Tokens(r)[1..]
  {
    if Delimited(r) {
      TokensOfWord([c], r);
    } else {
      TokensOfSolidBytes(c, r);
    }
  }

  lemma TokensOfSolidBytes(c: byte, r: seq<byte>)
    requires !IsWhitespace(c) && !Delimited(r)
    ensures |Tokens(r)| > 0 && Tokens([c] + r) == [[c] + Tokens(r)[0]] + Tokens(r)[1..]
  {
    var w := LeadingWord(r);
    var rest := r[|w|..];
    assert r == w + rest;
    assert [c] + r == ([c] + w) + rest;
    assert IsWord([c] + w) by {
      assert forall i :: 1 <= i < |[c] + w| ==> ([c] + w)[i] == w[i - 1];
    }
    TokensOfWord([c] + w, rest);
    TokensOfWord(w, rest);
  }

  /** Tokens agrees with the split-then-filter reading of split_whitespace. */
  lemma {:induction false} TokensAreNonEmptyPieces(s: seq<byte>)
    ensures Tokens(s) == NonEmpty(SplitAtWhitespace(s))
    decreases |s|
  {
    if s != [] {
      var c, r := s[0], s[1..];
      assert s == [c] + r;
      TokensAreNonEmptyPieces(r);
      var p := SplitAtWhitespace(r);
      FirstPieceEmpty(r);
      if IsWhitespace(c) {
        TokensAfterBlankByte(c, r);
        assert NonEmpty([[]] + p) == NonEmpty(p) by {
          assert ([[]] + p)[1..] == p;
        }
      } else {
        TokensOfSolidByte(c, r);
        var q := [[c] + p[0]] + p[1..];
        assert NonEmpty(q) == [[c] + p[0]] + NonEmpty(p[1..]) by {
          assert q[1..] == p[1..];
        }
        assert NonEmpty(p) == (if p[0] == [] then [] else [p[0]]) + NonEmpty(p[1..]);
      }
    }
  }
}
