/** Bytes on the wire and the few byte classes the server and its reader look at. */
module Bytes {
  import opened Wrappers

  type byte = x: int | 0 <= x < 256

  const HTAB: byte := 9
  const LF: byte := 10
  const CR: byte := 13
  const SP: byte := 32
  const COLON: byte := 58

  /** "\r\n", the line terminator of HTTP/1.1 framing */
  const CRLF: seq<byte> := [CR, LF]

  /** The ASCII part of Rust's char::is_whitespace: HT, LF, VT, FF, CR and space. */
  predicate IsWhitespace(b: byte) {
    b == SP || HTAB <= b <= CR
  }

  predicate IsDigit(b: byte) {
    48 <= b <= 57
  }

  predicate AllDigits(s: seq<byte>) {
    forall i :: 0 <= i < |s| ==> IsDigit(s[i])
  }

  predicate StartsWith(s: seq<byte>, prefix: seq<byte>) {
    |prefix| <= |s| && s[..|prefix|] == prefix
  }

  /** Index of the first occurrence of `b` in `s`. */
  function FindByte(s: seq<byte>, b: byte): (r: Option<nat>)
    ensures r.None? <==> b !in s
    ensures r.Some? ==> r.value < |s| && s[r.value] == b && b !in s[..r.value]
  {
    if s == [] then None
    else if s[0] == b then Some(0)
    else
      match FindByte(s[1..], b)
      case None => None
      case Some(i) =>
        assert s[..i + 1] == [s[0]] + s[1..][..i];
        Some(i + 1)
  }

  lemma {:induction false} FindByteAfter(x: seq<byte>, b: byte, y: seq<byte>)
    requires b !in x
    ensures FindByte(x + [b] + y, b) == Some(|x|)
  {
    if x != [] {
      assert (x + [b] + y)[1..] == x[1..] + [b] + y;
      FindByteAfter(x[1..], b, y);
    }
  }
}
