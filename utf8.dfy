/**
 * Well-formed UTF-8 (the UTF8-octets grammar of section 4 of RFC 3629), which
 * is what Rust checks before a line read off the socket becomes a `String`.
 */
module Utf8 {
  import opened Bytes

  predicate IsTail(b: byte) {
    0x80 <= b <= 0xBF
  }

  /** Length of the encoding a lead byte announces, or 0 for a byte that cannot start a character. */
  function LeadWidth(b: byte): nat {
    if b < 0x80 then 1
    else if b < 0xC2 then 0
    else if b < 0xE0 then 2
    else if b < 0xF0 then 3
    else if b < 0xF5 then 4
    else 0
  }

  /** The range the second byte must fall in, which excludes overlong forms, surrogates and values past U+10FFFF. */
  predicate SecondFits(lead: byte, b: byte) {
    (if lead == 0xE0 then 0xA0 else if lead == 0xF0 then 0x90 else 0x80) <= b
    && b <= (if lead == 0xED then 0x9F else if lead == 0xF4 then 0x8F else 0xBF)
  }

  /**
   * Number of bytes of the well-formed encoded character at position `i` of
   * `s`, or 0 when none starts there.
   */
  function CharWidthAt(s: seq<byte>, i: nat): (w: nat)
    requires i < |s|
    ensures w <= 4 && i + w <= |s|
    ensures w == 1 <==> s[i] < 0x80
  {
    var w := LeadWidth(s[i]);
    if w == 0 || |s| < i + w then 0
    else if w == 1 then 1
    else if SecondFits(s[i], s[i + 1]) && (w < 3 || IsTail(s[i + 2])) && (w < 4 || IsTail(s[i + 3])) then w
    else 0
  }

  /** The bytes from position `i` on are a sequence of well-formed characters. */
  predicate ValidFrom(s: seq<byte>, i: nat)
    requires i <= |s|
    decreases |s| - i
  {
    i == |s| || (CharWidthAt(s, i) > 0 && ValidFrom(s, i + CharWidthAt(s, i)))
  }

  predicate ValidUtf8(s: seq<byte>) {
    ValidFrom(s, 0)
  }

  predicate IsAscii(s: seq<byte>) {
    forall i :: 0 <= i < |s| ==> s[i] < 0x80
  }

  lemma {:induction false} AsciiFrom(s: seq<byte>, i: nat)
    requires i <= |s| && IsAscii(s)
    ensures ValidFrom(s, i)
    decreases |s| - i
  {
    if i < |s| {
      AsciiFrom(s, i + 1);
    }
  }

  lemma AsciiIsValid(s: seq<byte>)
    requires IsAscii(s)
    ensures ValidUtf8(s)
  {
    AsciiFrom(s, 0);
  }

  /** A character wholly inside `s` measures the same inside `s + t`. */
  lemma CharWidthInPrefix(s: seq<byte>, t: seq<byte>, i: nat)
    requires i < |s|
    requires CharWidthAt(s, i) > 0 || CharWidthAt(s + t, i) <= |s| - i
    ensures CharWidthAt(s + t, i) == CharWidthAt(s, i)
  {
    var u := s + t;
    assert forall k :: 0 <= k < |s| ==> u[k] == s[k];
  }

  lemma {:induction false} ValidFromAppend(s: seq<byte>, t: seq<byte>, i: nat)
    requires i <= |s| && ValidFrom(s, i) && ValidUtf8(t)
    ensures ValidFrom(s + t, i)
    decreases |s| - i
  {
    if i == |s| {
      TailFrom(s, t, 0);
    } else {
      CharWidthInPrefix(s, t, i);
      ValidFromAppend(s, t, i + CharWidthAt(s, i));
    }
  }

  /** Positions of `t` inside `s + t` are those of `t` shifted by |s|. */
  lemma {:induction false} TailFrom(s: seq<byte>, t: seq<byte>, j: nat)
    requires j <= |t| && ValidFrom(t, j)
    ensures ValidFrom(s + t, |s| + j)
    decreases |t| - j
  {
    if j < |t| {
      var u := s + t;
      assert forall k :: 0 <= k < |t| ==> u[|s| + k] == t[k];
      assert CharWidthAt(u, |s| + j) == CharWidthAt(t, j);
      TailFrom(s, t, j + CharWidthAt(t, j));
    }
  }

  /** Well-formed text followed by well-formed text is well-formed. */
  lemma ValidAppend(s: seq<byte>, t: seq<byte>)
    requires ValidUtf8(s) && ValidUtf8(t)
    ensures ValidUtf8(s + t)
  {
    ValidFromAppend(s, t, 0);
  }

  lemma {:induction false} ValidFromBeforeAscii(s: seq<byte>, t: seq<byte>, i: nat)
    requires i <= |s| && ValidFrom(s + t, i) && IsAscii(t)
    ensures ValidFrom(s, i)
    decreases |s| - i
  {
    if i < |s| {
      var u := s + t;
      var w := CharWidthAt(u, i);
      CharWidthInPrefix(s, t, i);
      ValidFromBeforeAscii(s, t, i + w);
    }
  }

  /** Cutting ASCII off the end of well-formed text leaves well-formed text. */
  lemma ValidBeforeAscii(s: seq<byte>, t: seq<byte>)
    requires ValidUtf8(s + t) && IsAscii(t)
    ensures ValidUtf8(s)
  {
    ValidFromBeforeAscii(s, t, 0);
  }
}
