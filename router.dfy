/**
 * The three-way choice of handle_connection: a target under "/echo/" is
 * echoed, the target "/" is the root, and every other target is not found.
 */
module Router {
  import opened Bytes
  import opened Request

  /** "/echo/" */
  const EchoPrefix: seq<byte> := [47, 101, 99, 104, 111, 47]

  datatype Outcome =
    | Echo(text: seq<byte>)  // 200 with `text` as a text/plain body
    | Root                   // 200 with no body
    | NotFound               // 404 with no body

  /**
   * The echo test comes first, then the "/" test. The two guards are
   * disjoint, so the outcome is fixed by the target alone.
   */
  function Route(target: seq<byte>): (o: Outcome)
    ensures o.Echo? <==> StartsWith(target, EchoPrefix)
    ensures o.Echo? ==> target == EchoPrefix + o.text
    ensures o.Root? <==> target == Slash
    ensures o.NotFound? <==> !StartsWith(target, EchoPrefix) && target != Slash
  {
    if StartsWith(target, EchoPrefix) then
      assert target == target[..6] + target[6..];
      Echo(target[6..])
    else if target == Slash then Root
    else NotFound
  }

  /**
   * The echoed text comes from one whitespace-free token, so it holds no
   * whitespace, in particular no CR and no LF.
   */
  lemma EchoTextOfLine(line: seq<byte>)
    requires Route(Target(line)).Echo?
    ensures Solid(Route(Target(line)).text)
    ensures CR !in Route(Target(line)).text && LF !in Route(Target(line)).text
  {
    var t := Target(line);
    var x := Route(t).text;
    assert forall i :: 0 <= i < |x| ==> x[i] == t[i + 6];
  }

  /** Whatever the method and version tokens, `/echo/x` echoes `x`. */
  lemma EchoOfRequestLine(lead: seq<byte>, verb: seq<byte>, sep: seq<byte>, x: seq<byte>, tail: seq<byte>)
    requires Blank(lead) && IsWord(verb) && Blank(sep) && |sep| > 0
    requires Solid(x) && Delimited(tail)
    ensures Route(Target(lead + verb + sep + (EchoPrefix + x) + tail)) == Echo(x)
  {
    assert IsWord(EchoPrefix + x) by {
      assert forall i :: 6 <= i < |EchoPrefix + x| ==> (EchoPrefix + x)[i] == x[i - 6];
    }
    TargetOfRequestLine(lead, verb, sep, EchoPrefix + x, tail);
    assert (EchoPrefix + x)[..6] == EchoPrefix;
  }
}
