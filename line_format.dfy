/**
 * The text printed for one assembled line: the pod name in blue, a
 * separator, a colour reset, then the line's text.
 */
module LineFormat {
  import opened Wrappers
  import opened Text

  const Esc: char := '\U{1B}'
  /** ANSI "foreground blue". */
  const ColorBlue: string := [Esc] + "[34m"
  /** ANSI "reset attributes". */
  const ColorReset: string := [Esc] + "[0m"
  const Separator: string := " | "

  /** The printed form of line `text` of pod `pod`. */
  function FormatLine(pod: string, text: string): (r: string)
    ensures |r| == |ColorBlue| + |pod| + |Separator| + |ColorReset| + |text|
    ensures r[..|ColorBlue|] == ColorBlue && r[|r| - |text|..] == text
  {
    ColorBlue + pod + Separator + ColorReset + text
  }

  /**
   * Recovers the pod and the text from a printed line: the tag ends at the
   * first escape character after the opening colour, which must be preceded
   * by the separator and start the colour reset.
   */
  function ParseLine(line: string): (r: Option<(string, string)>)
  {
    if |line| < |ColorBlue| || line[..|ColorBlue|] != ColorBlue then None
    else
      var rest := line[|ColorBlue|..];
      var i := IndexOf(rest, Esc);
      if i < |Separator| || rest[i - |Separator|..i] != Separator
         || |rest| < i + |ColorReset| || rest[i..i + |ColorReset|] != ColorReset
      then None
      else Some((rest[..i - |Separator|], rest[i + |ColorReset|..]))
  }

  /** A line printed for a pod whose name holds no escape character parses back to that pod and text. */
  lemma {:induction false} ParseFormatted(pod: string, text: string)
    requires Esc !in pod
    ensures ParseLine(FormatLine(pod, text)) == Some((pod, text))
  {
    var line := FormatLine(pod, text);
    assert line[..|ColorBlue|] == ColorBlue;
    var rest := line[|ColorBlue|..];
    assert rest == pod + Separator + [Esc] + ("[0m" + text);
    assert Esc !in pod + Separator;
    IndexOfAfter(pod + Separator, Esc, "[0m" + text);
    var i := IndexOf(rest, Esc);
    assert i == |pod| + |Separator|;
    assert rest == pod + Separator + ColorReset + text;
    assert rest[..i - |Separator|] == pod;
    assert rest[i - |Separator|..i] == Separator;
    assert rest[i..i + |ColorReset|] == ColorReset;
    assert rest[i + |ColorReset|..] == text;
  }

  /** Everything that parses is a printed line, so parsing and printing are inverse. */
  lemma {:induction false} ParsedIsFormatted(line: string, pod: string, text: string)
    requires ParseLine(line) == Some((pod, text))
    ensures Esc !in pod && FormatLine(pod, text) == line
  {
    var rest := line[|ColorBlue|..];
    var i := IndexOf(rest, Esc);
    var j := i - |Separator|;
    var k := i + |ColorReset|;
    assert pod == rest[..j] && text == rest[k..];
    assert rest[j..i] == Separator && rest[i..k] == ColorReset;
    IndexOfFirst(rest, Esc);
    assert forall m :: 0 <= m < j ==> pod[m] == rest[m];
    Pieces(rest, j, i, k);
    assert line == ColorBlue + rest;
  }

  lemma {:induction false} Pieces<T>(s: seq<T>, j: nat, i: nat, k: nat)
    requires j <= i <= k <= |s|
    ensures s == s[..j] + s[j..i] + s[i..k] + s[k..]
  {
  }

  /** Distinct pods (or distinct texts) never print the same line. */
  lemma {:induction false} FormatInjective(pod1: string, text1: string, pod2: string, text2: string)
    requires Esc !in pod1 && Esc !in pod2
    requires FormatLine(pod1, text1) == FormatLine(pod2, text2)
    ensures pod1 == pod2 && text1 == text2
  {
    ParseFormatted(pod1, text1);
    ParseFormatted(pod2, text2);
  }
}
