/**
 * What one pod's log worker prints for a given sequence of stream reads,
 * stated read by read, and the properties of that printout.  Standard
 * output is modelled as the sequence of `Println` calls the worker makes,
 * each recorded as a log line or an error line.
 */
module LogTrace {
  import opened Wrappers
  import opened LineSplit
  import opened LineFormat

  /** How a read of the stream ended. */
  datatype ReadError = NoError | EndOfFile | Failed(message: string)

  /** What one read of the stream returned: the decoded characters and the error. */
  datatype ReadResult = ReadResult(data: string, err: ReadError)

  /** One printed line of standard output. */
  datatype Printed = LogLine(text: string) | ErrorLine(message: string)

  /**
   * The printed text: an error prints its bare message, a log line prints
   * with the pod tag in front, from which the pod and the text can be read back.
   */
  function Render(pod: string, p: Printed): (r: string)
    ensures p.ErrorLine? ==> r == p.message
    ensures p.LogLine? ==> |r| == |ColorBlue| + |pod| + |Separator| + |ColorReset| + |p.text|
    ensures p.LogLine? ==> r[..|ColorBlue|] == ColorBlue && r[|r| - |p.text|..] == p.text
    ensures p.LogLine? && Esc !in pod ==> ParseLine(r) == Some((pod, p.text))
  {
    match p
    case LogLine(text) =>
      if Esc !in pod then ParseFormatted(pod, text); FormatLine(pod, text)
      else FormatLine(pod, text)
    case ErrorLine(message) => message
  }

  function RenderAll(pod: string, ps: seq<Printed>): (r: seq<string>)
    ensures |r| == |ps|
    ensures forall k :: 0 <= k < |ps| ==> r[k] == Render(pod, ps[k])
  {
    seq(|ps|, k requires 0 <= k < |ps| => Render(pod, ps[k]))
  }

  function LogLines(texts: seq<string>): (r: seq<Printed>)
  {
    if texts == [] then [] else [LogLine(texts[0])] + LogLines(texts[1..])
  }

  /** The texts of the log lines in `ps`, in order. */
  function Logs(ps: seq<Printed>): (r: seq<string>)
  {
    if ps == [] then []
    else (if ps[0].LogLine? then [ps[0].text] else []) + Logs(ps[1..])
  }

  /** The messages of the error lines in `ps`, in order. */
  function Errors(ps: seq<Printed>): (r: seq<string>)
  {
    if ps == [] then []
    else (if ps[0].ErrorLine? then [ps[0].message] else []) + Errors(ps[1..])
  }

  /** The characters the worker processes: the data of every read before the first end of file. */
  function Delivered(results: seq<ReadResult>): (r: string)
  {
    if results == [] || results[0].err == EndOfFile then []
    else results[0].data + Delivered(results[1..])
  }

  /** The errors the worker prints: those of non-empty results before the first end of file. */
  function Reported(results: seq<ReadResult>): (r: seq<string>)
  {
    if results == [] || results[0].err == EndOfFile then []
    else if results[0].data != [] && results[0].err.Failed? then [results[0].err.message] + Reported(results[1..])
    else Reported(results[1..])
  }

  ghost predicate NoEof(results: seq<ReadResult>)
  {
    forall k :: 0 <= k < |results| ==> results[k].err != EndOfFile
  }

  /**
   * Everything the worker prints, read by read, with pending text `buf`:
   * the loop stops at end of file, skips empty results, prints a failed read's
   * error and still assembles its data, and assembles the data of every read
   * into whole lines against the pending text.
   */
  function Trace(buf: string, results: seq<ReadResult>): (r: seq<Printed>)
    decreases |results|
  {
    if results == [] || results[0].err == EndOfFile then []
    else if results[0].data == [] then Trace(buf, results[1..])
    else
      var text := buf + results[0].data;
      (if results[0].err.Failed? then [ErrorLine(results[0].err.message)] else [])
      + LogLines(Lines(text))
      + Trace(Pending(text), results[1..])
  }

  /** The pending text after the results, again by read. */
  function FinalBuffer(buf: string, results: seq<ReadResult>): (r: string)
    decreases |results|
  {
    if results == [] || results[0].err == EndOfFile then buf
    else if results[0].data == [] then FinalBuffer(buf, results[1..])
    else FinalBuffer(Pending(buf + results[0].data), results[1..])
  }

  // ---------------------------------------------------------------------
  // Facts about the helper functions

  lemma {:induction false} LogLinesAppend(a: seq<string>, b: seq<string>)
    ensures LogLines(a + b) == LogLines(a) + LogLines(b)
  {
    if a != [] {
      LogLinesAppend(a[1..], b);
      assert (a + b)[1..] == a[1..] + b;
    } else {
      assert a + b == b;
    }
  }

  lemma {:induction false} LogsAppend(a: seq<Printed>, b: seq<Printed>)
    ensures Logs(a + b) == Logs(a) + Logs(b)
    ensures Errors(a + b) == Errors(a) + Errors(b)
  {
    if a != [] {
      LogsAppend(a[1..], b);
      assert (a + b)[1..] == a[1..] + b;
    } else {
      assert a + b == b;
    }
  }

  lemma {:induction false} LogsOfLogLines(texts: seq<string>)
    ensures Logs(LogLines(texts)) == texts
    ensures Errors(LogLines(texts)) == []
  {
    if texts != [] {
      LogsOfLogLines(texts[1..]);
    }
  }

  /** A printout without error lines is determined by its log texts. */
  lemma {:induction false} OnlyLogLines(ps: seq<Printed>)
    requires Errors(ps) == []
    ensures ps == LogLines(Logs(ps))
  {
    if ps != [] {
      OnlyLogLines(ps[1..]);
    }
  }

  // ---------------------------------------------------------------------
  // Properties of the read loop

  /** The log texts and errors of one read's printout: its error line, if any, then its log lines. */
  lemma {:induction false} PrintoutOfRead(head: seq<Printed>, texts: seq<string>, tail: seq<Printed>)
    requires Logs(head) == []
    ensures Logs(head + LogLines(texts) + tail) == texts + Logs(tail)
    ensures Errors(head + LogLines(texts) + tail) == Errors(head) + Errors(tail)
  {
    LogsOfLogLines(texts);
    LogsAppend(head + LogLines(texts), tail);
    LogsAppend(head, LogLines(texts));
  }

  lemma {:induction false} ErrorHead(message: string)
    ensures Logs([ErrorLine(message)]) == [] && Errors([ErrorLine(message)]) == [message]
  {
    assert [ErrorLine(message)][1..] == [];
  }

  lemma {:induction false} TraceUnfold(buf: string, results: seq<ReadResult>)
    requires results != [] && results[0].err != EndOfFile && results[0].data != []
    ensures Trace(buf, results)
         == (if results[0].err.Failed? then [ErrorLine(results[0].err.message)] else [])
            + LogLines(Lines(buf + results[0].data))
            + Trace(Pending(buf + results[0].data), results[1..])
    ensures FinalBuffer(buf, results) == FinalBuffer(Pending(buf + results[0].data), results[1..])
    ensures Delivered(results) == results[0].data + Delivered(results[1..])
  {
  }

  /** The printout from read `i` on is that of read `i` followed by that of the reads after it. */
  lemma {:induction false} TraceFrom(buf: string, results: seq<ReadResult>, i: nat)
    requires i < |results|
    ensures results[i].err == EndOfFile ==>
      Trace(buf, results[i..]) == [] && FinalBuffer(buf, results[i..]) == buf
    ensures results[i].err != EndOfFile ==>
      Trace(buf, results[i..])
        == Trace(buf, [results[i]]) + Trace(FinalBuffer(buf, [results[i]]), results[i + 1..]) &&
      FinalBuffer(buf, results[i..]) == FinalBuffer(FinalBuffer(buf, [results[i]]), results[i + 1..])
  {
    var rest := results[i..];
    assert rest[0] == results[i] && rest[1..] == results[i + 1..];
    assert [results[i]][1..] == [];
  }

  /**
   * Chunk-split independence: the log lines printed are exactly the lines of
   * the pending text followed by everything delivered, however the reads
   * cut it up; the pending text is what follows the last newline.
   */
  lemma {:induction false} TraceLines(buf: string, results: seq<ReadResult>)
    requires Newline !in buf
    ensures Logs(Trace(buf, results)) == Lines(buf + Delivered(results))
    ensures FinalBuffer(buf, results) == Pending(buf + Delivered(results))
    decreases |results|
  {
    if results == [] || results[0].err == EndOfFile {
      assert buf + Delivered(results) == buf;
      NoNewlineSplit(buf);
    } else if results[0].data == [] {
      TraceLines(buf, results[1..]);
      assert Delivered(results) == Delivered(results[1..]);
    } else {
      var text := buf + results[0].data;
      var rest := results[1..];
      assert buf + Delivered(results) == text + Delivered(rest);
      SplitNewlineFree(text);
      TraceLines(Pending(text), rest);
      SplitAppend(text, Delivered(rest));
      TraceUnfold(buf, results);
      if results[0].err.Failed? {
        ErrorHead(results[0].err.message);
      }
      PrintoutOfRead(if results[0].err.Failed? then [ErrorLine(results[0].err.message)] else [],
                     Lines(text), Trace(Pending(text), rest));
    }
  }

  /** The error lines printed are the errors of the non-empty reads, in order. */
  lemma {:induction false} TraceErrors(buf: string, results: seq<ReadResult>)
    ensures Errors(Trace(buf, results)) == Reported(results)
    decreases |results|
  {
    if results != [] && results[0].err != EndOfFile {
      if results[0].data == [] {
        TraceErrors(buf, results[1..]);
      } else {
        var text := buf + results[0].data;
        TraceErrors(Pending(text), results[1..]);
        TraceUnfold(buf, results);
        if results[0].err.Failed? {
          ErrorHead(results[0].err.message);
        }
        PrintoutOfRead(if results[0].err.Failed? then [ErrorLine(results[0].err.message)] else [],
                       Lines(text), Trace(Pending(text), results[1..]));
      }
    }
  }

  /** One log line per newline delivered; the unterminated tail is never printed. */
  lemma {:induction false} LineCountOfTrace(results: seq<ReadResult>)
    ensures |Logs(Trace([], results))| == multiset(Delivered(results))[Newline]
    ensures Join(Logs(Trace([], results)), FinalBuffer([], results)) == Delivered(results)
  {
    TraceLines([], results);
    assert [] + Delivered(results) == Delivered(results);
    LineCount(Delivered(results));
    JoinSplit(Delivered(results));
  }

  /** Without errors the printout is exactly one log line per line of the delivered text. */
  lemma {:induction false} CleanTrace(results: seq<ReadResult>)
    requires Reported(results) == []
    ensures Trace([], results) == LogLines(Lines(Delivered(results)))
    ensures FinalBuffer([], results) == Pending(Delivered(results))
  {
    TraceLines([], results);
    assert [] + Delivered(results) == Delivered(results);
    TraceErrors([], results);
    OnlyLogLines(Trace([], results));
  }

  /**
   * If two read sequences deliver the same characters and report no error,
   * the worker prints the same lines for both.
   */
  lemma {:induction false} ChunkingIrrelevant(reads1: seq<ReadResult>, reads2: seq<ReadResult>)
    requires Delivered(reads1) == Delivered(reads2)
    requires Reported(reads1) == [] && Reported(reads2) == []
    ensures Trace([], reads1) == Trace([], reads2)
    ensures FinalBuffer([], reads1) == FinalBuffer([], reads2)
  {
    CleanTrace(reads1);
    CleanTrace(reads2);
  }

  /**
   * End of file stops the loop before its data is looked at: the data that
   * comes with it, and every later read, change nothing.
   */
  lemma {:induction false} EofDiscards(buf: string, before: seq<ReadResult>, data: string, after: seq<ReadResult>)
    requires NoEof(before)
    ensures Trace(buf, before + [ReadResult(data, EndOfFile)] + after) == Trace(buf, before)
    ensures FinalBuffer(buf, before + [ReadResult(data, EndOfFile)] + after) == FinalBuffer(buf, before)
    ensures Delivered(before + [ReadResult(data, EndOfFile)] + after) == Delivered(before)
    decreases |before|
  {
    var results := before + [ReadResult(data, EndOfFile)] + after;
    if before == [] {
      assert results[0].err == EndOfFile;
    } else {
      assert results[0] == before[0] && before[0].err != EndOfFile;
      assert results[1..] == before[1..] + [ReadResult(data, EndOfFile)] + after;
      EofDiscards(Pending(buf + before[0].data), before[1..], data, after);
      EofDiscards(buf, before[1..], data, after);
    }
  }

  /** A read that returns no data and no end of file is skipped: nothing printed, even its error. */
  lemma {:induction false} EmptyReadSkipped(buf: string, before: seq<ReadResult>, err: ReadError, after: seq<ReadResult>)
    requires NoEof(before) && err != EndOfFile
    ensures Trace(buf, before + [ReadResult([], err)] + after) == Trace(buf, before + after)
    ensures FinalBuffer(buf, before + [ReadResult([], err)] + after) == FinalBuffer(buf, before + after)
    decreases |before|
  {
    var results := before + [ReadResult([], err)] + after;
    if before == [] {
      assert results[0] == ReadResult([], err);
      assert results[1..] == after;
      assert before + after == after;
    } else {
      assert results[0] == before[0] && (before + after)[0] == before[0];
      assert results[1..] == before[1..] + [ReadResult([], err)] + after;
      assert (before + after)[1..] == before[1..] + after;
      EmptyReadSkipped(Pending(buf + before[0].data), before[1..], err, after);
      EmptyReadSkipped(buf, before[1..], err, after);
    }
  }

  /** A failed read that carries data prints its error and then processes the data as usual. */
  lemma {:induction false} FailedReadProcessed(buf: string, data: string, message: string, rest: seq<ReadResult>)
    requires data != []
    ensures Trace(buf, [ReadResult(data, Failed(message))] + rest)
         == [ErrorLine(message)] + Trace(buf, [ReadResult(data, NoError)] + rest)
  {
    assert ([ReadResult(data, Failed(message))] + rest)[1..] == rest;
    assert ([ReadResult(data, NoError)] + rest)[1..] == rest;
  }

  /** An example: "a\nbb\nccc" in any chunking prints "a" and "bb" and keeps "ccc" pending. */
  lemma {:induction false} ExampleSplit(results: seq<ReadResult>)
    requires Delivered(results) == "a\nbb\nccc" && Reported(results) == []
    ensures Trace([], results) == [LogLine("a"), LogLine("bb")]
    ensures FinalBuffer([], results) == "ccc"
  {
    CleanTrace(results);
    ExampleText();
    ExampleLogLines();
  }

  lemma {:induction false} ExampleLogLines()
    ensures LogLines(["a", "bb"]) == [LogLine("a"), LogLine("bb")]
  {
    assert ["a", "bb"][1..] == ["bb"] && ["bb"][1..] == [];
  }

  lemma {:induction false} ExampleText()
    ensures Lines("a\nbb\nccc") == ["a", "bb"] && Pending("a\nbb\nccc") == "ccc"
  {
    var s := "a\nbb\nccc";
    assert Join(["bb"], "ccc") == "bb\nccc" by {
      assert Join([], "ccc") == "ccc";
    }
    assert Join(["a", "bb"], "ccc") == "a\nbb\nccc" by {
      assert ["a", "bb"][1..] == ["bb"];
    }
    assert NewlineFree(["a", "bb"]) by {
      assert Newline !in "a" && Newline !in "bb";
    }
    SplitJoin(["a", "bb"], "ccc");
  }

  /**
   * Without errors, standard output is one tagged line per delivered line,
   * and each parses back to the pod and the line's text.
   */
  lemma {:induction false} StdoutTagged(pod: string, results: seq<ReadResult>, k: nat)
    requires Esc !in pod && Reported(results) == []
    requires k < |Lines(Delivered(results))|
    ensures |RenderAll(pod, Trace([], results))| == |Lines(Delivered(results))|
    ensures RenderAll(pod, Trace([], results))[k] == FormatLine(pod, Lines(Delivered(results))[k])
    ensures ParseLine(RenderAll(pod, Trace([], results))[k]) == Some((pod, Lines(Delivered(results))[k]))
  {
    CleanTrace(results);
    LogLinesAt(Lines(Delivered(results)), k);
    ParseFormatted(pod, Lines(Delivered(results))[k]);
  }

  lemma {:induction false} LogLinesAt(texts: seq<string>, k: nat)
    requires k < |texts|
    ensures |LogLines(texts)| == |texts| && LogLines(texts)[k] == LogLine(texts[k])
  {
    if k > 0 {
      LogLinesAt(texts[1..], k - 1);
    } else if |texts| > 1 {
      LogLinesAt(texts[1..], 0);
    } else {
      assert LogLines(texts[1..]) == [];
    }
  }

  /**
   * One character's effect on the printout: a newline prints the pending
   * text as one more log line, any other character prints nothing.
   */
  lemma {:induction false} AssembleStep(s: string, c: char)
    ensures c == Newline ==> LogLines(Lines(s + [c])) == LogLines(Lines(s)) + [LogLine(Pending(s))]
    ensures c != Newline ==> LogLines(Lines(s + [c])) == LogLines(Lines(s))
  {
    SplitSnoc(s, c);
    LogLinesAppend(Lines(s), [Pending(s)]);
  }

  /**
   * One character of a chunk: if `out` and `buf` are the printout and the
   * pending text for `prefix`, the loop body's update makes them those for
   * `prefix + [c]`.
   */
  lemma {:induction false} FeedChar(out0: seq<Printed>, buf0: string, prefix: string, c: char,
                                    out: seq<Printed>, buf: string)
    requires out == out0 + LogLines(Lines(buf0 + prefix)) && buf == Pending(buf0 + prefix)
    ensures c == Newline ==>
      out + [LogLine(buf)] == out0 + LogLines(Lines(buf0 + (prefix + [c]))) &&
      [] == Pending(buf0 + (prefix + [c]))
    ensures c != Newline ==>
      out == out0 + LogLines(Lines(buf0 + (prefix + [c]))) &&
      buf + [c] == Pending(buf0 + (prefix + [c]))
  {
    assert buf0 + (prefix + [c]) == (buf0 + prefix) + [c];
    SplitSnoc(buf0 + prefix, c);
    AssembleStep(buf0 + prefix, c);
  }
}
