/**
 * One pod's log worker: the read loop over the log stream and the line
 * assembler whose pending buffer survives from one read to the next.
 */
module PodLogs {
  import opened Wrappers
  import opened LineSplit
  import opened LogOptions
  import opened LogTrace

  /**
   * The line assembler of one pod: `buf` is the text received since the
   * last newline, `out` everything the worker has printed.
   */
  class LineAssembler {
    const pod: string
    var buf: string
    var out: seq<Printed>

    /** The buffer never holds a newline: each one is turned into a line at once. */
    ghost predicate Valid()
      reads this
    {
      Newline !in buf
    }

    /** What standard output shows for this pod. */
    function Stdout(): (r: seq<string>)
      reads this
      ensures |r| == |out|
    {
      RenderAll(pod, out)
    }

    constructor (podName: string)
      ensures Valid()
      ensures pod == podName && buf == [] && out == []
    {
      pod := podName;
      buf := [];
      out := [];
    }

    /**
     * Processes one chunk character by character: a newline prints the
     * buffer as a tagged line and clears it, any other character is appended.
     */
    method Feed(chunk: string)
      requires Valid()
      modifies this
      ensures Valid()
      ensures out == old(out) + LogLines(Lines(old(buf) + chunk))
      ensures buf == Pending(old(buf) + chunk)
    {
      var i := 0;
      NoNewlineSplit(buf);
      assert buf + chunk[..0] == buf;
      while i < |chunk|
        invariant 0 <= i <= |chunk|
        invariant out == old(out) + LogLines(Lines(old(buf) + chunk[..i]))
        invariant buf == Pending(old(buf) + chunk[..i])
      {
        var c := chunk[i];
        assert chunk[..i + 1] == chunk[..i] + [c];
        FeedChar(old(out), old(buf), chunk[..i], c, out, buf);
        if c == Newline {
          out := out + [LogLine(buf)];
          buf := [];
        } else {
          buf := buf + [c];
        }
        i := i + 1;
      }
      assert chunk[..i] == chunk;
      SplitNewlineFree(old(buf) + chunk);
    }

    /**
     * A read that returned data and no end of file: print its error, if
     * any, then assemble its data.
     */
    method HandleRead(r: ReadResult)
      requires Valid() && r.err != EndOfFile && r.data != []
      modifies this
      ensures Valid()
      ensures out == old(out) + Trace(old(buf), [r])
      ensures buf == FinalBuffer(old(buf), [r])
    {
      TraceUnfold(buf, [r]);
      assert [r][1..] == [];
      if r.err.Failed? {
        out := out + [ErrorLine(r.err.message)];
      }
      Feed(r.data);
    }

    /**
     * The read loop: stops at end of file without flushing the buffer,
     * skips empty results, prints the error of a failed read and still feeds
     * its data.  Running out of results without end of file models a stream
     * that is still open.
     */
    method ReadLoop(results: seq<ReadResult>)
      requires Valid()
      modifies this
      ensures Valid()
      ensures out == old(out) + Trace(old(buf), results)
      ensures buf == FinalBuffer(old(buf), results)
    {
      ghost var printout, final := old(out) + Trace(old(buf), results), FinalBuffer(old(buf), results);
      var i := 0;
      while i < |results|
        invariant 0 <= i <= |results|
        invariant Valid()
        invariant printout == out + Trace(buf, results[i..])
        invariant final == FinalBuffer(buf, results[i..])
      {
        var r := results[i];
        TraceFrom(buf, results, i);
        if r.err == EndOfFile {
          break;
        }
        if r.data == [] {
          i := i + 1;
          continue;
        }
        HandleRead(r);
        i := i + 1;
      }
      assert i == |results| ==> results[i..] == [];
    }
  }

  /**
   * One pod's worker from start to finish: builds the request options and
   * prints the lines assembled from what the stream returns for them.
   */
  method GetPodLogs(podName: string, containerName: string, follow: bool, count: int64, countSet: bool,
                    results: seq<ReadResult>)
    returns (opts: PodLogOptions, stdout: seq<string>)
    ensures opts.container == containerName && opts.follow == follow
    ensures opts.tailLines == if countSet then Some(count) else None
    ensures stdout == RenderAll(podName, Trace([], results))
  {
    opts := NewPodLogOptions(containerName, follow, count, countSet);
    var assembler := new LineAssembler(podName);
    assembler.ReadLoop(results);
    stdout := assembler.Stdout();
  }
}
