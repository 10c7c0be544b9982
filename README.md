# deplog: the per-pod line assembler

deplog tails the logs of every pod of a Kubernetes deployment at once. One
worker runs per pod (`getPodLogs` in `main.go`). It builds the log-request
options, opens the log stream and reads it in chunks. A pending-text buffer
(`logBuf`) lives across reads. Each character of a chunk is either a newline,
which prints the buffer as one pod-tagged line and clears it, or any other
character, which is appended to the buffer.

This project models that worker and proves what it prints.

- `LogOptions` gives the request options. The container and the follow flag
  are copied. The tail count goes in only when it was set.
- `LineFormat` gives the printed form of a line: blue colour, pod name,
  `" | "`, colour reset, then the text. `ParseLine` is its inverse for pod
  names without an escape character, which covers every Kubernetes pod name.
- `LineSplit` gives the specification of line assembly over one string.
  `Lines(s)` is the list of newline-terminated segments of `s`, and `Pending(s)`
  is the text after the last newline. `Join` puts them back together.
- `LogTrace` gives what the worker prints for a finite sequence of stream
  reads, as a function `Trace` defined read by read. Each read carries its
  decoded characters and an error (none, end of file, or a failure message).
  Standard output is the sequence of `Println` calls, each one a log line or
  an error line. The lemmas relate `Trace` to `Lines`/`Pending` of the
  concatenated input.
- `PodLogs.LineAssembler` is the worker's state as a class: `buf` is `logBuf`
  and `out` is what has been printed. `Feed` is the character loop
  (main.go:148-155) and `ReadLoop` is the read loop (main.go:133-156). Both
  are proved against `LineSplit` and `LogTrace`. `Stdout` only renders `out`
  and models nothing by itself. `GetPodLogs` puts the whole worker together.

The read loop follows the code's order of checks:

1. End of file breaks out of the loop before anything else. The data returned
   with it is dropped, and the unterminated tail is never printed.
2. A zero-byte read is skipped. An error returned with it is not printed.
3. Any other error is printed, and the read's data is still assembled.

A sequence of reads that ends without an end of file is a stream that is
still open, as in follow mode.

On a read failure other than end of file, the code prints the error and
keeps looping; it does not stop reading that pod
(`LogTrace.FailedReadProcessed`). Error lines are printed untagged. The
trailing fragment is never flushed at end of file, and the model keeps that.

## Model

| member | source | states |
|---|---|---|
| LogOptions.NewPodLogOptions | main.go:115-121 | container and follow flag copied verbatim; `tailLines` is present exactly when `countSet`, and then equals `count` |
| LineFormat.FormatLine | main.go:150 | the printed line, built with the colour codes of main.go:129-130, starts with the blue colour code and ends with the line text, with the length of tag, separator, reset and text together |
| LineFormat.ParseFormatted | main.go:150 | a line printed for a pod whose name has no escape character parses back to exactly that pod and text |
| LineFormat.ParsedIsFormatted | main.go:150 | everything that parses is the printed form of what it parses to, so printing and parsing are inverse |
| LineFormat.FormatInjective | main.go:150 | two printed lines are equal only if pod and text are equal, so each line's tag names its pod |
| LineSplit.SplitNewlineFree | main.go:149-154 | no assembled line and no pending text contains a newline |
| LineSplit.JoinSplit | main.go:148-155 | the lines, each followed by a newline, then the pending text, give back the input, so no character is lost or reordered |
| LineSplit.SplitJoin | main.go:148-155 | splitting a join of newline-free lines and a newline-free tail gives back exactly those lines and that tail |
| LineSplit.SplitSnoc | main.go:149-154 | a newline adds the pending text as one new line and empties the pending text; any other character is appended to the pending text |
| LineSplit.SplitAppend | main.go:131 | splitting `a + b` is the lines of `a` followed by the split of `a`'s pending text plus `b` |
| LineSplit.NoNewlineSplit | main.go:152-154 | text without a newline gives no line and stays pending in full |
| LineSplit.LineCount | main.go:149-151 | the number of lines equals the number of newline characters |
| LogTrace.AssembleStep | main.go:149-154 | one character's effect on the printout: a newline prints the pending text as exactly one more log line, any other character prints nothing |
| LogTrace.Render | main.go:144-150 | an error prints its bare message with no tag; a log line prints with the length of the full tag plus its text, starts with the blue colour code, ends with its text, and for an escape-free pod name parses back to the pod and the text |
| LogTrace.Trace | main.go:133-156 | the printout, read by read: stops at end of file, skips zero-byte reads, prints a failed read's error and then assembles its data against the pending text |
| LogTrace.FinalBuffer | main.go:131-156 | `logBuf` when the loop exits: the pending text after the same reads, by the same case split as `Trace` |
| LogTrace.TraceLines | main.go:131-156 | the log lines printed are `Lines` of the starting buffer plus everything delivered before end of file, and the buffer left is `Pending` of it |
| LogTrace.TraceErrors | main.go:140-145 | the error lines printed are the messages of the failed reads that returned data before end of file, in order |
| LogTrace.CleanTrace | main.go:133-156 | without failed reads the output is one log line per line of the delivered text, and nothing else |
| LogTrace.LineCountOfTrace | main.go:131-156 | one log line per delivered newline; the printed lines joined with the left-over buffer give back all delivered text |
| LogTrace.ChunkingIrrelevant | main.go:131-156 | two read sequences that deliver the same characters without errors print the same lines and leave the same buffer, wherever the chunks are cut |
| LogTrace.EofDiscards | main.go:137-139 | an end-of-file read, its data and every later read change neither the printout nor the buffer, and deliver nothing |
| LogTrace.EmptyReadSkipped | main.go:140-142 | a zero-byte read that is not end of file, whatever its error, prints nothing and leaves the buffer unchanged |
| LogTrace.FailedReadProcessed | main.go:143-148 | a failed read with data prints its error and then assembles the data exactly as an error-free read would |
| LogTrace.ExampleSplit | main.go:148-155 | `"a\nbb\nccc"`, however it is chunked, prints `a` and `bb` and keeps `ccc` pending |
| LogTrace.StdoutTagged | main.go:150 | without errors, the k-th output line is the formatted k-th delivered line and parses back to the pod and that line |
| PodLogs.LineAssembler.constructor | main.go:131 | a new assembler has an empty buffer and has printed nothing |
| PodLogs.LineAssembler.Feed | main.go:148-155 | after a chunk, the printout has grown by the log lines of old buffer plus chunk, and the buffer is its pending text, with no newline in it |
| PodLogs.LineAssembler.HandleRead | main.go:143-155 | a non-empty read that is not end of file prints its error if it failed, then assembles its data, as `Trace` of that one read |
| PodLogs.LineAssembler.ReadLoop | main.go:133-156 | after the loop, the printout has grown by `Trace` of the reads and the buffer is `FinalBuffer`, the buffer still free of newlines |
| PodLogs.GetPodLogs | main.go:115-156 | the options are those of `NewPodLogOptions`, and standard output is the rendered `Trace` of the reads from an empty buffer |

## Left out

- The command-line wiring and flag parsing in `main` (main.go:22-74). It is argument handling through an external library.
- Cluster access: `getClientSet`, `getCurrentNamespace` and `getPodList` (main.go:161-189). They are configuration and network I/O through foreign APIs.
- The stream request (main.go:122-127). The reads it returns are a parameter of the model. The nil-stream dereference after a failed request is a crash, and it is not modelled.
- Pod selection by regular expression (main.go:87-90, 95). It depends on Go's `regexp`, which is not part of this model.
- The goroutine per pod and the `sync.WaitGroup` join (main.go:92-102, 158). With them goes the interleaving of several pods' lines on one standard output and the atomicity of each `Println`. The model covers one worker alone.
- UTF-8 decoding of the read bytes into characters (main.go:147-148). A read's data is a sequence of already-decoded characters. A multi-byte character split across two reads is decoded differently in Go. Chunk independence (`LogTrace.ChunkingIrrelevant`) holds at the character level only.
- The 2000-byte read buffer (main.go:134). Reads have arbitrary length in the model.
- The Kubernetes `PodLogOptions` fields other than container, follow and tail lines. The code leaves them at their zero values.
- Standard output is recorded as the sequence of `Println` arguments, one string per call. The trailing newline `Println` adds and the byte encoding are not modelled.
- A stream that never ends is modelled by a finite sequence of reads without end of file.
