# Chunked line reassembly (httpfromtcp `main.go`)

The program opens `message.txt`, reads it up to eight bytes at a time into a
reused buffer and prints the file line by line. A chunk seldom ends on a line
boundary, so the read loop keeps the unfinished end of the current line in an
accumulator, `lineBuffer`. Each chunk is split on `'\n'`. When the chunk
holds a `'\n'`, the first part completes the accumulated line, every later
part except the last is a whole line, and the last part, possibly empty,
becomes the new accumulator. A chunk without `'\n'` is appended to the
accumulator, so a line can span any number of chunks. At end of
file a non-empty accumulator is printed as a final line. Any other read error
ends the program with exit status 1, and the accumulator is never printed.

This project models that loop in Dafny and proves its behaviour.

- `GoStrings` (`go_strings.dfy`) models `strings.Split` for a one-byte
  separator. It gives `Count` and `Join`, and proves that Split and Join are
  inverse bijections between byte strings and non-empty lists of
  separator-free parts.
- `LineReader` (`line_reader.dfy`) has three layers. The first is the
  reference meaning of a byte stream: its complete lines, its remainder, and
  the lines printed at end of file. The second is one chunk, twice: `Step` says
  what the loop body computes, and `ProcessChunk` is the source's indexed
  inner loop, proved equal to `Step`. The third is `ReadLines`, the outer
  loop over a trace of read results, proved against the reference.

The file is modelled as a finite trace of `ReadResult(data, status)` values.
The status is `Ok` (`err == nil`), `Eof` (`io.EOF`) or `Error` (any other
error). A read may return data together with any status, as Go's `io.Reader`
allows. The loop looks at the data before the status, just as the source
does. Printing `"read: " + line` is modelled by appending `line` to the output
sequence. `os.Exit(0)` and `os.Exit(1)` become the outcomes `CleanExit` and
`ErrorExit`. A third outcome, `StillReading`, covers a trace that runs out
before any terminal read. The real program would just call `Read` again.

The main result is the contract of `ReadLines`:
- After end of file, the output is `Lines(Consumed(trace))`.
- After an error, or when the trace runs out, the output is
  `CompleteLines(Consumed(trace))`.

`Consumed(trace)` is every byte delivered up to and including the first
read that does not succeed. So the output depends only on that byte stream
and on how the loop ended, never on where the chunk boundaries fall.
The contract of `Lines` and the lemma `LinesReconstruct` then pin down what
`Lines` is:
- No line contains a newline.
- For an input that is empty or ends in `'\n'`, the lines with their
  terminators put back give the input byte for byte.
- For any other input they give the input plus one `'\n'`.

So an input that ends in `'\n'` never produces a trailing empty line.

Two consequences are easy to get wrong.
- Joining the printed lines with `'\n'` between them does not give back a
  file that ends in `'\n'`: `"a\n"` prints only `"a"`. `LinesReconstruct`
  states what does hold.
- A file without newlines prints itself as its one line, except the empty
  file, which prints nothing. `LinesWithoutNewline` covers both cases.

## Model

| member | source | states |
|---|---|---|
| GoStrings.Split | main.go:31 | `strings.Split(data, "\n")` returns one more part than the data has `'\n'` bytes, and no part contains `'\n'` |
| GoStrings.JoinSplit | main.go:31 | joining the parts of a split with the separator gives back the split input exactly |
| GoStrings.SplitJoin | main.go:31 | any non-empty list of separator-free parts comes back unchanged when its join is split, so the split of a chunk is its only such decomposition |
| GoStrings.SplitNoSeparator | main.go:31 | a chunk with no `'\n'` (including the empty string) splits into the one part that is the chunk itself |
| LineReader.Step | main.go:27-44 | a zero-length read leaves the accumulator unchanged and emits nothing; a chunk with k `'\n'` bytes emits exactly k lines; a newline-free accumulator keeps the emitted lines and the new accumulator newline-free; only the first emitted line carries the old accumulator as a prefix, and every later one is exactly the matching split part |
| LineReader.ProcessChunk | main.go:27-42 | the indexed inner loop, which emits each line and then resets the accumulator, produces exactly the lines and the new accumulator that `Step` specifies |
| LineReader.StepReassembles | main.go:34-42 | the lines one chunk emits, each followed by `'\n'`, and then the new accumulator give the old accumulator followed by the chunk, byte for byte |
| LineReader.StepKeepsInvariant | main.go:23-44 | the loop invariant holds after every chunk: all bytes read so far are the lines printed so far, each with `'\n'`, then the accumulator, and neither the lines nor the accumulator contains `'\n'` |
| LineReader.SplitTerminated | main.go:23-44 | when the invariant holds, the printed lines are exactly the complete lines of the bytes read so far, and the accumulator is exactly what follows the last `'\n'` |
| LineReader.StreamDecomposition | main.go:31-42 | any byte stream is its complete lines, each with `'\n'`, followed by its newline-free remainder, and the number of complete lines is the number of `'\n'` bytes |
| LineReader.RemainderEmpty | main.go:51-55 | the accumulator left at end of file is empty exactly when the input is empty or ends in `'\n'`, so exactly then no final line is printed |
| LineReader.Lines | main.go:31-55 | the lines printed for a whole file contain no `'\n'`; there is one per `'\n'` byte, plus one more exactly when the file is non-empty and does not end in `'\n'` |
| LineReader.LinesReconstruct | main.go:51-55 | putting `'\n'` back after each printed line gives the file byte for byte when it is empty or ends in `'\n'`, and the file plus one `'\n'` otherwise, so no trailing empty line is ever printed |
| LineReader.LinesWithoutNewline | main.go:51-55 | a file without `'\n'` prints itself as its only line, or nothing at all when it is empty |
| LineReader.StopIndex | main.go:47-63 | the loop keeps reading exactly while reads return `nil`; this finds the first read that does not, or shows that there is none |
| LineReader.StopsAt | main.go:24-63 | when every read before read i returned `nil` and read i did not, the loop stops at read i, and it has taken in exactly the bytes of reads 0 to i, the data of the stopping read included |
| LineReader.ReadLines | main.go:23-64 | the outcome is a clean exit when the first unsuccessful read is end of file, an error exit when it is another error, and still reading when there is none; after end of file the output is the complete lines of the consumed bytes plus a non-empty remainder; after an error the remainder is lost, and as many lines are printed as the consumed bytes hold `'\n'`; no printed line contains `'\n'`; the output depends only on the consumed bytes, not on the chunk boundaries |
| LineReader.ExampleSingleRead | main.go:27-55 | `"ab\ncd\nef"` read as one chunk emits `"ab"` and `"cd"` with `"ef"` left in the accumulator, and prints `"ab"`, `"cd"`, `"ef"` in all |
| LineReader.ExampleChunkBoundary | main.go:27-55 | `"12345678"` then `"\n"` as two reads: the first emits nothing and carries all eight bytes, the second emits them as one line and empties the accumulator, and the whole file prints just that line |

## Left out

- Opening `message.txt`, the open error that is logged and then ignored, and the deferred `Close` (main.go:13-17) are file-system I/O. The model starts with a trace of read results.
- The `log.Printf` diagnostics (main.go:15, 29, 43, 60) and the `"read: "` prefix of `fmt.Printf` (main.go:37, 54) are output formatting. Printing is modelled as appending the line to a sequence.
- `os.Exit` (main.go:57, 62) is modelled as the outcome `ReadLines` returns.
- The 8-byte buffer (main.go:19, 24) and its reuse across reads are not modelled. Chunks are byte sequences of any length, and no proved property depends on the bound.
- The conversion `string(buffer[:n])` (main.go:30) is the identity on bytes, because Go strings are byte strings. Lines are modelled as byte sequences.
- Blocking in `Read`, and spinning on repeated zero-length reads, are not modelled. The trace is finite, and a trace without a terminal read ends in `StillReading`.
- The second program of the repository, which prints raw chunks without reassembling lines, is not part of this model.
