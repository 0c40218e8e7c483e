/** The chunked line reassembler of `main()` in main.go: a loop reads the
    input a chunk at a time, splits every chunk on '\n', emits each line as
    soon as its terminator arrives and carries the unfinished tail of the
    last line in an accumulator (`lineBuffer`) into the next chunk. At end
    of file a non-empty accumulator is emitted as a last line; any other read
    error ends the program without emitting it.

    The file is replaced by a finite trace of read results, and what the
    program prints ("read: " followed by a line) by the sequence of lines. */
module LineReader {
  import opened GoStrings

  /** How a read ended: `err == nil`, `err == io.EOF`, or any other error. */
  datatype Status = Ok | Eof | Error

  /** One call of `Read`: the `n` bytes it delivered and its error value.
      Data may accompany any status, as Go's `io.Reader` allows. */
  datatype ReadResult = ReadResult(data: seq<byte>, status: Status)

  /** How the loop ends: `os.Exit(0)` after end of file, `os.Exit(1)` after
      another error, or still waiting for the next read when the trace is
      used up before a terminal read. */
  datatype Outcome = CleanExit | ErrorExit | StillReading

  /** What processing one chunk produces: the lines completed in it and the
      new content of the accumulator. */
  datatype StepResult = StepResult(lines: seq<seq<byte>>, carry: seq<byte>)

  predicate NewlineFree(s: seq<byte>)
  {
    NEWLINE !in s
  }

  predicate AllNewlineFree(lines: seq<seq<byte>>)
  {
    forall i :: 0 <= i < |lines| ==> NewlineFree(lines[i])
  }

  /** The bytes a sequence of lines stands for when every line is followed
      by its terminator. */
  function Terminated(lines: seq<seq<byte>>): seq<byte>
  {
    if lines == [] then [] else lines[0] + [NEWLINE] + Terminated(lines[1..])
  }

  // ---------------------------------------------------------------------
  // The reference: the lines of a whole byte stream
  // ---------------------------------------------------------------------

  /** The lines of `s` that are ended by a '\n'. */
  function CompleteLines(s: seq<byte>): seq<seq<byte>>
  {
    var parts := Split(s, NEWLINE);
    parts[..|parts| - 1]
  }

  /** The bytes of `s` after its last '\n' (all of `s` if it has none). */
  function Remainder(s: seq<byte>): seq<byte>
  {
    var parts := Split(s, NEWLINE);
    parts[|parts| - 1]
  }

  /** The lines printed for a stream that ends at end of file: the complete
      lines, then the remainder when it is not empty. */
  function Lines(s: seq<byte>): (r: seq<seq<byte>>)
    // no printed line contains a newline
    ensures AllNewlineFree(r)
    // one line per '\n', plus one for a non-empty unterminated tail
    ensures |r| == Count(s, NEWLINE) + (if s == [] || s[|s| - 1] == NEWLINE then 0 else 1)
  {
    RemainderEmpty(s);
    StreamDecomposition(s);
    CompleteLines(s) + (if Remainder(s) == [] then [] else [Remainder(s)])
  }

  // ---------------------------------------------------------------------
  // One chunk
  // ---------------------------------------------------------------------

  /** What the body of the read loop does with a chunk (main.go:27-44): when
      the chunk is not empty it is split on '\n'. When the chunk holds a
      '\n', the first part completes the accumulated line, every further
      part but the last is a line of its own, and the last part (possibly
      empty) becomes the new accumulator. A chunk without '\n' is appended
      to the accumulator. */
  function Step(acc: seq<byte>, chunk: seq<byte>): (r: StepResult)
    // a zero-length read changes nothing
    ensures chunk == [] ==> r == StepResult([], acc)
    // a chunk with k newlines completes exactly k lines
    ensures |r.lines| == Count(chunk, NEWLINE)
    // lines and accumulator stay free of newlines
    ensures NewlineFree(acc) ==> AllNewlineFree(r.lines) && NewlineFree(r.carry)
    // only the first completed line carries the old accumulator
    ensures |r.lines| > 0 ==> r.lines[0] == acc + Split(chunk, NEWLINE)[0]
    ensures forall i :: 1 <= i < |r.lines| ==> r.lines[i] == Split(chunk, NEWLINE)[i]
  {
    if |chunk| == 0 then StepResult([], acc)
    else
      var parts := Split(chunk, NEWLINE);
      var last := |parts| - 1;
      if last == 0 then StepResult([], acc + parts[0])
      else StepResult([acc + parts[0]] + parts[1..last], parts[last])
  }

  /** The inner loop of main.go:31-42. The out-parameter `lineBuffer` is
      Go's mutable accumulator; it starts as the accumulator `acc` left by
      the previous chunk. */
  method ProcessChunk(acc: seq<byte>, chunk: seq<byte>) returns (lines: seq<seq<byte>>, lineBuffer: seq<byte>)
    ensures StepResult(lines, lineBuffer) == Step(acc, chunk)
  {
    lines := [];
    lineBuffer := acc;
    if |chunk| > 0 {
      var parts := Split(chunk, NEWLINE);
      var i := 0;
      while i < |parts| - 1
        invariant 0 <= i <= |parts| - 1
        invariant i == 0 ==> lines == [] && lineBuffer == acc
        invariant i > 0 ==> lines == [acc + parts[0]] + parts[1..i] && lineBuffer == []
      {
        if i > 0 {
          assert parts[1..i + 1] == parts[1..i] + [parts[i]];
          assert [] + parts[i] == parts[i];
        }
        lines := lines + [lineBuffer + parts[i]];
        lineBuffer := [];
        i := i + 1;
      }
      lineBuffer := lineBuffer + parts[|parts| - 1];
    }
  }

  // ---------------------------------------------------------------------
  // Facts about Terminated and Split
  // ---------------------------------------------------------------------

  lemma {:induction false} TerminatedAppend(a: seq<seq<byte>>, b: seq<seq<byte>>)
    ensures Terminated(a + b) == Terminated(a) + Terminated(b)
    decreases |a|
  {
    if a == [] {
      assert a + b == b;
    } else {
      TerminatedAppend(a[1..], b);
      assert (a + b)[1..] == a[1..] + b;
    }
  }

  /** Lines followed by their terminators and then an unfinished tail are
      the join of the lines and the tail. */
  lemma {:induction false} TerminatedJoin(lines: seq<seq<byte>>, tail: seq<byte>)
    ensures Terminated(lines) + tail == Join(lines + [tail], NEWLINE)
    decreases |lines|
  {
    if lines == [] {
      assert lines + [tail] == [tail];
    } else {
      TerminatedJoin(lines[1..], tail);
      assert (lines + [tail])[1..] == lines[1..] + [tail];
      JoinCons(lines[0], lines[1..] + [tail], NEWLINE);
      assert lines + [tail] == [lines[0]] + (lines[1..] + [tail]);
    }
  }

  /** The loop invariant determines the split: when newline-free lines with
      their terminators, followed by a newline-free accumulator, make up
      `s`, then splitting `s` gives back those lines and the accumulator. */
  lemma SplitTerminated(lines: seq<seq<byte>>, acc: seq<byte>)
    requires AllNewlineFree(lines) && NewlineFree(acc)
    ensures Split(Terminated(lines) + acc, NEWLINE) == lines + [acc]
    ensures CompleteLines(Terminated(lines) + acc) == lines
    ensures Remainder(Terminated(lines) + acc) == acc
    ensures Lines(Terminated(lines) + acc) == lines + (if acc == [] then [] else [acc])
  {
    TerminatedJoin(lines, acc);
    var parts := lines + [acc];
    assert forall i :: 0 <= i < |parts| ==> NEWLINE !in parts[i] by {
      forall i | 0 <= i < |parts| ensures NEWLINE !in parts[i] {
        if i < |lines| { assert parts[i] == lines[i]; }
      }
    }
    SplitJoin(parts, NEWLINE);
    assert parts[..|parts| - 1] == lines;
  }

  /** Regrouping a join step; stated on its own so that JoinGlueFirst is
      proved without unfolding any Join in the context. */
  lemma GlueAssoc(x: seq<byte>, y: seq<byte>, sep: byte, z: seq<byte>)
    ensures (x + y) + [sep] + z == x + (y + [sep] + z)
  {
  }

  /** Gluing `x` in front of the first of several parts glues it in front
      of their join. */
  lemma JoinGlueFirst(x: seq<byte>, parts: seq<seq<byte>>)
    requires |parts| >= 2
    ensures Join([x + parts[0]] + parts[1..], NEWLINE) == x + Join(parts, NEWLINE)
  {
    var rest := parts[1..];
    calc {
      Join([x + parts[0]] + rest, NEWLINE);
      { JoinCons(x + parts[0], rest, NEWLINE); }
      (x + parts[0]) + [NEWLINE] + Join(rest, NEWLINE);
      { GlueAssoc(x, parts[0], NEWLINE, Join(rest, NEWLINE)); }
      x + (parts[0] + [NEWLINE] + Join(rest, NEWLINE));
      { JoinCons(parts[0], rest, NEWLINE); }
      x + Join([parts[0]] + rest, NEWLINE);
      { assert parts == [parts[0]] + rest; }
      x + Join(parts, NEWLINE);
    }
  }

  /** The lines and carry of one step reassemble the accumulator and the
      chunk byte for byte. */
  lemma StepReassembles(acc: seq<byte>, chunk: seq<byte>)
    ensures Terminated(Step(acc, chunk).lines) + Step(acc, chunk).carry == acc + chunk
  {
    var r := Step(acc, chunk);
    if chunk == [] {
      assert acc + chunk == acc;
    } else {
      var parts := Split(chunk, NEWLINE);
      var last := |parts| - 1;
      JoinSplit(chunk, NEWLINE);
      if last == 0 {
        assert chunk == parts[0];
      } else {
        TerminatedJoin(r.lines, r.carry);
        assert r.lines + [r.carry] == [acc + parts[0]] + parts[1..];
        JoinGlueFirst(acc, parts);
      }
    }
  }

  // ---------------------------------------------------------------------
  // What the printed lines say about the stream
  // ---------------------------------------------------------------------

  /** A non-empty sequence is its front followed by its last element;
      stated on its own so that StreamDecomposition is proved without
      regrouping sequences next to unfolded Join and Split terms. */
  lemma FrontLast(xs: seq<seq<byte>>)
    requires xs != []
    ensures xs[..|xs| - 1] + [xs[|xs| - 1]] == xs
  {
  }

  /** Every stream is its complete lines, each with its terminator,
      followed by its remainder. */
  lemma StreamDecomposition(s: seq<byte>)
    ensures s == Terminated(CompleteLines(s)) + Remainder(s)
    ensures AllNewlineFree(CompleteLines(s)) && NewlineFree(Remainder(s))
    ensures |CompleteLines(s)| == Count(s, NEWLINE)
  {
    var parts := Split(s, NEWLINE);
    var k := |parts| - 1;
    var complete, tail := parts[..k], parts[k];
    assert CompleteLines(s) == complete && Remainder(s) == tail;
    JoinSplit(s, NEWLINE);
    TerminatedJoin(complete, tail);
    FrontLast(parts);
    forall i | 0 <= i < |complete| ensures NewlineFree(complete[i]) {
      assert complete[i] == parts[i];
    }
  }

  /** A non-empty sequence of terminated lines ends in '\n'. */
  lemma TerminatedEndsInNewline(lines: seq<seq<byte>>)
    requires lines != []
    ensures Terminated(lines) != [] && Terminated(lines)[|Terminated(lines)| - 1] == NEWLINE
  {
    var n := |lines| - 1;
    TerminatedAppend(lines[..n], [lines[n]]);
    assert lines[..n] + [lines[n]] == lines;
    assert Terminated([lines[n]]) == lines[n] + [NEWLINE];
  }

  /** The remainder is empty exactly when the stream is empty or ends in a
      '\n'. */
  lemma RemainderEmpty(s: seq<byte>)
    ensures Remainder(s) == [] <==> (s == [] || s[|s| - 1] == NEWLINE)
  {
    StreamDecomposition(s);
    var head := Terminated(CompleteLines(s));
    var tail := Remainder(s);
    if tail == [] {
      assert s == head;
      if CompleteLines(s) != [] {
        TerminatedEndsInNewline(CompleteLines(s));
      }
    } else {
      assert s[|s| - 1] == tail[|tail| - 1];
      assert tail[|tail| - 1] in tail;
    }
  }

  /** Putting each printed line's terminator back gives the stream byte for
      byte, with one '\n' too many exactly when the stream does not end in
      one: an input ending in '\n', or an empty input, yields no trailing
      empty line. */
  lemma LinesReconstruct(s: seq<byte>)
    ensures s == [] || s[|s| - 1] == NEWLINE ==> Terminated(Lines(s)) == s
    ensures s != [] && s[|s| - 1] != NEWLINE ==> Terminated(Lines(s)) == s + [NEWLINE]
  {
    StreamDecomposition(s);
    RemainderEmpty(s);
    var complete := CompleteLines(s);
    var tail := Remainder(s);
    if tail == [] {
      assert Lines(s) == complete;
      assert s == Terminated(complete) + [];
    } else {
      assert Lines(s) == complete + [tail];
      TerminatedAppend(complete, [tail]);
      assert Terminated([tail]) == tail + [NEWLINE];
    }
  }

  /** An input without any newline is printed as one line, itself, unless
      it is empty, when nothing is printed. */
  lemma LinesWithoutNewline(s: seq<byte>)
    requires NewlineFree(s)
    ensures Lines(s) == if s == [] then [] else [s]
  {
    SplitNoSeparator(s, NEWLINE);
  }

  /** Regrouping a concatenation; stated on its own so that
      StepKeepsInvariant is proved without regrouping sequences next to
      unfolded Terminated terms. */
  lemma AppendAssoc(a: seq<byte>, b: seq<byte>, c: seq<byte>)
    ensures (a + b) + c == a + (b + c)
  {
  }

  /** The loop invariant is kept by every chunk: the bytes taken in so far
      are the lines printed so far, each with its terminator, followed by
      the accumulator; neither the lines nor the accumulator hold a '\n'. */
  lemma StepKeepsInvariant(out: seq<seq<byte>>, acc: seq<byte>, chunk: seq<byte>)
    requires AllNewlineFree(out) && NewlineFree(acc)
    ensures AllNewlineFree(out + Step(acc, chunk).lines)
    ensures NewlineFree(Step(acc, chunk).carry)
    ensures Terminated(out + Step(acc, chunk).lines) + Step(acc, chunk).carry
         == (Terminated(out) + acc) + chunk
  {
    var r := Step(acc, chunk);
    StepReassembles(acc, chunk);
    TerminatedAppend(out, r.lines);
    var t := Terminated(out);
    calc {
      Terminated(out + r.lines) + r.carry;
      (t + Terminated(r.lines)) + r.carry;
      { AppendAssoc(t, Terminated(r.lines), r.carry); }
      t + (Terminated(r.lines) + r.carry);
      t + (acc + chunk);
      { AppendAssoc(t, acc, chunk); }
      (t + acc) + chunk;
    }
    AllNewlineFreeAppend(out, r.lines);
  }

  lemma AllNewlineFreeAppend(a: seq<seq<byte>>, b: seq<seq<byte>>)
    requires AllNewlineFree(a) && AllNewlineFree(b)
    ensures AllNewlineFree(a + b)
  {
    forall i | 0 <= i < |a + b| ensures NewlineFree((a + b)[i]) {
      if i < |a| { assert (a + b)[i] == a[i]; }
      else { assert (a + b)[i] == b[i - |a|]; }
    }
  }

  // ---------------------------------------------------------------------
  // The read loop
  // ---------------------------------------------------------------------

  /** The index of the first read that does not report success, or `|trace|`
      when every read does. */
  function StopIndex(trace: seq<ReadResult>): (k: nat)
    ensures k <= |trace|
    ensures forall j :: 0 <= j < k ==> trace[j].status == Ok
    ensures k < |trace| ==> trace[k].status != Ok
  {
    if trace == [] || trace[0].status != Ok then 0
    else 1 + StopIndex(trace[1..])
  }

  /** All bytes delivered by a sequence of reads, in order. */
  function Concat(trace: seq<ReadResult>): seq<byte>
  {
    if trace == [] then [] else Concat(trace[..|trace| - 1]) + trace[|trace| - 1].data
  }

  lemma ConcatSnoc(trace: seq<ReadResult>, i: nat)
    requires i < |trace|
    ensures Concat(trace[..i + 1]) == Concat(trace[..i]) + trace[i].data
  {
    assert trace[..i + 1][..i] == trace[..i];
  }

  /** The loop stops at the first read that does not succeed and takes in
      the bytes of every read up to and including it. */
  lemma {:induction false} StopsAt(trace: seq<ReadResult>, i: nat)
    requires i < |trace| && trace[i].status != Ok
    requires forall j :: 0 <= j < i ==> trace[j].status == Ok
    ensures StopIndex(trace) == i
    ensures Consumed(trace) == Concat(trace[..i + 1])
    decreases i
  {
    if i > 0 {
      var rest := trace[1..];
      assert forall j :: 0 <= j < i - 1 ==> rest[j] == trace[j + 1];
      StopsAt(rest, i - 1);
    }
  }

  /** When every read succeeds, all of them are taken in. */
  lemma NeverStops(trace: seq<ReadResult>)
    requires forall j :: 0 <= j < |trace| ==> trace[j].status == Ok
    ensures StopIndex(trace) == |trace|
    ensures Consumed(trace) == Concat(trace)
  {
    assert trace[..|trace|] == trace;
  }

  /** The bytes the loop takes in: those of every read up to and including
      the first one that does not report success; nothing after it is read. */
  function Consumed(trace: seq<ReadResult>): seq<byte>
  {
    var k := StopIndex(trace);
    Concat(trace[..if k < |trace| then k + 1 else k])
  }

  /** How the loop ends on a trace. */
  function OutcomeOf(trace: seq<ReadResult>): Outcome
  {
    var k := StopIndex(trace);
    if k == |trace| then StillReading
    else if trace[k].status == Eof then CleanExit
    else ErrorExit
  }

  /** The `for` loop of main.go:23-64 over a trace of reads. Every chunk is
      processed before its status is looked at; end of file flushes a
      non-empty accumulator; any other error ends the loop without it.
      What is printed depends only on the bytes consumed and on how the
      loop ends, never on where the chunk boundaries fall. */
  method ReadLines(trace: seq<ReadResult>) returns (out: seq<seq<byte>>, outcome: Outcome)
    ensures outcome == OutcomeOf(trace)
    ensures outcome == CleanExit ==> out == Lines(Consumed(trace))
    ensures outcome != CleanExit ==> out == CompleteLines(Consumed(trace))
    ensures outcome != CleanExit ==> |out| == Count(Consumed(trace), NEWLINE)
    ensures AllNewlineFree(out)
  {
    out := [];
    var lineBuffer: seq<byte> := [];
    var i := 0;
    while i < |trace|
      invariant 0 <= i <= |trace|
      invariant forall j :: 0 <= j < i ==> trace[j].status == Ok
      invariant Terminated(out) + lineBuffer == Concat(trace[..i])
      invariant AllNewlineFree(out) && NewlineFree(lineBuffer)
    {
      var r := trace[i];
      ghost var before := Terminated(out) + lineBuffer;
      if |r.data| > 0 {
        var lines, carry := ProcessChunk(lineBuffer, r.data);
        StepKeepsInvariant(out, lineBuffer, r.data);
        out := out + lines;
        lineBuffer := carry;
      } else {
        assert before + r.data == before;
      }
      ConcatSnoc(trace, i);
      match r.status
      case Ok =>
        i := i + 1;
      case Eof =>
        StopsAt(trace, i);
        SplitTerminated(out, lineBuffer);
        if lineBuffer != [] {
          AllNewlineFreeAppend(out, [lineBuffer]);
          out := out + [lineBuffer];
        }
        outcome := CleanExit;
        return;
      case Error =>
        StopsAt(trace, i);
        SplitTerminated(out, lineBuffer);
        StreamDecomposition(Terminated(out) + lineBuffer);
        outcome := ErrorExit;
        return;
    }
    NeverStops(trace);
    assert trace[..i] == trace;
    SplitTerminated(out, lineBuffer);
    StreamDecomposition(Terminated(out) + lineBuffer);
    outcome := StillReading;
  }

  // ---------------------------------------------------------------------
  // Two worked inputs
  // ---------------------------------------------------------------------

  /** "ab\ncd\nef" read in one chunk prints "ab" and "cd" as the chunk is
      processed and "ef" at end of file. The input is a parameter fixed by
      the requires, not a constant: a constant would be unfolded into every
      proof step and the proof would become far more expensive. */
  lemma ExampleSingleRead(input: seq<byte>)
    requires input == [97, 98, 10, 99, 100, 10, 101, 102]
    ensures Step([], input) == StepResult([[97, 98], [99, 100]], [101, 102])
    ensures Lines(input) == [[97, 98], [99, 100], [101, 102]]
  {
    var ab: seq<byte>, cd: seq<byte>, ef: seq<byte> := [97, 98], [99, 100], [101, 102];
    var parts := [ab, cd, ef];
    JoinCons(cd, [ef], NEWLINE);
    JoinCons(ab, [cd, ef], NEWLINE);
    assert [ab] + [cd, ef] == parts;
    assert [cd] + [ef] == [cd, ef];
    assert Join(parts, NEWLINE) == input;
    SplitJoin(parts, NEWLINE);
    assert input != [];
    var last := |parts| - 1;
    assert last == 2;
    assert Step([], input) == StepResult([[] + parts[0]] + parts[1..last], parts[last]);
    assert [] + ab == ab;
    assert parts[1..2] == [cd];
    assert CompleteLines(input) == [ab, cd];
    assert Remainder(input) == ef;
    assert [ab, cd] + [ef] == parts;
  }

  /** "12345678\n" read as the eight digits and then the '\n': the first
      read completes no line and carries all eight bytes, the second prints
      them as one line and leaves the accumulator empty, so end of file
      prints nothing more. The digits are a parameter fixed by the requires
      for the same reason as in ExampleSingleRead. */
  lemma ExampleChunkBoundary(digits: seq<byte>)
    requires digits == [49, 50, 51, 52, 53, 54, 55, 56]
    ensures Step([], digits) == StepResult([], digits)
    ensures Step(digits, [NEWLINE]) == StepResult([digits], [])
    ensures Lines(digits + [NEWLINE]) == [digits]
  {
    assert NewlineFree(digits);
    SplitNoSeparator(digits, NEWLINE);
    assert Step([], digits) == StepResult([], [] + digits);
    assert [] + digits == digits;
    SplitSeparatorOnly(NEWLINE);
    var parts := Split([NEWLINE], NEWLINE);
    assert Step(digits, [NEWLINE]) == StepResult([digits + parts[0]] + parts[1..1], parts[1]);
    assert digits + [] == digits;
    SplitTerminated([digits], []);
    assert Terminated([digits]) == digits + [NEWLINE];
    assert digits + [NEWLINE] + [] == digits + [NEWLINE];
  }
}
