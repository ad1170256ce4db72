/** The streaming line splitter behind `cw watch --json`. */
module WatchLines {
  import opened Results
  import opened Text
  import opened Scanning

  /** The newline-terminated lines of a text. */
  function CompleteLines(text: string): seq<string> {
    var pieces := Split(text, '\n');
    pieces[..|pieces|-1]
  }

  /** What follows the last newline. */
  function Unfinished(text: string): string {
    var pieces := Split(text, '\n');
    pieces[|pieces|-1]
  }

  /** All lines of a text; nothing after the last newline is no line. */
  function Lines(text: string): seq<string> {
    CompleteLines(text) + (if Unfinished(text) == "" then [] else [Unfinished(text)])
  }

  function Concat(chunks: seq<string>): string {
    if chunks == [] then "" else Concat(chunks[..|chunks|-1]) + chunks[|chunks|-1]
  }

  lemma UnfinishedHasNoNewline(text: string)
    ensures '\n' !in Unfinished(text)
  {
    SplitPiecesHaveNoSep(text, '\n');
  }

  lemma SplitResumes(before: string, chunk: string)
    ensures Split(before + chunk, '\n') == CompleteLines(before) + Split(Unfinished(before) + chunk, '\n')
  {
    UnfinishedHasNoNewline(before);
    SplitWithoutSep(Unfinished(before), '\n');
    SplitConcat(before, chunk, '\n');
    SplitConcat(Unfinished(before), chunk, '\n');
    GlueBehind(CompleteLines(before), Unfinished(before), Split(chunk, '\n'));
    var pieces := Split(before, '\n');
    assert pieces == CompleteLines(before) + [Unfinished(before)];
  }

  lemma GlueBehind(lines: seq<string>, last: string, more: seq<string>)
    requires |more| >= 1
    ensures Glue(lines + [last], more) == lines + Glue([last], more)
  {
  }

  lemma LastOfConcat(a: seq<string>, b: seq<string>)
    requires b != []
    ensures (a + b)[..|a + b| - 1] == a + b[..|b| - 1] && (a + b)[|a + b| - 1] == b[|b| - 1]
  {
  }

  /** Feeding more text to an unfinished line gives what the whole text gives. */
  lemma ChunksCompose(before: string, chunk: string)
    ensures CompleteLines(before + chunk) == CompleteLines(before) + CompleteLines(Unfinished(before) + chunk)
    ensures Unfinished(before + chunk) == Unfinished(Unfinished(before) + chunk)
  {
    SplitResumes(before, chunk);
    LastOfConcat(CompleteLines(before), Split(Unfinished(before) + chunk, '\n'));
  }

  /** Cutting the first line off a buffer that holds the pieces from the n-th on. */
  lemma NextPiece(buffer: string, pieces: seq<string>, n: nat)
    requires n < |pieces| && Split(buffer, '\n') == pieces[n..] && '\n' in buffer
    ensures n + 1 < |pieces| && buffer[..IndexByte(buffer, '\n')] == pieces[n]
    ensures Split(buffer[IndexByte(buffer, '\n')+1..], '\n') == pieces[n+1..]
  {
    SplitAtFirst(buffer, '\n');
    assert pieces[n..][0] == pieces[n];
    assert pieces[n..][1..] == pieces[n+1..];
  }

  lemma LastPiece(buffer: string, pieces: seq<string>, n: nat)
    requires n < |pieces| && Split(buffer, '\n') == pieces[n..] && '\n' !in buffer
    ensures n == |pieces| - 1 && buffer == pieces[n]
  {
    SplitWithoutSep(buffer, '\n');
    assert pieces[n..][0] == pieces[n];
  }

  lemma OneMorePiece(before: seq<string>, pieces: seq<string>, n: nat)
    requires n < |pieces|
    ensures (before + DropCRs(pieces[..n])) + [DropCR(pieces[n])] == before + DropCRs(pieces[..n+1])
  {
    DropCRsSnoc(pieces[..n], pieces[n]);
    assert pieces[..n+1] == pieces[..n] + [pieces[n]];
  }

  lemma OneMoreChunk(chunks: seq<string>, i: nat)
    requires i < |chunks|
    ensures var before, after := Concat(chunks[..i]), Concat(chunks[..i+1]);
            var text := Unfinished(before) + chunks[i];
            && DropCRs(CompleteLines(after)) == DropCRs(CompleteLines(before)) + DropCRs(CompleteLines(text))
            && Unfinished(after) == Unfinished(text) && '\n' !in Unfinished(after)
  {
    assert chunks[..i+1][..i] == chunks[..i];
    var before := Concat(chunks[..i]);
    ChunksCompose(before, chunks[i]);
    UnfinishedHasNoNewline(before + chunks[i]);
    DropCRsConcat(CompleteLines(before), CompleteLines(Unfinished(before) + chunks[i]));
  }

  lemma LinesAtTheEnd(text: string)
    ensures DropCRs(Lines(text))
         == DropCRs(CompleteLines(text)) + (if Unfinished(text) == "" then [] else [DropCR(Unfinished(text))])
  {
    if Unfinished(text) == "" {
      assert CompleteLines(text) + [] == CompleteLines(text);
    } else {
      DropCRsSnoc(CompleteLines(text), Unfinished(text));
    }
  }

  /** The writer. `emitted` records the lines written, without a carriage return at their end; the k-th
      write succeeds when `accepts(k)`. */
  class JSONWriter {
    const accepts: nat -> bool
    var buffer: string
    var emitted: seq<string>

    constructor (accepts: nat -> bool)
      ensures this.accepts == accepts && buffer == "" && emitted == []
    {
      this.accepts := accepts;
      buffer := "";
      emitted := [];
    }

    method EmitLine(line: string) returns (ok: bool)
      modifies this`emitted
      ensures emitted == old(emitted) + [DropCR(line)] && ok == accepts(|old(emitted)|)
    {
      ok := accepts(|emitted|);
      emitted := emitted + [DropCR(line)];
    }

    /** Without a write error every completed line is emitted and the unfinished one is kept; an
        error stops right after the failing line and keeps the text behind it. */
    method WriteChunk(chunk: string) returns (ok: bool)
      modifies this
      ensures ok ==> emitted == old(emitted) + DropCRs(CompleteLines(old(buffer) + chunk))
                     && buffer == Unfinished(old(buffer) + chunk)
      ensures !ok ==> var n := |emitted| - |old(emitted)|;
                      && 0 < n <= |CompleteLines(old(buffer) + chunk)|
                      && emitted == old(emitted) + DropCRs(CompleteLines(old(buffer) + chunk)[..n])
                      && Split(buffer, '\n') == Split(old(buffer) + chunk, '\n')[n..]
      ensures StopsAtFailure(|emitted| - |old(emitted)|, ok, accepts, |old(emitted)|)
    {
      buffer := buffer + chunk;
      ghost var pieces := Split(buffer, '\n');
      ghost var n;
      ok, n := EmitLines();
      if !ok {
        assert CompleteLines(old(buffer) + chunk)[..n] == pieces[..n];
      }
    }

    /** The loop: cut off and emit one line after the other, n of them. */
    method EmitLines() returns (ok: bool, ghost n: nat)
      modifies this
      ensures var pieces := Split(old(buffer), '\n');
              && n < |pieces| && emitted == old(emitted) + DropCRs(pieces[..n]) && Split(buffer, '\n') == pieces[n..]
              && (ok ==> n == |pieces| - 1 && buffer == pieces[n])
      ensures |emitted| == |old(emitted)| + n && StopsAtFailure(n, ok, accepts, |old(emitted)|)
    {
      ghost var pieces, start := Split(buffer, '\n'), emitted;
      n := 0;
      while true
        invariant n < |pieces| && emitted == start + DropCRs(pieces[..n])
        invariant Split(buffer, '\n') == pieces[n..]
        invariant StopsAtFailure(n, true, accepts, |start|)
        decreases |pieces| - n
      {
        var line := CutLine(pieces, n);
        if line.None? {
          return true, n;
        }
        OneMorePiece(start, pieces, n);
        assert |emitted| == |start| + n;
        ok := EmitLine(line.value);
        OneMoreAttempt(n, ok, accepts, |start|);
        n := n + 1;
        if !ok {
          return;
        }
      }
    }

    /** Take the first line off a buffer that holds the pieces from the n-th on. */
    method CutLine(ghost pieces: seq<string>, ghost n: nat) returns (line: Option<string>)
      requires n < |pieces| && Split(buffer, '\n') == pieces[n..]
      modifies this`buffer
      ensures line.None? ==> n == |pieces| - 1 && buffer == old(buffer) == pieces[n]
      ensures line.Some? ==> n + 1 < |pieces| && line.value == pieces[n] && Split(buffer, '\n') == pieces[n+1..]
    {
      var idx := IndexByte(buffer, '\n');
      if idx < 0 {
        LastPiece(buffer, pieces, n);
        return None;
      }
      NextPiece(buffer, pieces, n);
      line := Some(buffer[..idx]);
      buffer := buffer[idx+1..];
    }

    method Flush() returns (ok: bool)
      modifies this
      ensures buffer == ""
      ensures emitted == old(emitted) + (if old(buffer) == "" then [] else [DropCR(old(buffer))])
      ensures ok == (old(buffer) == "" || accepts(|old(emitted)|))
    {
      if buffer == "" {
        return true;
      }
      var line := buffer;
      buffer := "";
      ok := EmitLine(line);
    }

    /** Chunk boundaries never matter: a stream written in any chunks and flushed comes out as the
        lines of its concatenation, and a second flush adds nothing. */
    method WriteStream(chunks: seq<string>)
      requires buffer == "" && forall k: nat :: accepts(k)
      modifies this
      ensures emitted == old(emitted) + DropCRs(Lines(Concat(chunks))) && buffer == ""
    {
      for i := 0 to |chunks|
        invariant emitted == old(emitted) + DropCRs(CompleteLines(Concat(chunks[..i])))
        invariant buffer == Unfinished(Concat(chunks[..i])) && '\n' !in buffer
      {
        OneMoreChunk(chunks, i);
        var _ := WriteChunk(chunks[i]);
      }
      assert chunks[..|chunks|] == chunks;
      LinesAtTheEnd(Concat(chunks));
      var _ := Flush();
      label flushed:
      var _ := Flush();
      assert emitted == old@flushed(emitted);
    }
  }

  // ---- The same on values, for every way of cutting a stream ----

  /** Lines emitted and text buffered after some chunks. */
  function Fed(chunks: seq<string>): (seq<string>, string) {
    if chunks == [] then ([], "")
    else
      var (lines, buffer) := Fed(chunks[..|chunks|-1]);
      var text := buffer + chunks[|chunks|-1];
      (lines + CompleteLines(text), Unfinished(text))
  }

  lemma {:induction false} FedIsWhole(chunks: seq<string>)
    ensures Fed(chunks) == (CompleteLines(Concat(chunks)), Unfinished(Concat(chunks)))
  {
    if chunks != [] {
      FedIsWhole(chunks[..|chunks|-1]);
      ChunksCompose(Concat(chunks[..|chunks|-1]), chunks[|chunks|-1]);
    }
  }

  /** Two ways of cutting the same stream leave the same lines and the same buffer. */
  lemma ChunkBoundariesNeverMatter(one: seq<string>, other: seq<string>)
    requires Concat(one) == Concat(other)
    ensures Fed(one) == Fed(other) && '\n' !in Fed(one).1
  {
    FedIsWhole(one);
    FedIsWhole(other);
    UnfinishedHasNoNewline(Concat(one));
  }

  /** Nothing is lost or altered: the lines joined by newlines, with the unfinished one, are the stream. */
  lemma LinesRebuildTheStream(text: string)
    ensures Join(CompleteLines(text) + [Unfinished(text)], '\n') == text
  {
    JoinSplit(text, '\n');
    var pieces := Split(text, '\n');
    assert pieces == pieces[..|pieces|-1] + [pieces[|pieces|-1]];
  }
}
