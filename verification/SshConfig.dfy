/** The managed section of the SSH config file: replaced in place between its markers, or appended. */
module SshConfig {
  import opened Results
  import opened Text

  const MARKER_START := "# ---- START CODEWIRE ----"
  const MARKER_END := "# ---- END CODEWIRE ----"

  datatype Error = MarkersIncomplete

  function EndsWithNewline(s: string): bool {
    s != "" && s[|s|-1] == '\n'
  }

  /** What an appended section is separated by: an empty line, unless the file is empty. */
  function Padding(existing: string): string {
    if existing == "" then "" else if EndsWithNewline(existing) then "\n" else "\n\n"
  }

  /** Where the text after the section goes on: behind the END marker and one newline. */
  function AfterSection(existing: string, endIdx: nat): nat
    requires endIdx <= |existing|
  {
    if endIdx < |existing| && existing[endIdx] == '\n' then endIdx + 1 else endIdx
  }

  /** replaceManagedSSHSection, for any pair of markers. */
  function ReplaceBetween(start: string, end: string, existing: string, managed: string): Result<string, Error> {
    var startIdx := Index(existing, start);
    var endIdx := Index(existing, end);
    if startIdx == -1 && endIdx == -1 then Ok(existing + Padding(existing) + managed + "\n")
    else if startIdx == -1 || endIdx == -1 || endIdx < startIdx then Err(MarkersIncomplete)
    else Ok(existing[..startIdx] + managed + "\n" + existing[AfterSection(existing, endIdx + |end|)..])
  }

  function ReplaceManagedSection(existing: string, managed: string): Result<string, Error> {
    ReplaceBetween(MARKER_START, MARKER_END, existing, managed)
  }

  /** Markers lie on one line, and the START marker is at least as long as the END marker. */
  predicate Markers(start: string, end: string) {
    0 < |end| <= |start| && '\n' !in start && '\n' !in end
  }

  /** The block begins with START, and END occurs in it only as its last characters. */
  predicate Closed(start: string, end: string, block: string) {
    start <= block && |end| <= |block| && Index(block, end) == |block| - |end|
  }

  // ---- Occurrences ----

  lemma OccursInFront(s: string, rest: string, t: string, i: nat)
    requires i + |t| <= |s|
    ensures OccursAt(s + rest, t, i) <==> OccursAt(s, t, i)
  {
    assert (s + rest)[i..i + |t|] == s[i..i + |t|];
  }

  lemma OccursBehind(front: string, s: string, t: string, i: nat)
    requires i >= |front|
    ensures OccursAt(front + s, t, i) <==> OccursAt(s, t, i - |front|)
  {
    if i + |t| <= |front + s| {
      assert (front + s)[i..i + |t|] == s[i - |front|..i - |front| + |t|];
    }
  }

  /** A one-line text does not run across the newline that ends a line. */
  lemma OccursInOneLine(line: string, rest: string, t: string, i: nat)
    requires '\n' !in t && t != ""
    ensures OccursAt(line + "\n" + rest, t, i)
            <==> OccursAt(line, t, i) || (i > |line| && OccursAt(rest, t, i - |line| - 1))
  {
    var whole := line + "\n" + rest;
    if i + |t| <= |line| {
      assert whole == line + ("\n" + rest);
      OccursInFront(line, "\n" + rest, t, i);
    } else if i > |line| {
      OccursBehind(line + "\n", rest, t, i);
    } else if i + |t| <= |whole| {
      assert whole[i..i + |t|][|line| - i] == '\n';
    }
  }

  lemma NoneInPadded(x: string, t: string)
    requires '\n' !in t && t != "" && Index(x, t) == -1
    ensures var padded := x + Padding(x);
            forall rest, i :: 0 <= i < |padded| ==> !OccursAt(padded + rest, t, i)
  {
    var padded := x + Padding(x);
    forall rest, i | 0 <= i < |padded| ensures !OccursAt(padded + rest, t, i) {
      if x != "" {
        if EndsWithNewline(x) {
          assert padded + rest == x + "\n" + rest;
          OccursInOneLine(x, rest, t, i);
        } else {
          assert padded + rest == x + "\n" + ("\n" + rest);
          OccursInOneLine(x, "\n" + rest, t, i);
          assert "\n" + rest == "" + "\n" + rest;
          if i > |x| {
            OccursInOneLine("", rest, t, i - |x| - 1);
          }
        }
      }
    }
  }

  // ---- Success, failure, and what is kept ----

  predicate FirstAt(s: string, t: string, i: int) {
    OccursAt(s, t, i) && forall k :: 0 <= k < i ==> !OccursAt(s, t, k)
  }

  /** It succeeds exactly when neither marker occurs, or both do and the first START is not behind the first END. */
  lemma SucceedsIff(start: string, end: string, existing: string, managed: string)
    ensures ReplaceBetween(start, end, existing, managed).Ok? <==>
            || (forall k :: !OccursAt(existing, start, k) && !OccursAt(existing, end, k))
            || (exists i, j :: i <= j && FirstAt(existing, start, i) && FirstAt(existing, end, j))
  {
    var i, j := Index(existing, start), Index(existing, end);
    if i != -1 && j != -1 && i <= j {
      assert FirstAt(existing, start, i) && FirstAt(existing, end, j);
    }
    if a, b :| a <= b && FirstAt(existing, start, a) && FirstAt(existing, end, b) {
      IndexIs(existing, start, a);
      IndexIs(existing, end, b);
    }
  }

  /** A file without markers gets the section at its end, behind an empty line; whether its last line
      was ended makes no difference. */
  lemma AppendsBehindEmptyLine(start: string, end: string, existing: string, managed: string)
    requires existing != "" && existing[|existing|-1] != '\n'
    requires forall k :: !OccursAt(existing, start, k) && !OccursAt(existing, end, k)
    requires forall k :: !OccursAt(existing + "\n", start, k) && !OccursAt(existing + "\n", end, k)
    ensures ReplaceBetween(start, end, existing, managed) == Ok(existing + "\n\n" + managed + "\n")
    ensures ReplaceBetween(start, end, existing + "\n", managed) == Ok(existing + "\n\n" + managed + "\n")
  {
    assert existing + "\n" + "\n" == existing + "\n\n";
  }

  lemma NewFileIsSection(start: string, end: string, managed: string)
    requires start != "" && end != ""
    ensures ReplaceBetween(start, end, "", managed) == Ok(managed + "\n")
  {
    assert "" + Padding("") + managed + "\n" == managed + "\n";
  }

  /** Text outside the first markers is kept verbatim, up to one newline after the END marker. */
  lemma OutsideIsKept(start: string, end: string, before: string, section: string, after: string, managed: string)
    requires Markers(start, end)
    requires FirstAt(before + section + after, start, |before|)
    requires |end| <= |section| && FirstAt(before + section + after, end, |before| + |section| - |end|)
    ensures ReplaceBetween(start, end, before + section + after, managed)
         == Ok(before + managed + "\n" + (if after != "" && after[0] == '\n' then after[1..] else after))
  {
    var x := before + section + after;
    IndexIs(x, start, |before|);
    IndexIs(x, end, |before| + |section| - |end|);
    assert x[..|before|] == before;
    assert x[|before| + |section|..] == after;
    if after != "" {
      assert x[|before| + |section|] == after[0];
      assert x[|before| + |section| + 1..] == after[1..];
    }
  }

  // ---- The last writer wins ----

  /** A closed block written after a prefix without earlier markers is found again exactly. */
  lemma ClosedBlockIsFound(start: string, end: string, prefix: string, block: string, suffix: string, managed: string)
    requires Markers(start, end) && Closed(start, end, block)
    requires forall i :: 0 <= i < |prefix| ==> !OccursAt(prefix + block + "\n" + suffix, start, i)
    requires forall i :: 0 <= i < |prefix| ==> !OccursAt(prefix + block + "\n" + suffix, end, i)
    ensures ReplaceBetween(start, end, prefix + block + "\n" + suffix, managed) == Ok(prefix + managed + "\n" + suffix)
  {
    var x := prefix + block + "\n" + suffix;
    var tail := "\n" + suffix;
    assert x == prefix + block + tail;
    assert x == prefix + (block + tail);
    OccursInFront(block, tail, start, 0);
    assert OccursAt(block, start, 0);
    OccursBehind(prefix, block + tail, start, |prefix|);
    var at := |prefix| + |block| - |end|;
    forall k | 0 <= k <= at ensures OccursAt(x, end, k) <==> k == at {
      if k >= |prefix| {
        OccursBehind(prefix, block + tail, end, k);
        OccursInFront(block, tail, end, k - |prefix|);
      }
    }
    OutsideIsKept(start, end, prefix, block, tail, managed);
    assert tail[1..] == suffix;
  }

  /** Where a text does not occur before a START, neither it nor anything no longer than START does
      once other text follows that START. */
  lemma NoneBeforeStart(prefix: string, start: string, one: string, other: string, t: string)
    requires |t| <= |start| && forall k :: 0 <= k < |prefix| ==> !OccursAt(prefix + start + one, t, k)
    ensures forall k :: 0 <= k < |prefix| ==> !OccursAt(prefix + start + other, t, k)
  {
    forall k | 0 <= k < |prefix| ensures !OccursAt(prefix + start + other, t, k) {
      OccursInFront(prefix + start, one, t, k);
      OccursInFront(prefix + start, other, t, k);
    }
  }

  lemma NoneBeforeReplaced(start: string, end: string, x: string, i: nat, block: string, suffix: string)
    requires |end| <= |start| && start <= block && FirstAt(x, start, i)
    requires forall k :: 0 <= k < i ==> !OccursAt(x, end, k)
    ensures forall k :: 0 <= k < i ==> !OccursAt(x[..i] + block + "\n" + suffix, start, k)
    ensures forall k :: 0 <= k < i ==> !OccursAt(x[..i] + block + "\n" + suffix, end, k)
  {
    var prefix, after, tail := x[..i], x[i + |start|..], block[|start|..] + "\n" + suffix;
    assert x == prefix + start + after;
    assert prefix + block + "\n" + suffix == prefix + start + tail by {
      assert block == start + block[|start|..];
    }
    NoneBeforeStart(prefix, start, after, tail, start);
    NoneBeforeStart(prefix, start, after, tail, end);
  }

  lemma LastWriterWinsAppended(start: string, end: string, x: string, first: string, second: string)
    requires Markers(start, end) && Closed(start, end, first)
    requires Index(x, start) == -1 && Index(x, end) == -1
    ensures ReplaceBetween(start, end, x + Padding(x) + first + "\n", second) == Ok(x + Padding(x) + second + "\n")
  {
    NoneInPadded(x, start);
    NoneInPadded(x, end);
    var padded := x + Padding(x);
    assert padded + first + "\n" + "" == padded + (first + "\n" + "");
    ClosedBlockIsFound(start, end, padded, first, "", second);
    assert padded + first + "\n" + "" == padded + first + "\n";
    assert padded + second + "\n" + "" == padded + second + "\n";
  }

  lemma LastWriterWinsReplaced(start: string, end: string, x: string, first: string, second: string, i: nat,
                               suffix: string)
    requires Markers(start, end) && Closed(start, end, first)
    requires i == Index(x, start) && Index(x, end) >= i
    ensures ReplaceBetween(start, end, x[..i] + first + "\n" + suffix, second) == Ok(x[..i] + second + "\n" + suffix)
  {
    NoneBeforeReplaced(start, end, x, i, first, suffix);
    ClosedBlockIsFound(start, end, x[..i], first, suffix, second);
  }

  /** Writing a closed block and then another is writing the other alone, on every file where the first succeeds. */
  lemma LastWriterWins(start: string, end: string, x: string, first: string, second: string)
    requires Markers(start, end) && Closed(start, end, first)
    requires ReplaceBetween(start, end, x, first).Ok?
    ensures ReplaceBetween(start, end, ReplaceBetween(start, end, x, first).value, second)
         == ReplaceBetween(start, end, x, second)
  {
    var i := Index(x, start);
    if i == -1 {
      LastWriterWinsAppended(start, end, x, first, second);
    } else {
      LastWriterWinsReplaced(start, end, x, first, second, i, x[AfterSection(x, Index(x, end) + |end|)..]);
    }
  }

  /** For a block from START to END: rewriting it is idempotent on every file exactly when no END
      occurs before the block's own. */
  lemma IdempotentIffClosed(start: string, end: string, block: string)
    requires Markers(start, end) && start <= block && |end| <= |block| && OccursAt(block, end, |block| - |end|)
    ensures (forall x {:trigger ReplaceBetween(start, end, x, block)} :: ReplaceBetween(start, end, x, block).Ok? ==>
               ReplaceBetween(start, end, ReplaceBetween(start, end, x, block).value, block)
               == ReplaceBetween(start, end, x, block))
            <==> Closed(start, end, block)
  {
    if Closed(start, end, block) {
      forall x | ReplaceBetween(start, end, x, block).Ok?
        ensures ReplaceBetween(start, end, ReplaceBetween(start, end, x, block).value, block)
             == ReplaceBetween(start, end, x, block)
      {
        LastWriterWins(start, end, x, block, block);
      }
    } else {
      OpenBlockGrows(start, end, block);
    }
  }

  lemma OpenBlockGrows(start: string, end: string, block: string)
    requires Markers(start, end) && start <= block && |end| <= |block| && OccursAt(block, end, |block| - |end|)
    requires !Closed(start, end, block)
    ensures Index("", start) == -1 && Index("", end) == -1
    ensures ReplaceBetween(start, end, "", block) == Ok(block + "\n")
    ensures ReplaceBetween(start, end, block + "\n", block) != Ok(block + "\n")
  {
    assert "" + Padding("") + block + "\n" == block + "\n";
    var x := block + "\n";
    var j := Index(block, end);
    OccursInFront(block, "\n", start, 0);
    IndexIs(x, start, 0);
    forall k | 0 <= k <= j ensures OccursAt(x, end, k) <==> OccursAt(block, end, k) {
      OccursInFront(block, "\n", end, k);
    }
    IndexIs(x, end, j);
    var cut := AfterSection(x, j + |end|);
    assert cut <= |block|;
    assert |x[..0] + block + "\n" + x[cut..]| > |x|;
  }

  // ---- The block that is written ----

  const MANAGED_BY := " This section is managed by Codewire."
  const REWRITE_HINT := " Re-run `cw config-ssh` to update it."
  const MANAGED_LINE := "#" + MANAGED_BY + REWRITE_HINT
  const HOST_LINE := "Host cw-*"
  const PROXY_LINE := "    ProxyCommand cw shell --stdio %n"
  const HOST_KEY_LINE := "    StrictHostKeyChecking accept-new"
  const USER_LINE := "    User codewire"

  function KnownHostsLine(path: string): string {
    "    UserKnownHostsFile " + path
  }

  function OptionLine(option: string): string {
    "    " + TrimSpace(option)
  }

  /** One line for each option that is not blank. */
  function OptionLines(options: seq<string>): seq<string> {
    if options == [] then []
    else
      var last := options[|options|-1];
      OptionLines(options[..|options|-1]) + (if TrimSpace(last) == "" then [] else [OptionLine(last)])
  }

  /** Lines, each ended by a newline. */
  function Terminated(lines: seq<string>): string {
    if lines == [] then "" else Terminated(lines[..|lines|-1]) + lines[|lines|-1] + "\n"
  }

  function FixedLines(knownHosts: string): seq<string> {
    [MARKER_START, MANAGED_LINE, HOST_LINE, PROXY_LINE, HOST_KEY_LINE, KnownHostsLine(knownHosts), USER_LINE]
  }

  function BlockLines(knownHosts: string, options: seq<string>): seq<string> {
    FixedLines(knownHosts) + OptionLines(options)
  }

  function Block(knownHosts: string, options: seq<string>): string {
    Terminated(BlockLines(knownHosts, options)) + MARKER_END
  }

  /** The option lines: one for each option that is not blank, in order, trimmed and indented. */
  lemma OptionLinesSnoc(options: seq<string>, option: string)
    ensures OptionLines([]) == []
    ensures TrimSpace(option) == "" ==> OptionLines(options + [option]) == OptionLines(options)
    ensures TrimSpace(option) != "" ==>
              OptionLines(options + [option]) == OptionLines(options) + ["    " + TrimSpace(option)]
  {
    assert (options + [option])[..|options|] == options;
  }

  /** The block is its fixed lines, the option lines, each ended by a newline, and the END marker. */
  lemma BlockLinesAre(knownHosts: string, options: seq<string>)
    requires '\n' !in knownHosts && forall o :: o in options ==> '\n' !in o
    ensures var lines := Split(Block(knownHosts, options), '\n');
            && |lines| == 8 + |OptionLines(options)|
            && lines[0] == "# ---- START CODEWIRE ----" && lines[|lines|-1] == "# ---- END CODEWIRE ----"
            && lines[1] == "#" + MANAGED_BY + REWRITE_HINT && lines[2] == "Host cw-*" && lines[3] == PROXY_LINE
            && lines[4] == HOST_KEY_LINE && lines[5] == "    UserKnownHostsFile " + knownHosts && lines[6] == USER_LINE
            && lines[7..|lines|-1] == OptionLines(options)
  {
    var lines := BlockLines(knownHosts, options);
    FixedLinesAreLines(knownHosts);
    OptionLinesAreLines(options);
    MarkerEndIsLine();
    TerminatedIsJoin(lines, MARKER_END);
    SplitJoin(lines + [MARKER_END], '\n');
  }

  lemma MarkerEndIsLine()
    ensures '\n' !in MARKER_END
  {
  }

  lemma ShortLinesAreLines()
    ensures '\n' !in MARKER_START && '\n' !in HOST_LINE && '\n' !in USER_LINE
  {
  }

  lemma LongLinesAreLines()
    ensures '\n' !in PROXY_LINE && '\n' !in HOST_KEY_LINE
  {
  }

  lemma ManagedLineIsLine()
    ensures '\n' !in MANAGED_BY && '\n' !in REWRITE_HINT
  {
  }

  lemma FixedLinesAreLines(knownHosts: string)
    requires '\n' !in knownHosts
    ensures forall l :: l in FixedLines(knownHosts) ==> '\n' !in l
  {
    ShortLinesAreLines();
    LongLinesAreLines();
    ManagedLineIsLine();
  }

  lemma {:induction false} TrimSpaceKeepsOut(s: string, c: char)
    requires c !in s
    ensures c !in TrimSpace(s)
  {
    TrimLeftKeepsOut(s, c);
    TrimRightShape(TrimLeft(s));
  }

  lemma {:induction false} TrimLeftKeepsOut(s: string, c: char)
    requires c !in s
    ensures c !in TrimLeft(s)
  {
    if s != [] && IsSpace(s[0]) {
      TrimLeftKeepsOut(s[1..], c);
    }
  }

  lemma {:induction false} OptionLinesAreLines(options: seq<string>)
    requires forall o :: o in options ==> '\n' !in o
    ensures forall l :: l in OptionLines(options) ==> '\n' !in l
  {
    if options != [] {
      assert options[|options|-1] in options;
      OptionLinesAreLines(options[..|options|-1]);
      TrimSpaceKeepsOut(options[|options|-1], '\n');
    }
  }

  lemma {:induction false} TerminatedIsJoin(lines: seq<string>, last: string)
    ensures Terminated(lines) + last == Join(lines + [last], '\n')
  {
    if lines == [] {
      assert lines + [last] == [last];
      assert Terminated(lines) + last == last;
    } else {
      var front, line := lines[..|lines|-1], lines[|lines|-1];
      TerminatedIsJoin(front, line);
      assert front + [line] == lines;
      JoinConcat(lines, [last], '\n');
      assert Terminated(lines) + last == (Terminated(front) + line) + ['\n'] + last;
    }
  }

  lemma TerminatedSnoc(lines: seq<string>, line: string)
    ensures Terminated(lines + [line]) == Terminated(lines) + line + "\n"
  {
    assert (lines + [line])[..|lines|] == lines;
  }

  /** The string builder of sshConfigBlock. */
  method SshConfigBlock(knownHosts: string, options: seq<string>) returns (buf: string)
    ensures buf == Block(knownHosts, options)
  {
    buf := "";
    buf := buf + MARKER_START + "\n";
    buf := buf + MANAGED_LINE + "\n";
    buf := buf + HOST_LINE + "\n";
    buf := buf + PROXY_LINE + "\n";
    buf := buf + HOST_KEY_LINE + "\n";
    buf := buf + KnownHostsLine(knownHosts) + "\n";
    buf := buf + USER_LINE + "\n";
    FixedLinesTerminated(MARKER_START, MANAGED_LINE, HOST_LINE, PROXY_LINE, HOST_KEY_LINE, KnownHostsLine(knownHosts),
                         USER_LINE);
    ghost var fixedLines := FixedLines(knownHosts);
    assert fixedLines + OptionLines(options[..0]) == fixedLines;
    for i := 0 to |options|
      invariant buf == Terminated(fixedLines + OptionLines(options[..i]))
    {
      assert options[..i+1][..i] == options[..i];
      var option := TrimSpace(options[i]);
      if option == "" {
        assert OptionLines(options[..i+1]) == OptionLines(options[..i]);
        continue;
      }
      AnotherOption(fixedLines, options[..i], options[i]);
      assert options[..i+1] == options[..i] + [options[i]];
      buf := buf + "    ";
      buf := buf + option;
      buf := buf + "\n";
    }
    assert options[..|options|] == options;
    buf := buf + MARKER_END;
  }

  lemma FixedLinesTerminated(a: string, b: string, c: string, d: string, e: string, f: string, g: string)
    ensures Terminated([a, b, c, d, e, f, g])
         == "" + a + "\n" + b + "\n" + c + "\n" + d + "\n" + e + "\n" + f + "\n" + g + "\n"
  {
    assert [a] == [] + [a] && [a, b] == [a] + [b] && [a, b, c] == [a, b] + [c] && [a, b, c, d] == [a, b, c] + [d];
    assert [a, b, c, d, e] == [a, b, c, d] + [e] && [a, b, c, d, e, f] == [a, b, c, d, e] + [f];
    assert [a, b, c, d, e, f, g] == [a, b, c, d, e, f] + [g];
    TerminatedSnoc([], a);
    TerminatedSnoc([a], b);
    TerminatedSnoc([a, b], c);
    TerminatedSnoc([a, b, c], d);
    TerminatedSnoc([a, b, c, d], e);
    TerminatedSnoc([a, b, c, d, e], f);
    TerminatedSnoc([a, b, c, d, e, f], g);
  }

  lemma AnotherOption(fixedLines: seq<string>, options: seq<string>, option: string)
    requires TrimSpace(option) != ""
    ensures Terminated(fixedLines + OptionLines(options + [option]))
         == Terminated(fixedLines + OptionLines(options)) + "    " + TrimSpace(option) + "\n"
  {
    var before := fixedLines + OptionLines(options);
    assert (options + [option])[..|options|] == options;
    assert fixedLines + OptionLines(options + [option]) == before + [OptionLine(option)];
    TerminatedSnoc(before, OptionLine(option));
    assert Terminated(before) + OptionLine(option) + "\n" == Terminated(before) + "    " + TrimSpace(option) + "\n";
  }

  /** A one-line text first occurs at the end of the terminated lines exactly when none of them contains it. */
  lemma FirstBehindLines(lines: seq<string>, t: string)
    requires '\n' !in t && t != ""
    ensures Index(Terminated(lines) + t, t) == |Terminated(lines)| <==> forall l :: l in lines ==> !Contains(l, t)
  {
    var front := Terminated(lines);
    OccursBehind(front, t, t, |front|);
    NoneInLines(lines, t, t);
    assert forall i :: 0 <= i < |front| ==> (OccursAt(front + t, t, i) ==> !NoneBetween(front + t, t, 0, |front|));
    if forall l :: l in lines ==> !Contains(l, t) {
      IndexIs(front + t, t, |front|);
    }
  }

  /** No occurrence of a text begins in this range. */
  predicate NoneBetween(s: string, t: string, from: int, to: int) {
    forall i :: from <= i < to ==> !OccursAt(s, t, i)
  }

  lemma {:induction false} NoneInLines(lines: seq<string>, rest: string, t: string)
    requires '\n' !in t && t != ""
    ensures NoneBetween(Terminated(lines) + rest, t, 0, |Terminated(lines)|)
            <==> forall l :: l in lines ==> !Contains(l, t)
  {
    if lines != [] {
      var front, line := lines[..|lines|-1], lines[|lines|-1];
      var head, tail := Terminated(front), line + "\n" + rest;
      assert lines == front + [line];
      assert Terminated(lines) + rest == head + tail;
      assert |Terminated(lines)| == |head| + |line| + 1;
      NoneInLines(front, tail, t);
      NoneInLastLine(head, line, rest, t);
      var whole := head + tail;
      assert NoneBetween(whole, t, 0, |Terminated(lines)|)
        <==> NoneBetween(whole, t, 0, |head|) && NoneBetween(whole, t, |head|, |head| + |line| + 1);
      assert (forall l :: l in lines ==> !Contains(l, t))
          <==> (forall l :: l in front ==> !Contains(l, t)) && !Contains(line, t);
    }
  }

  lemma NoneInLastLine(head: string, line: string, rest: string, t: string)
    requires '\n' !in t && t != ""
    ensures NoneBetween(head + (line + "\n" + rest), t, |head|, |head| + |line| + 1) <==> !Contains(line, t)
  {
    var tail := line + "\n" + rest;
    forall i | |head| <= i <= |head| + |line|
      ensures OccursAt(head + tail, t, i) <==> OccursAt(line, t, i - |head|)
    {
      OccursBehind(head, tail, t, i);
      OccursInOneLine(line, rest, t, i - |head|);
    }
    if Contains(line, t) {
      var k := Index(line, t);
      assert OccursAt(head + tail, t, |head| + k);
    }
  }

  lemma NothingBeforeHash(front: string, s: string)
    requires '#' !in front
    ensures Contains(front + s, MARKER_END) <==> Contains(s, MARKER_END)
  {
    assert MARKER_END[0] == '#';
    forall i: nat | i < |front| ensures !OccursAt(front + s, MARKER_END, i) {
      if i + |MARKER_END| <= |front + s| {
        assert (front + s)[i..i + |MARKER_END|][0] == front[i];
      }
    }
    forall i: nat | i >= |front| {
      OccursBehind(front, s, MARKER_END, i);
    }
    if Contains(s, MARKER_END) {
      assert OccursAt(front + s, MARKER_END, |front| + Index(s, MARKER_END));
    }
    if Contains(front + s, MARKER_END) {
      assert OccursAt(s, MARKER_END, Index(front + s, MARKER_END) - |front|);
    }
  }

  lemma HashOnlyInFront(line: string, at: nat)
    requires line != "" && '#' !in line[1..] && at < |MARKER_END| && at < |line| && line[at] != MARKER_END[at]
    ensures !Contains(line, MARKER_END)
  {
    assert MARKER_END[0] == '#';
    forall i: nat ensures !OccursAt(line, MARKER_END, i) {
      if i + |MARKER_END| <= |line| {
        assert line[i..i + |MARKER_END|][0] == line[i];
        assert line[i..i + |MARKER_END|][at] == line[i + at];
        assert i > 0 ==> line[i] == line[1..][i - 1];
      }
    }
  }

  lemma NoHashNoMarker(line: string)
    requires '#' !in line
    ensures !Contains(line, MARKER_END)
  {
    NothingBeforeHash(line, "");
    assert line + "" == line;
  }

  lemma StartLineHasNoMarker()
    ensures !Contains(MARKER_START, MARKER_END)
  {
    HashOnlyInFront(MARKER_START, 7);
  }

  lemma HintsHaveNoHash()
    ensures '#' !in MANAGED_BY && '#' !in REWRITE_HINT
  {
  }

  lemma ManagedLineHasNoMarker()
    ensures !Contains(MANAGED_LINE, MARKER_END)
  {
    HintsHaveNoHash();
    assert MANAGED_LINE[1..] == MANAGED_BY + REWRITE_HINT;
    assert MANAGED_LINE[2] == MANAGED_BY[1];
    HashOnlyInFront(MANAGED_LINE, 2);
  }

  lemma ShortLinesHaveNoMarker()
    ensures !Contains(HOST_LINE, MARKER_END) && !Contains(USER_LINE, MARKER_END)
  {
    NoHashNoMarker(HOST_LINE);
    NoHashNoMarker(USER_LINE);
  }

  lemma ProxyLineHasNoMarker()
    ensures !Contains(PROXY_LINE, MARKER_END)
  {
    NoHashNoMarker(PROXY_LINE);
  }

  lemma HostKeyLineHasNoMarker()
    ensures !Contains(HOST_KEY_LINE, MARKER_END)
  {
    NoHashNoMarker(HOST_KEY_LINE);
  }

  lemma KnownHostsLineHasMarkerIff(knownHosts: string)
    ensures Contains(KnownHostsLine(knownHosts), MARKER_END) <==> Contains(knownHosts, MARKER_END)
  {
    NothingBeforeHash("    UserKnownHostsFile ", knownHosts);
  }

  lemma FixedLinesHaveNoMarker(knownHosts: string)
    ensures (forall l :: l in FixedLines(knownHosts) ==> !Contains(l, MARKER_END))
            <==> !Contains(knownHosts, MARKER_END)
  {
    StartLineHasNoMarker();
    ManagedLineHasNoMarker();
    ShortLinesHaveNoMarker();
    ProxyLineHasNoMarker();
    HostKeyLineHasNoMarker();
    KnownHostsLineHasMarkerIff(knownHosts);
    OneOfSeven(MARKER_START, MANAGED_LINE, HOST_LINE, PROXY_LINE, HOST_KEY_LINE, KnownHostsLine(knownHosts),
               USER_LINE, MARKER_END);
  }

  lemma OneOfSeven(a: string, b: string, c: string, d: string, e: string, f: string, g: string, t: string)
    requires !Contains(a, t) && !Contains(b, t) && !Contains(c, t)
    requires !Contains(d, t) && !Contains(e, t) && !Contains(g, t)
    ensures (forall l :: l in [a, b, c, d, e, f, g] ==> !Contains(l, t)) <==> !Contains(f, t)
  {
    assert f in [a, b, c, d, e, f, g];
  }

  lemma OptionLineHasMarkerIff(option: string)
    ensures Contains(OptionLine(option), MARKER_END) <==> Contains(TrimSpace(option), MARKER_END)
  {
    NothingBeforeHash("    ", TrimSpace(option));
  }

  predicate NoneContains(lines: seq<string>, t: string) {
    forall l :: l in lines ==> !Contains(l, t)
  }

  lemma NoneContainsSnoc(lines: seq<string>, line: string, t: string)
    ensures NoneContains(lines + [line], t) <==> NoneContains(lines, t) && !Contains(line, t)
  {
    assert line in lines + [line];
    assert forall l :: l in lines ==> l in lines + [line];
  }

  lemma {:induction false} OptionLinesHaveNoMarker(options: seq<string>)
    ensures NoneContains(OptionLines(options), MARKER_END)
            <==> (forall o :: o in options ==> !Contains(TrimSpace(o), MARKER_END))
  {
    if options != [] {
      var front, last := options[..|options|-1], options[|options|-1];
      OptionLinesHaveNoMarker(front);
      assert options == front + [last];
      OptionLineHasMarkerIff(last);
      NoHashNoMarker("");
      NoneContainsSnoc(OptionLines(front), OptionLine(last), MARKER_END);
    }
  }

  lemma {:induction false} TerminatedBegins(lines: seq<string>)
    requires lines != []
    ensures lines[0] <= Terminated(lines)
  {
    if |lines| == 1 {
      assert lines[..0] == [];
      assert Terminated(lines) == "" + lines[0] + "\n";
    } else {
      TerminatedBegins(lines[..|lines|-1]);
    }
  }

  lemma TheMarkersAreMarkers()
    ensures Markers(MARKER_START, MARKER_END)
  {
  }

  /** The written block is closed exactly when neither the known-hosts path nor any option contains the END marker. */
  lemma BlockClosedIff(knownHosts: string, options: seq<string>)
    ensures Closed(MARKER_START, MARKER_END, Block(knownHosts, options)) <==>
            !Contains(knownHosts, MARKER_END) && forall o :: o in options ==> !Contains(TrimSpace(o), MARKER_END)
  {
    TheMarkersAreMarkers();
    var lines := BlockLines(knownHosts, options);
    FirstBehindLines(lines, MARKER_END);
    TerminatedBegins(lines);
    FixedLinesHaveNoMarker(knownHosts);
    OptionLinesHaveNoMarker(options);
    assert NoneContains(OptionLines(options), MARKER_END)
        <==> forall l :: l in OptionLines(options) ==> !Contains(l, MARKER_END);
    assert forall l :: l in lines <==> l in FixedLines(knownHosts) || l in OptionLines(options);
  }

  /** config-ssh run twice with any options leaves what the second run alone leaves. */
  lemma SecondConfigWins(existing: string, knownHosts: string, options1: seq<string>, options2: seq<string>)
    requires !Contains(knownHosts, MARKER_END) && forall o :: o in options1 ==> !Contains(TrimSpace(o), MARKER_END)
    requires ReplaceManagedSection(existing, Block(knownHosts, options1)).Ok?
    ensures ReplaceManagedSection(
              ReplaceManagedSection(existing, Block(knownHosts, options1)).value, Block(knownHosts, options2))
         == ReplaceManagedSection(existing, Block(knownHosts, options2))
  {
    TheMarkersAreMarkers();
    BlockClosedIff(knownHosts, options1);
    LastWriterWins(MARKER_START, MARKER_END, existing, Block(knownHosts, options1), Block(knownHosts, options2));
  }
}
