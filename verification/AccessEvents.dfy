/** The reader of the relay's access event stream (server-sent events as this client reads them). */
module AccessEvents {
  import opened Results
  import opened Text
  import opened Scanning

  datatype CacheEvent = CacheEvent(seqno: int, kind: string, networkID: string, grantID: string)

  /** One call of the event handler. */
  datatype Dispatched = Dispatched(id: string, kind: string, event: CacheEvent)

  /** JSON decoding of an event's data, as a given library function. */
  type Decoder = string -> Option<CacheEvent>

  /** The fields collected since the last dispatch. */
  datatype Pending = Pending(id: string, kind: string, data: seq<string>)

  const NOTHING := Pending("", "", [])

  predicate HasPrefix(line: string, prefix: string) {
    prefix <= line
  }

  function Field(line: string, prefix: string): string
    requires HasPrefix(line, prefix)
  {
    TrimSpace(line[|prefix|..])
  }

  /** What a line other than a blank one does to the collected fields. */
  function Absorb(p: Pending, line: string): Pending {
    if HasPrefix(line, ":") then p
    else if HasPrefix(line, "id:") then p.(id := Field(line, "id:"))
    else if HasPrefix(line, "event:") then p.(kind := Field(line, "event:"))
    else if HasPrefix(line, "data:") then p.(data := p.data + [Field(line, "data:")])
    else p
  }

  /** The handler calls made by one dispatch: none without data or when the data does not decode. */
  function Flush(p: Pending, decode: Decoder): seq<Dispatched> {
    if p.data == [] then []
    else match decode(Join(p.data, '\n'))
      case None => []
      case Some(ev) =>
        [Dispatched(TrimSpace(p.id), TrimSpace(if p.kind == "" then TrimSpace(ev.kind) else p.kind), ev)]
  }

  /** The collected fields after a line. */
  function AfterLine(p: Pending, line: string): Pending {
    if line == "" then NOTHING else Absorb(p, line)
  }

  /** The handler calls made at a line: a blank line dispatches. */
  function CallsAt(p: Pending, line: string, decode: Decoder): seq<Dispatched> {
    if line == "" then Flush(p, decode) else []
  }

  function LineStep(): (Pending, string) -> Pending {
    (p: Pending, line: string) => AfterLine(p, line)
  }

  function LineCalls(decode: Decoder): (Pending, string) -> seq<Dispatched> {
    (p: Pending, line: string) => CallsAt(p, line, decode)
  }

  function EndCalls(decode: Decoder): Pending -> seq<Dispatched> {
    (p: Pending) => Flush(p, decode)
  }

  /** All handler calls from some collected fields on, with the dispatch at the end of the stream. */
  function CallsToTheEnd(p: Pending, lines: seq<string>, decode: Decoder): seq<Dispatched> {
    OutputToTheEnd(LineStep(), LineCalls(decode), EndCalls(decode), p, lines)
  }

  function Dispatches(lines: seq<string>, decode: Decoder): seq<Dispatched> {
    CallsToTheEnd(NOTHING, lines, decode)
  }

  /** The length of a line, in bytes, that no longer fits the scanner's buffer. */
  const MAX_TOKEN := 65536

  /** The lines in front of the first that is too long. */
  function Fitting(pieces: seq<string>): seq<string> {
    if pieces == [] || |pieces[0]| >= MAX_TOKEN then [] else [pieces[0]] + Fitting(pieces[1..])
  }

  /** Newline-separated pieces; an empty last piece is no line. */
  function RawLines(text: string): seq<string> {
    var pieces := Split(text, '\n');
    if pieces[|pieces|-1] == "" then pieces[..|pieces|-1] else pieces
  }

  /** What bufio.ScanLines yields: lines without a trailing carriage return, up to the first too long one. */
  function ScanLines(text: string): seq<string> {
    DropCRs(Fitting(RawLines(text)))
  }

  datatype StreamEnd = Ended | HandlerFailed | LineTooLong | ReadFailed

  /** The stream is read line by line; the k-th handler call succeeds when `handles(k)`, and the first
      that fails ends the reading. `body` is what can be read, up to its end or to a read error. */
  method StreamEvents(body: string, readFails: bool, decode: Decoder, handles: nat -> bool)
    returns (handled: seq<Dispatched>, end: StreamEnd)
    ensures handled <= Dispatches(ScanLines(body), decode)
    ensures !end.HandlerFailed? ==> handled == Dispatches(ScanLines(body), decode)
    ensures StopsAtFailure(|handled|, !end.HandlerFailed?, handles, 0)
    ensures !end.HandlerFailed? ==>
              end == if Fitting(RawLines(body)) != RawLines(body) then LineTooLong
                     else if readFails then ReadFailed else Ended
  {
    var ok;
    handled, ok := ScanAll(ScanLines(body), decode, handles);
    end := if !ok then HandlerFailed
    else if Fitting(RawLines(body)) != RawLines(body) then LineTooLong
    else if readFails then ReadFailed else Ended;
  }

  /** The collected fields after some lines of a stream. */
  function FieldsAfter(lines: seq<string>): Pending {
    StateAfter(LineStep(), NOTHING, lines)
  }

  /** The handler calls made during some lines of a stream. */
  function CallsDuring(lines: seq<string>, decode: Decoder): seq<Dispatched> {
    OutputDuring(LineStep(), LineCalls(decode), NOTHING, lines)
  }

  lemma CallsOneMore(lines: seq<string>, i: nat, decode: Decoder)
    requires i < |lines|
    ensures FieldsAfter(lines[..i+1]) == AfterLine(FieldsAfter(lines[..i]), lines[i])
    ensures CallsDuring(lines[..i+1], decode)
         == CallsDuring(lines[..i], decode) + CallsAt(FieldsAfter(lines[..i]), lines[i], decode)
  {
    assert lines[..i+1] == lines[..i] + [lines[i]];
    OneMoreLine(LineStep(), LineCalls(decode), NOTHING, lines[..i], lines[i]);
  }

  lemma CallsSoFar(lines: seq<string>, i: nat, decode: Decoder)
    requires i <= |lines|
    ensures CallsDuring(lines[..i], decode) <= Dispatches(lines, decode)
  {
    assert lines == lines[..i] + lines[i..];
    MoreLinesToTheEnd(LineStep(), LineCalls(decode), EndCalls(decode), NOTHING, lines[..i], lines[i..]);
  }

  lemma CallsAtTheEnd(lines: seq<string>, decode: Decoder)
    ensures FieldsAfter([]) == NOTHING && CallsDuring([], decode) == []
    ensures lines[..|lines|] == lines
    ensures Dispatches(lines, decode) == CallsDuring(lines, decode) + Flush(FieldsAfter(lines), decode)
  {
  }

  /** The scan loop with its three variables. */
  method ScanAll(lines: seq<string>, decode: Decoder, handles: nat -> bool) returns (handled: seq<Dispatched>, ok: bool)
    ensures handled <= Dispatches(lines, decode) && (ok ==> handled == Dispatches(lines, decode))
    ensures StopsAtFailure(|handled|, ok, handles, 0)
  {
    var eventID, eventType := "", "";
    var dataLines: seq<string> := [];
    handled := [];
    CallsAtTheEnd(lines, decode);
    for i := 0 to |lines|
      invariant Pending(eventID, eventType, dataLines) == FieldsAfter(lines[..i])
      invariant handled == CallsDuring(lines[..i], decode)
      invariant StopsAtFailure(|handled|, true, handles, 0)
    {
      CallsOneMore(lines, i, decode);
      CallsSoFar(lines, i + 1, decode);
      var calls;
      eventID, eventType, dataLines, calls := ScanLine(eventID, eventType, dataLines, lines[i], decode);
      handled, ok := Attempt(handled, calls, handles, 0);
      if !ok {
        return;
      }
    }
    var calls := Dispatch(eventID, eventType, dataLines, decode);
    handled, ok := Attempt(handled, calls, handles, 0);
  }

  /** The body of the scan loop. */
  method ScanLine(eventID: string, eventType: string, dataLines: seq<string>, line: string, decode: Decoder)
    returns (id: string, kind: string, data: seq<string>, calls: seq<Dispatched>)
    ensures Pending(id, kind, data) == AfterLine(Pending(eventID, eventType, dataLines), line)
    ensures calls == CallsAt(Pending(eventID, eventType, dataLines), line, decode) && |calls| <= 1
  {
    id, kind, data, calls := eventID, eventType, dataLines, [];
    if line == "" {
      calls := Dispatch(eventID, eventType, dataLines, decode);
      id, kind, data := "", "", [];
    } else if HasPrefix(line, ":") {
      return;
    } else if HasPrefix(line, "id:") {
      id := Field(line, "id:");
    } else if HasPrefix(line, "event:") {
      kind := Field(line, "event:");
    } else if HasPrefix(line, "data:") {
      data := dataLines + [Field(line, "data:")];
    }
  }

  /** The dispatch closure; its caller resets the three variables afterwards, as every branch of it does. */
  method Dispatch(eventID: string, eventType: string, dataLines: seq<string>, decode: Decoder)
    returns (calls: seq<Dispatched>)
    ensures calls == Flush(Pending(eventID, eventType, dataLines), decode) && |calls| <= 1
  {
    if |dataLines| == 0 {
      return [];
    }
    var ev := decode(Join(dataLines, '\n'));
    if ev.None? {
      return [];
    }
    var kind := eventType;
    if kind == "" {
      kind := TrimSpace(ev.value.kind);
    }
    calls := [Dispatched(TrimSpace(eventID), TrimSpace(kind), ev.value)];
  }

  // ---- Comment lines ----

  /** A line the reader passes over: a comment or an unknown field. */
  predicate Silent(line: string) {
    line != "" && !HasPrefix(line, "id:") && !HasPrefix(line, "event:") && !HasPrefix(line, "data:")
  }

  function SilentLine(): string -> bool {
    (line: string) => Silent(line)
  }

  function WithoutSilent(lines: seq<string>): seq<string> {
    Without(lines, SilentLine())
  }

  lemma CommentsAreSilent(text: string)
    ensures Silent(":" + text)
  {
    var line := ":" + text;
    assert line[0] == ':';
  }

  lemma SilentLineDoesNothing(p: Pending, line: string, decode: Decoder)
    requires Silent(line)
    ensures AfterLine(p, line) == p && CallsAt(p, line, decode) == []
  {
  }

  /** Silent lines may stand anywhere. */
  lemma SilentLinesDoNotMatter(p: Pending, lines: seq<string>, decode: Decoder)
    ensures CallsToTheEnd(p, lines, decode) == CallsToTheEnd(p, WithoutSilent(lines), decode)
  {
    forall x: Pending, l: string | SilentLine()(l) ensures LineStep()(x, l) == x && LineCalls(decode)(x, l) == [] {
      SilentLineDoesNothing(x, l, decode);
    }
    SilentLines(LineStep(), LineCalls(decode), SilentLine(), p, lines);
  }

  // ---- What the lines of a stream mean ----

  /** Lines between two blank ones. */
  type Block = seq<string>

  predicate NoBlank(block: Block) {
    forall i :: 0 <= i < |block| ==> block[i] != ""
  }

  /** The value of the last line of this field, or nothing. */
  function LastValue(block: Block, field: string): string {
    if block == [] then ""
    else
      var last := block[|block|-1];
      if field <= last then TrimSpace(last[|field|..]) else LastValue(block[..|block|-1], field)
  }

  /** The values of all lines of this field, in order. */
  function AllValues(block: Block, field: string): seq<string> {
    if block == [] then []
    else
      var last := block[|block|-1];
      AllValues(block[..|block|-1], field) + (if field <= last then [TrimSpace(last[|field|..])] else [])
  }

  /** The handler call a block stands for: its last id, its last type or else that of the decoded data,
      and the decoded data, the values of all data lines; none without data that decodes. */
  function BlockCalls(block: Block, decode: Decoder): seq<Dispatched> {
    var data := AllValues(block, "data:");
    var ev := decode(Join(data, '\n'));
    var kind := LastValue(block, "event:");
    if data == [] || ev.None? then []
    else [Dispatched(LastValue(block, "id:"), if kind == "" then TrimSpace(ev.value.kind) else kind, ev.value)]
  }

  function AllCalls(blocks: seq<Block>, decode: Decoder): seq<Dispatched> {
    if blocks == [] then [] else BlockCalls(blocks[0], decode) + AllCalls(blocks[1..], decode)
  }

  function Blanks(n: nat): seq<string> {
    Copies("", n)
  }

  /** Blocks with gaps[0] blank lines before the first and gaps[i+1] blank lines after the i-th. */
  function Transcript(blocks: seq<Block>, gaps: seq<nat>): seq<string>
    requires |gaps| == |blocks| + 1
  {
    Blanks(gaps[0]) + (if blocks == [] then [] else blocks[0] + Transcript(blocks[1..], gaps[1..]))
  }

  /** Blank lines stand between the blocks and nowhere in them; the last block may end with the stream. */
  predicate Separated(blocks: seq<Block>, gaps: seq<nat>) {
    && |gaps| == |blocks| + 1
    && (forall i :: 0 <= i < |blocks| ==> NoBlank(blocks[i]))
    && (forall i :: 0 < i < |blocks| ==> gaps[i] > 0)
  }

  lemma {:induction false} PutBlankInFront(blocks: seq<Block>, gaps: seq<nat>)
    requires Separated(blocks, gaps)
    ensures Transcript(blocks, gaps[0 := gaps[0] + 1]) == [""] + Transcript(blocks, gaps)
  {
    BlanksInFront(gaps[0]);
    assert gaps[0 := gaps[0] + 1][1..] == gaps[1..];
  }

  lemma {:induction false} BlanksInFront(n: nat)
    ensures Blanks(n + 1) == [""] + Blanks(n)
  {
    if n > 0 {
      BlanksInFront(n - 1);
    }
  }

  /** Every list of lines is a transcript of blocks. */
  lemma {:induction false} EveryStreamIsTranscript(lines: seq<string>) returns (blocks: seq<Block>, gaps: seq<nat>)
    ensures Separated(blocks, gaps) && Transcript(blocks, gaps) == lines
    decreases |lines|
  {
    if lines == [] {
      return [], [0];
    }
    blocks, gaps := EveryStreamIsTranscript(lines[1..]);
    assert lines == [lines[0]] + lines[1..];
    if lines[0] == "" {
      PutBlankInFront(blocks, gaps);
      gaps := gaps[0 := gaps[0] + 1];
    } else if blocks != [] && gaps[0] == 0 {
      var longer := [lines[0]] + blocks[0];
      assert blocks[0 := longer][1..] == blocks[1..];
      assert Transcript(blocks, gaps) == blocks[0] + Transcript(blocks[1..], gaps[1..]);
      assert longer + Transcript(blocks[1..], gaps[1..]) == [lines[0]] + Transcript(blocks, gaps);
      blocks := blocks[0 := longer];
    } else {
      var block := [lines[0]];
      assert ([block] + blocks)[1..] == blocks && ([0] + gaps)[1..] == gaps;
      assert Blanks(0) == [];
      blocks, gaps := [block] + blocks, [0] + gaps;
    }
  }

  /** What a nonblank line adds to the fields. */
  lemma AbsorbByField(p: Pending, line: string)
    requires line != ""
    ensures Absorb(p, line) ==
            Pending(if "id:" <= line then TrimSpace(line[3..]) else p.id,
                    if "event:" <= line then TrimSpace(line[6..]) else p.kind,
                    p.data + (if "data:" <= line then [TrimSpace(line[5..])] else []))
  {
    assert p.data + [] == p.data;
    assert "id:" <= line ==> line[0] == 'i';
    assert "event:" <= line ==> line[0] == 'e';
    assert "data:" <= line ==> line[0] == 'd';
    assert ":" <= line ==> line[0] == ':';
  }

  lemma ValuesSnoc(block: Block, line: string, field: string)
    ensures LastValue(block + [line], field)
            == if field <= line then TrimSpace(line[|field|..]) else LastValue(block, field)
    ensures AllValues(block + [line], field)
         == AllValues(block, field) + (if field <= line then [TrimSpace(line[|field|..])] else [])
  {
    assert (block + [line])[..|block|] == block;
  }

  /** The fields a block holds. */
  function FieldsOf(block: Block): Pending {
    Pending(LastValue(block, "id:"), LastValue(block, "event:"), AllValues(block, "data:"))
  }

  lemma FieldsOfSnoc(block: Block, line: string)
    requires line != ""
    ensures FieldsOf(block + [line]) == AfterLine(FieldsOf(block), line)
  {
    AbsorbByField(FieldsOf(block), line);
    ValuesSnoc(block, line, "id:");
    ValuesSnoc(block, line, "event:");
    ValuesSnoc(block, line, "data:");
  }

  /** Reading a block makes no handler call and collects its fields. */
  lemma {:induction false} BlockCollects(block: Block, decode: Decoder)
    requires NoBlank(block)
    ensures FieldsAfter(block) == FieldsOf(block) && CallsDuring(block, decode) == []
  {
    if block != [] {
      var n := |block| - 1;
      BlockCollects(block[..n], decode);
      CallsOneMore(block, n, decode);
      FieldsOfSnoc(block[..n], block[n]);
      assert block[..n+1] == block == block[..n] + [block[n]];
    }
  }

  lemma {:induction false} LastValueIsTrimmed(block: Block, field: string)
    ensures TrimSpace(LastValue(block, field)) == LastValue(block, field)
  {
    if block != [] {
      var last := block[|block|-1];
      if field <= last {
        TrimSpaceIdempotent(last[|field|..]);
      } else {
        LastValueIsTrimmed(block[..|block|-1], field);
      }
    }
  }

  lemma FlushIsBlockCalls(block: Block, decode: Decoder)
    requires NoBlank(block)
    ensures Flush(FieldsAfter(block), decode) == BlockCalls(block, decode)
  {
    BlockCollects(block, decode);
    LastValueIsTrimmed(block, "id:");
    LastValueIsTrimmed(block, "event:");
    var ev := decode(Join(AllValues(block, "data:"), '\n'));
    if ev.Some? {
      TrimSpaceIdempotent(ev.value.kind);
    }
  }

  lemma BlankLineResets(p: Pending, decode: Decoder)
    ensures AfterLine(p, "") == NOTHING && CallsAt(p, "", decode) == Flush(p, decode) && Flush(NOTHING, decode) == []
  {
  }

  /** Blank lines or none: the pending event is dispatched exactly once, here or later. */
  lemma GapThenRest(p: Pending, n: nat, rest: seq<string>, decode: Decoder)
    ensures n > 0 ==>
              CallsToTheEnd(p, Blanks(n) + rest, decode) == Flush(p, decode) + CallsToTheEnd(NOTHING, rest, decode)
    ensures n == 0 ==> CallsToTheEnd(p, Blanks(n) + rest, decode) == CallsToTheEnd(p, rest, decode)
  {
    BlankLineResets(p, decode);
    BlankLineResets(NOTHING, decode);
    ResettingLine(LineStep(), LineCalls(decode), p, NOTHING, "", n);
    MoreLinesToTheEnd(LineStep(), LineCalls(decode), EndCalls(decode), p, Blanks(n), rest);
    if n == 0 {
      assert Blanks(n) + rest == rest;
    }
  }

  lemma BlockThenRest(block: Block, rest: seq<string>, decode: Decoder)
    requires NoBlank(block)
    ensures CallsToTheEnd(NOTHING, block + rest, decode) == CallsToTheEnd(FieldsAfter(block), rest, decode)
  {
    BlockCollects(block, decode);
    MoreLinesToTheEnd(LineStep(), LineCalls(decode), EndCalls(decode), NOTHING, block, rest);
  }

  lemma {:induction false} TranscriptCalls(p: Pending, blocks: seq<Block>, gaps: seq<nat>, decode: Decoder)
    requires Separated(blocks, gaps)
    requires p == NOTHING || blocks == [] || gaps[0] > 0
    ensures CallsToTheEnd(p, Transcript(blocks, gaps), decode) == Flush(p, decode) + AllCalls(blocks, decode)
    decreases |blocks|
  {
    var rest := if blocks == [] then [] else blocks[0] + Transcript(blocks[1..], gaps[1..]);
    assert Flush(NOTHING, decode) == [];
    GapThenRest(p, gaps[0], rest, decode);
    if blocks != [] {
      BlockThenRest(blocks[0], Transcript(blocks[1..], gaps[1..]), decode);
      TranscriptCalls(FieldsAfter(blocks[0]), blocks[1..], gaps[1..], decode);
      FlushIsBlockCalls(blocks[0], decode);
    }
  }

  /** Of every stream each block is dispatched exactly once, in order, for what it stands for by itself. */
  lemma TranscriptDispatches(blocks: seq<Block>, gaps: seq<nat>, decode: Decoder)
    requires Separated(blocks, gaps)
    ensures Dispatches(Transcript(blocks, gaps), decode) == AllCalls(blocks, decode)
  {
    TranscriptCalls(NOTHING, blocks, gaps, decode);
    assert Flush(NOTHING, decode) + AllCalls(blocks, decode) == AllCalls(blocks, decode);
  }

  // ---- Writing events ----

  datatype WireEvent = WireEvent(id: string, kind: string, data: seq<string>)

  function DataLines(data: seq<string>): seq<string> {
    if data == [] then [] else DataLines(data[..|data|-1]) + ["data: " + data[|data|-1]]
  }

  /** An event as the relay writes it; empty id and type fields are left out. */
  function EventLines(e: WireEvent): Block {
    (if e.id == "" then [] else ["id: " + e.id])
    + (if e.kind == "" then [] else ["event: " + e.kind])
    + DataLines(e.data)
  }

  predicate WellFormed(e: WireEvent, decode: Decoder) {
    && Trimmed(e.id) && Trimmed(e.kind) && e.data != []
    && (forall i :: 0 <= i < |e.data| ==> Trimmed(e.data[i]))
    && decode(Join(e.data, '\n')).Some?
  }

  function Expected(e: WireEvent, decode: Decoder): Dispatched
    requires WellFormed(e, decode)
  {
    var ev := decode(Join(e.data, '\n')).value;
    Dispatched(e.id, if e.kind == "" then TrimSpace(ev.kind) else e.kind, ev)
  }

  /** The last id, the last type and all data of a block without blank lines. */
  predicate Holds(block: Block, id: string, kind: string, data: seq<string>) {
    && NoBlank(block) && LastValue(block, "id:") == id && LastValue(block, "event:") == kind
    && AllValues(block, "data:") == data
  }

  /** One more line, which has this value for one of the fields and none for the others. */
  lemma OneMoreField(block: Block, id: string, kind: string, data: seq<string>, line: string)
    requires Holds(block, id, kind, data) && line != ""
    ensures Holds(block + [line],
                  if "id:" <= line then TrimSpace(line[3..]) else id,
                  if "event:" <= line then TrimSpace(line[6..]) else kind,
                  data + if "data:" <= line then [TrimSpace(line[5..])] else [])
  {
    ValuesSnoc(block, line, "id:");
    ValuesSnoc(block, line, "event:");
    ValuesSnoc(block, line, "data:");
  }

  lemma IDLine(value: string)
    requires Trimmed(value)
    ensures var line := "id: " + value;
            "id:" <= line && !("event:" <= line) && !("data:" <= line) && TrimSpace(line[3..]) == value
  {
    assert ("id: " + value)[0] == 'i' && ("id: " + value)[3..] == " " + value;
    TrimSpaceDropsPadding(" ", value);
  }

  lemma EventLine(value: string)
    requires Trimmed(value)
    ensures var line := "event: " + value;
            "event:" <= line && !("id:" <= line) && !("data:" <= line) && TrimSpace(line[6..]) == value
  {
    assert ("event: " + value)[0] == 'e' && ("event: " + value)[6..] == " " + value;
    TrimSpaceDropsPadding(" ", value);
  }

  lemma DataLine(value: string)
    requires Trimmed(value)
    ensures var line := "data: " + value;
            "data:" <= line && !("id:" <= line) && !("event:" <= line) && TrimSpace(line[5..]) == value
  {
    assert ("data: " + value)[0] == 'd' && ("data: " + value)[5..] == " " + value;
    TrimSpaceDropsPadding(" ", value);
  }

  lemma HoldsID(value: string)
    requires Trimmed(value)
    ensures Holds(if value == "" then [] else ["id: " + value], value, "", [])
  {
    if value != "" {
      IDLine(value);
      OneMoreField([], "", "", [], "id: " + value);
      assert [] + ["id: " + value] == ["id: " + value];
    }
  }

  lemma HoldsEvent(block: Block, id: string, value: string)
    requires Trimmed(value) && Holds(block, id, "", [])
    ensures Holds(block + (if value == "" then [] else ["event: " + value]), id, value, [])
  {
    if value != "" {
      EventLine(value);
      OneMoreField(block, id, "", [], "event: " + value);
    } else {
      assert block + [] == block;
    }
  }

  lemma {:induction false} HoldsData(block: Block, id: string, kind: string, data: seq<string>)
    requires Holds(block, id, kind, []) && forall i :: 0 <= i < |data| ==> Trimmed(data[i])
    ensures Holds(block + DataLines(data), id, kind, data)
  {
    if data == [] {
      assert block + [] == block;
    } else {
      var front, value := data[..|data|-1], data[|data|-1];
      HoldsData(block, id, kind, front);
      DataLine(value);
      OneMoreField(block + DataLines(front), id, kind, front, "data: " + value);
      assert data == front + [value];
      assert block + DataLines(data) == block + DataLines(front) + ["data: " + value];
    }
  }

  /** A written event stands for just what was written. */
  lemma EventStandsForItself(e: WireEvent, decode: Decoder)
    requires WellFormed(e, decode)
    ensures NoBlank(EventLines(e)) && BlockCalls(EventLines(e), decode) == [Expected(e, decode)]
  {
    var idLine: Block := if e.id == "" then [] else ["id: " + e.id];
    HoldsID(e.id);
    HoldsEvent(idLine, e.id, e.kind);
    HoldsData(idLine + (if e.kind == "" then [] else ["event: " + e.kind]), e.id, e.kind, e.data);
  }

  /** The blocks of some written events. */
  function EventBlocks(events: seq<WireEvent>): seq<Block> {
    if events == [] then [] else [EventLines(events[0])] + EventBlocks(events[1..])
  }

  function ExpectedAll(events: seq<WireEvent>, decode: Decoder): seq<Dispatched>
    requires forall e :: e in events ==> WellFormed(e, decode)
  {
    if events == [] then [] else [Expected(events[0], decode)] + ExpectedAll(events[1..], decode)
  }

  lemma {:induction false} EventBlocksCalls(events: seq<WireEvent>, decode: Decoder)
    requires forall e :: e in events ==> WellFormed(e, decode)
    ensures |EventBlocks(events)| == |events| && AllCalls(EventBlocks(events), decode) == ExpectedAll(events, decode)
    ensures forall i :: 0 <= i < |events| ==> NoBlank(EventBlocks(events)[i])
  {
    if events != [] {
      assert events[0] in events;
      EventStandsForItself(events[0], decode);
      EventBlocksCalls(events[1..], decode);
    }
  }

  // ---- From lines to text ----

  function WithEnding(line: string, crlf: bool): string {
    line + (if crlf then "\r" else "")
  }

  function EndCRs(lines: seq<string>, crlf: bool): (r: seq<string>)
    ensures |r| == |lines| && forall i :: 0 <= i < |lines| ==> r[i] == WithEnding(lines[i], crlf)
  {
    if lines == [] then [] else EndCRs(lines[..|lines|-1], crlf) + [WithEnding(lines[|lines|-1], crlf)]
  }

  /** Lines as text, ended by \n or \r\n; the last newline may be missing. */
  function TextOf(lines: seq<string>, crlf: bool, finalNewline: bool): string {
    Join(EndCRs(lines, crlf) + (if finalNewline then [""] else []), '\n')
  }

  predicate PlainLine(line: string) {
    '\n' !in line && (line != "" ==> line[|line|-1] != '\r')
  }

  lemma DropCROfEnded(line: string, crlf: bool)
    requires PlainLine(line)
    ensures DropCR(WithEnding(line, crlf)) == line && '\n' !in WithEnding(line, crlf)
    ensures line != "" ==> WithEnding(line, crlf) != ""
  {
    var ended := WithEnding(line, crlf);
    if crlf {
      assert ended[..|ended|-1] == line;
    } else {
      assert ended == line;
    }
  }

  lemma {:induction false} DropCRsUndoesEndCRs(lines: seq<string>, crlf: bool)
    requires forall l :: l in lines ==> PlainLine(l)
    ensures DropCRs(EndCRs(lines, crlf)) == lines
  {
    if lines != [] {
      var front, last := lines[..|lines|-1], lines[|lines|-1];
      assert last in lines && lines == front + [last];
      DropCRsUndoesEndCRs(front, crlf);
      DropCROfEnded(last, crlf);
      DropCRsSnoc(EndCRs(front, crlf), WithEnding(last, crlf));
    }
  }

  lemma EndedLinesAreWhole(lines: seq<string>, crlf: bool)
    requires forall l :: l in lines ==> PlainLine(l)
    ensures forall l :: l in EndCRs(lines, crlf) ==> '\n' !in l
    ensures lines != [] && lines[|lines|-1] != "" ==> EndCRs(lines, crlf)[|lines|-1] != ""
  {
    forall i | 0 <= i < |lines|
      ensures '\n' !in EndCRs(lines, crlf)[i] && (lines[i] != "" ==> EndCRs(lines, crlf)[i] != "")
    {
      DropCROfEnded(lines[i], crlf);
    }
  }

  lemma {:induction false} FittingIff(pieces: seq<string>)
    ensures |Fitting(pieces)| <= |pieces|
    ensures Fitting(pieces) == pieces <==> |Fitting(pieces)| == |pieces|
    ensures Fitting(pieces) == pieces <==> forall i :: 0 <= i < |pieces| ==> |pieces[i]| < MAX_TOKEN
  {
    if pieces != [] {
      FittingIff(pieces[1..]);
      assert pieces == [pieces[0]] + pieces[1..];
      assert forall i :: 0 < i < |pieces| ==> pieces[i] == pieces[1..][i - 1];
    }
  }

  /** The line with its ending, but for the newline, fits the scanner's buffer. */
  predicate Fits(line: string, crlf: bool) {
    |line| + (if crlf then 1 else 0) <= 65535
  }

  lemma RawLinesOfPieces(text: string, pieces: seq<string>)
    requires Split(text, '\n') == pieces
    ensures RawLines(text) == if pieces[|pieces|-1] == "" then pieces[..|pieces|-1] else pieces
  {
  }

  lemma RawLinesReadText(lines: seq<string>, crlf: bool, finalNewline: bool)
    requires forall l :: l in lines ==> PlainLine(l)
    requires finalNewline || (lines != [] && lines[|lines|-1] != "")
    ensures RawLines(TextOf(lines, crlf, finalNewline)) == EndCRs(lines, crlf)
  {
    var ended := EndCRs(lines, crlf);
    EndedLinesAreWhole(lines, crlf);
    var pieces := ended + (if finalNewline then [""] else []);
    SplitJoin(pieces, '\n');
    RawLinesOfPieces(TextOf(lines, crlf, finalNewline), pieces);
    if finalNewline {
      assert pieces[..|ended|] == ended;
    } else {
      assert pieces == ended;
    }
  }

  /** Text scans back to its lines exactly when each of them fits the scanner's buffer. */
  lemma ScanLinesReadsText(lines: seq<string>, crlf: bool, finalNewline: bool)
    requires forall l :: l in lines ==> PlainLine(l)
    requires finalNewline || (lines != [] && lines[|lines|-1] != "")
    ensures ScanLines(TextOf(lines, crlf, finalNewline)) == lines
            <==> forall i :: 0 <= i < |lines| ==> Fits(lines[i], crlf)
  {
    var ended := EndCRs(lines, crlf);
    RawLinesReadText(lines, crlf, finalNewline);
    DropCRsUndoesEndCRs(lines, crlf);
    FittingIff(ended);
  }

  /** What the handler sees of a text, with either line ending and with or without a final newline: the
      calls its blocks stand for. */
  lemma StreamDispatches(blocks: seq<Block>, gaps: seq<nat>, crlf: bool, finalNewline: bool, decode: Decoder)
    requires Separated(blocks, gaps)
    requires var lines := Transcript(blocks, gaps);
             && (forall l :: l in lines ==> PlainLine(l) && Fits(l, crlf))
             && (finalNewline || (lines != [] && lines[|lines|-1] != ""))
    ensures Dispatches(ScanLines(TextOf(Transcript(blocks, gaps), crlf, finalNewline)), decode)
            == AllCalls(blocks, decode)
  {
    ScanLinesReadsText(Transcript(blocks, gaps), crlf, finalNewline);
    TranscriptDispatches(blocks, gaps, decode);
  }

  /** Round trip on text: whatever comments and unknown fields are strewn in, the handler sees exactly
      the written events. */
  lemma StreamRoundTrip(events: seq<WireEvent>, gaps: seq<nat>, lines: seq<string>, crlf: bool, finalNewline: bool,
                        decode: Decoder)
    requires |gaps| == |events| + 1
    requires forall e :: e in events ==> WellFormed(e, decode)
    requires forall i :: 0 < i < |events| ==> gaps[i] > 0
    requires |EventBlocks(events)| == |events| && WithoutSilent(lines) == Transcript(EventBlocks(events), gaps)
    requires forall l :: l in lines ==> PlainLine(l) && Fits(l, crlf)
    requires finalNewline || (lines != [] && lines[|lines|-1] != "")
    ensures Dispatches(ScanLines(TextOf(lines, crlf, finalNewline)), decode) == ExpectedAll(events, decode)
  {
    ScanLinesReadsText(lines, crlf, finalNewline);
    SilentLinesDoNotMatter(NOTHING, lines, decode);
    EventBlocksCalls(events, decode);
    TranscriptDispatches(EventBlocks(events), gaps, decode);
  }
}
