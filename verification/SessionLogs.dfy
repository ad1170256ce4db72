/** The node's Logs handler: the tail of a session log, then polling for what is appended. */
module SessionLogs {
  import opened Results
  import opened Text
  import opened Scanning

  datatype Frame = LogData(data: string, done: bool) | ErrorFrame

  datatype LogFile = Content(text: string) | NotExist | Unreadable

  datatype Panic = SliceOutOfRange

  /** One tick of the poll loop: what stat, open, seek and read find. `file` is the content at the
      time of the read, which returns at most `limit` bytes. */
  datatype Poll = Poll(statOK: bool, size: nat, openOK: bool, seekOK: bool, file: string, limit: nat, readErr: bool)

  /** The conversion int(*tail) of a 64-bit unsigned count. */
  function ToInt(tail: nat): int {
    if tail < 0x8000_0000_0000_0000 then tail else tail - 0x1_0000_0000_0000_0000
  }

  /** The last n of some lines, as a slice expression: a negative n starts it out of range. */
  function LastLines(lines: seq<string>, n: int): Result<seq<string>, Panic> {
    if n >= |lines| then Ok(lines)
    else if n < 0 then Err(SliceOutOfRange)
    else Ok(lines[|lines| - n..])
  }

  function Tailed(data: string, tail: Option<nat>, contentEmpty: bool): Result<string, Panic> {
    if tail.None? || contentEmpty then Ok(data)
    else match LastLines(Split(data, '\n'), ToInt(tail.value))
      case Err(e) => Err(e)
      case Ok(lines) => Ok(Join(lines, '\n'))
  }

  /** How many bytes a poll reads at this offset. */
  function ReadCount(offset: nat, p: Poll): nat {
    if p.size <= offset || |p.file| <= offset then 0
    else Min(p.limit, Min(p.size - offset, |p.file| - offset))
  }

  function Min(a: nat, b: nat): nat {
    if a < b then a else b
  }

  /** Whether a poll sends a frame. */
  predicate Sends(offset: nat, p: Poll) {
    p.statOK && p.size > offset && p.openOK && p.seekOK && !(p.readErr && ReadCount(offset, p) == 0)
  }

  function Chunk(offset: nat, p: Poll): string {
    if ReadCount(offset, p) == 0 then "" else p.file[offset..offset + ReadCount(offset, p)]
  }

  function Followed(offset: nat, polls: seq<Poll>, strip: string -> string): seq<Frame> {
    if polls == [] then []
    else
      var before, last := polls[..|polls|-1], polls[|polls|-1];
      Followed(offset, before, strip) + PollFrames(OffsetAfter(offset, before), last, strip)
  }

  /** The offset after some polls. */
  function OffsetAfter(offset: nat, polls: seq<Poll>): nat {
    if polls == [] then offset else NextOffset(OffsetAfter(offset, polls[..|polls|-1]), polls[|polls|-1])
  }

  function NextOffset(offset: nat, p: Poll): nat {
    if Sends(offset, p) then offset + ReadCount(offset, p) else offset
  }

  function PollFrames(offset: nat, p: Poll, strip: string -> string): seq<Frame> {
    if Sends(offset, p) then [LogData(strip(Chunk(offset, p)), false)] else []
  }

  /** The frames sent for a readable log. */
  function LogFrames(content: string, follow: bool, tail: Option<nat>, strip: string -> string, polls: seq<Poll>)
    : Result<seq<Frame>, Panic>
  {
    match Tailed(strip(content), tail, content == "")
    case Err(e) => Err(e)
    case Ok(data) => Ok([LogData(data, !follow)] + (if follow then Followed(|content|, polls, strip) else []))
  }

  /** The whole handler. `strip` is stripANSI when stripping is asked for and the identity otherwise;
      the k-th frame can be sent when `sends(k)`, and the first that cannot ends the handler after n polls. */
  method HandleLogs(file: LogFile, follow: bool, tail: Option<nat>, strip: string -> string, polls: seq<Poll>,
                    sends: nat -> bool)
    returns (r: Result<seq<Frame>, Panic>, ok: bool, ghost n: nat)
    ensures n <= |polls| && (ok ==> n == |polls|)
    ensures file.Unreadable? ==> r == Ok([ErrorFrame])
    ensures file.NotExist? ==> r == LogFrames("", follow, tail, strip, polls[..n])
    ensures file.Content? ==> r == LogFrames(file.text, follow, tail, strip, polls[..n])
    ensures r.Ok? ==> StopsAtFailure(|r.value|, ok, sends, 0)
  {
    n := |polls|;
    assert polls[..|polls|] == polls;
    if file.Unreadable? {
      return Ok([ErrorFrame]), sends(0), if sends(0) then n else 0;
    }
    var content := if file.Content? then file.text else "";
    var first := Tailed(strip(content), tail, content == "");
    if first.Err? {
      return Err(first.error), true, n;
    }
    var frames := [LogData(first.value, !follow)];
    assert frames + [] == frames;
    if !sends(0) || !follow {
      return Ok(frames), sends(0), if sends(0) then n else 0;
    }
    var appended;
    appended, ok, n := FollowLog(|content|, polls, strip, sends, 1);
    r := Ok(frames + appended);
  }

  lemma FollowedSnoc(start: nat, polls: seq<Poll>, i: nat, strip: string -> string)
    requires i < |polls|
    ensures var offset := OffsetAfter(start, polls[..i]);
            && Followed(start, polls[..i+1], strip)
              == Followed(start, polls[..i], strip) + PollFrames(offset, polls[i], strip)
            && OffsetAfter(start, polls[..i+1]) == NextOffset(offset, polls[i])
  {
    assert polls[..i+1][..i] == polls[..i];
  }

  /** The poll loop. */
  method FollowLog(start: nat, polls: seq<Poll>, strip: string -> string, sends: nat -> bool, from: nat)
    returns (frames: seq<Frame>, ok: bool, ghost n: nat)
    ensures n <= |polls| && (ok ==> n == |polls|)
    ensures frames == Followed(start, polls[..n], strip) && StopsAtFailure(|frames|, ok, sends, from)
  {
    var offset: nat := start;
    frames := [];
    for i := 0 to |polls|
      invariant offset == OffsetAfter(start, polls[..i]) && frames == Followed(start, polls[..i], strip)
      invariant StopsAtFailure(|frames|, true, sends, from)
    {
      FollowedSnoc(start, polls, i, strip);
      var more;
      offset, more := OnePoll(offset, polls[i], strip);
      frames, ok := Attempt(frames, more, sends, from);
      if !ok {
        return frames, false, i + 1;
      }
    }
    ok, n := true, |polls|;
  }

  /** The body of the poll loop: at most one frame, and the advance of the offset. */
  method OnePoll(start: nat, p: Poll, strip: string -> string) returns (offset: nat, sent: seq<Frame>)
    ensures offset == NextOffset(start, p) && sent == PollFrames(start, p, strip) && |sent| <= 1
  {
    offset, sent := start, [];
    if !p.statOK || p.size <= offset || !p.openOK || !p.seekOK {
      return;
    }
    var n := ReadCount(offset, p);
    if p.readErr && n == 0 {
      return;
    }
    sent := [LogData(strip(Chunk(offset, p)), false)];
    offset := offset + n;
  }

  // ---- The tail ----

  lemma JoinDropsFront(lines: seq<string>, k: nat)
    requires 0 < k < |lines|
    ensures Join(lines, '\n') == Join(lines[..k], '\n') + "\n" + Join(lines[k..], '\n')
  {
    assert lines == lines[..k] + lines[k..];
    JoinConcat(lines[..k], lines[k..], '\n');
  }

  /** For a count below 2^63 the tail is the suffix of the content that holds the last min(n, total)
      newline-separated pieces; it starts the content or follows a newline. */
  lemma TailIsSuffix(content: string, n: nat)
    requires content != "" && n < 0x8000_0000_0000_0000
    ensures var total := |Split(content, '\n')|;
            && Tailed(content, Some(n), false).Ok?
            && var t := Tailed(content, Some(n), false).value;
               && (n >= total ==> t == content)
               && (n == 0 ==> t == "")
               && (0 < n < total ==>
                     && |t| < |content| && t == content[|content| - |t|..] && content[|content| - |t| - 1] == '\n'
                     && |Split(t, '\n')| == n)
  {
    var lines := Split(content, '\n');
    JoinSplit(content, '\n');
    if 0 < n < |lines| {
      var k := |lines| - n;
      JoinDropsFront(lines, k);
      SplitPiecesHaveNoSep(content, '\n');
      SplitJoin(lines[k..], '\n');
    } else if n == 0 {
      assert lines[|lines|..] == [];
    }
  }

  /** The handler panics exactly on a count of 2^63 or more against a nonempty log. */
  lemma TailPanicsIff(data: string, tail: Option<nat>, contentEmpty: bool)
    requires tail.Some? ==> tail.value < 0x1_0000_0000_0000_0000
    ensures Tailed(data, tail, contentEmpty).Err?
            <==> tail.Some? && tail.value >= 0x8000_0000_0000_0000 && !contentEmpty
  {
  }

  // ---- Following ----

  function DataOf(frames: seq<Frame>): string {
    if frames == [] then ""
    else DataOf(frames[..|frames|-1]) + (if frames[|frames|-1].LogData? then frames[|frames|-1].data else "")
  }

  lemma {:induction false} DataOfConcat(a: seq<Frame>, b: seq<Frame>)
    ensures DataOf(a + b) == DataOf(a) + DataOf(b)
  {
    if b == [] {
      assert a + b == a;
    } else {
      DataOfConcat(a, b[..|b|-1]);
      assert (a + b)[..|a + b|-1] == a + b[..|b|-1];
    }
  }

  /** The file only grows. */
  predicate AppendOnly(content: string, polls: seq<Poll>) {
    && (forall i :: 0 <= i < |polls| ==> content <= polls[i].file)
    && (forall i, j :: 0 <= i < j < |polls| ==> polls[i].file <= polls[j].file)
  }

  /** Without stripping, the chunks sent are exactly the bytes between the offsets, whatever the reads return. */
  lemma {:induction false} FollowLosesNothing(offset: nat, whole: string, polls: seq<Poll>, strip: string -> string)
    requires forall s :: strip(s) == s
    requires forall i :: 0 <= i < |polls| ==> polls[i].file <= whole
    requires offset <= |whole|
    ensures var end := OffsetAfter(offset, polls);
            offset <= end <= |whole| && DataOf(Followed(offset, polls, strip)) == whole[offset..end]
    decreases |polls|
  {
    if polls != [] {
      var before, p := polls[..|polls|-1], polls[|polls|-1];
      FollowLosesNothing(offset, whole, before, strip);
      var now := OffsetAfter(offset, before);
      PollSendsNextBytes(now, whole, p, strip);
      DataOfConcat(Followed(offset, before, strip), PollFrames(now, p, strip));
      assert whole[offset..now] + whole[now..NextOffset(now, p)] == whole[offset..NextOffset(now, p)];
    }
  }

  lemma PollSendsNextBytes(offset: nat, whole: string, p: Poll, strip: string -> string)
    requires (forall s :: strip(s) == s) && p.file <= whole && offset <= |whole|
    ensures offset <= NextOffset(offset, p) <= |whole|
    ensures DataOf(PollFrames(offset, p, strip)) == whole[offset..NextOffset(offset, p)]
  {
    assert p.file == whole[..|p.file|];
    var frames := PollFrames(offset, p, strip);
    if Sends(offset, p) {
      assert frames[..0] == [];
      assert Chunk(offset, p) == whole[offset..NextOffset(offset, p)];
    }
  }

  lemma LastFileIsWhole(content: string, polls: seq<Poll>)
    requires AppendOnly(content, polls) && polls != []
    ensures forall i :: 0 <= i < |polls| ==> polls[i].file <= polls[|polls|-1].file
  {
  }

  /** The text is the tail of the content: all of it without a count, else the suffix that holds the
      last min(n, total) newline-separated pieces. */
  predicate IsTail(content: string, tail: Option<nat>, t: string) {
    if tail.None? || tail.value >= |Split(content, '\n')| then t == content
    else if tail.value == 0 then t == ""
    else
      && |t| < |content| && content[|content| - |t|..] == t && content[|content| - |t| - 1] == '\n'
      && |Split(t, '\n')| == tail.value
  }

  lemma TailedIsTail(content: string, tail: Option<nat>)
    requires tail.Some? ==> tail.value < 0x1_0000_0000_0000_0000
    ensures Tailed(content, tail, content == "").Ok?
            ==> IsTail(content, tail, Tailed(content, tail, content == "").value)
  {
    TailPanicsIff(content, tail, content == "");
    if tail.Some? && content != "" && tail.value < 0x8000_0000_0000_0000 {
      TailIsSuffix(content, tail.value);
    }
  }

  /** Whatever is stripped: without follow there is one frame, and it is done; with follow none is. */
  lemma {:induction false} FramesAreData(offset: nat, polls: seq<Poll>, strip: string -> string)
    ensures forall i :: 0 <= i < |Followed(offset, polls, strip)| ==>
              Followed(offset, polls, strip)[i].LogData? && !Followed(offset, polls, strip)[i].done
  {
    if polls != [] {
      FramesAreData(offset, polls[..|polls|-1], strip);
    }
  }

  lemma HandlerFrames(content: string, follow: bool, tail: Option<nat>, strip: string -> string, polls: seq<Poll>)
    requires LogFrames(content, follow, tail, strip, polls).Ok?
    ensures var frames := LogFrames(content, follow, tail, strip, polls).value;
            && frames != [] && (!follow ==> |frames| == 1)
            && forall i :: 0 <= i < |frames| ==> frames[i].LogData? && frames[i].done == !follow
  {
    FramesAreData(|content|, polls, strip);
  }

  /** The same frames, each stripped. */
  predicate StrippedEach(raw: seq<Frame>, frames: seq<Frame>, strip: string -> string) {
    && |frames| == |raw|
    && forall i :: 0 <= i < |raw| ==> raw[i].LogData? && frames[i] == LogData(strip(raw[i].data), raw[i].done)
  }

  lemma {:induction false} FollowedIsStripped(offset: nat, polls: seq<Poll>, strip: string -> string,
                                              id: string -> string)
    requires forall s :: id(s) == s
    ensures StrippedEach(Followed(offset, polls, id), Followed(offset, polls, strip), strip)
  {
    if polls != [] {
      FollowedIsStripped(offset, polls[..|polls|-1], strip, id);
    }
  }

  /** Stripping applies to each frame by itself: to the content before its tail is taken, and to every
      chunk that follows. */
  lemma HandlerStrips(content: string, follow: bool, strip: string -> string, polls: seq<Poll>, id: string -> string)
    requires forall s :: id(s) == s
    ensures LogFrames(content, follow, None, strip, polls).Ok? && LogFrames(content, follow, None, id, polls).Ok?
    ensures StrippedEach(LogFrames(content, follow, None, id, polls).value,
                         LogFrames(content, follow, None, strip, polls).value, strip)
  {
    FollowedIsStripped(|content|, polls, strip, id);
  }

  lemma FirstFrameIsTail(content: string, follow: bool, tail: Option<nat>, strip: string -> string, polls: seq<Poll>)
    requires (forall s :: strip(s) == s) && (tail.Some? ==> tail.value < 0x1_0000_0000_0000_0000)
    requires LogFrames(content, follow, tail, strip, polls).Ok?
    ensures var frames := LogFrames(content, follow, tail, strip, polls).value;
            frames != [] && frames[0].LogData? && IsTail(content, tail, frames[0].data)
  {
    TailedIsTail(content, tail);
  }

  /** Everything the handler sends for a followed log is the tail of the initial content, then what was
      appended to it up to the current offset, nothing lost and nothing repeated. */
  lemma FollowedLogIsTailPlusAppended(content: string, tail: Option<nat>, polls: seq<Poll>, strip: string -> string)
      returns (end: nat)
    requires (forall s :: strip(s) == s) && (tail.Some? ==> tail.value < 0x1_0000_0000_0000_0000)
    requires AppendOnly(content, polls) && polls != []
    requires LogFrames(content, true, tail, strip, polls).Ok?
    ensures var frames, whole := LogFrames(content, true, tail, strip, polls).value, polls[|polls|-1].file;
            && frames != [] && frames[0].LogData? && IsTail(content, tail, frames[0].data)
            && |content| <= end <= |whole|
            && DataOf(frames) == frames[0].data + whole[|content|..end]
    ensures Unhindered(polls[|polls|-1]) ==> end == |polls[|polls|-1].file|
  {
    FirstFrameIsTail(content, true, tail, strip, polls);
    LastFileIsWhole(content, polls);
    var whole := polls[|polls|-1].file;
    FollowLosesNothing(|content|, whole, polls, strip);
    end := OffsetAfter(|content|, polls);
    FirstThenRest(LogFrames(content, true, tail, strip, polls).value, Followed(|content|, polls, strip));
    if Unhindered(polls[|polls|-1]) {
      LastPollCatchesUp(|content|, whole, polls, strip);
    }
  }

  /** A poll that finds everything readable and reads as much as it asks for. */
  predicate Unhindered(p: Poll) {
    p.statOK && p.openOK && p.seekOK && p.size == |p.file| <= p.limit
  }

  lemma FirstThenRest(frames: seq<Frame>, rest: seq<Frame>)
    requires frames != [] && frames == [frames[0]] + rest && frames[0].LogData?
    ensures DataOf(frames) == frames[0].data + DataOf(rest)
  {
    DataOfConcat([frames[0]], rest);
    assert [frames[0]][..0] == [];
  }

  lemma LastPollCatchesUp(offset: nat, whole: string, polls: seq<Poll>, strip: string -> string)
    requires (forall s :: strip(s) == s) && offset <= |whole|
    requires polls != [] && Unhindered(polls[|polls|-1]) && polls[|polls|-1].file == whole
    requires forall i :: 0 <= i < |polls| ==> polls[i].file <= whole
    ensures OffsetAfter(offset, polls) == |whole|
  {
    FollowLosesNothing(offset, whole, polls[..|polls|-1], strip);
  }

  /** Once a poll is unhindered, everything has been sent: the tail of the initial content, then all
      that was appended to it. */
  lemma UnhinderedPollCompletes(content: string, tail: Option<nat>, polls: seq<Poll>, strip: string -> string)
    requires (forall s :: strip(s) == s) && (tail.Some? ==> tail.value < 0x1_0000_0000_0000_0000)
    requires AppendOnly(content, polls) && polls != [] && Unhindered(polls[|polls|-1])
    requires LogFrames(content, true, tail, strip, polls).Ok?
    ensures var frames, whole := LogFrames(content, true, tail, strip, polls).value, polls[|polls|-1].file;
            && frames != [] && frames[0].LogData? && IsTail(content, tail, frames[0].data)
            && DataOf(frames) == frames[0].data + whole[|content|..]
  {
    var end := FollowedLogIsTailPlusAppended(content, tail, polls, strip);
    var whole := polls[|polls|-1].file;
    assert whole[|content|..] == whole[|content|..|whole|];
  }

  /** A poll that fails, or finds nothing new, sends nothing and stays where it is. */
  lemma HinderedPollSendsNothing(offset: nat, p: Poll, strip: string -> string)
    requires !p.statOK || p.size <= offset || !p.openOK || !p.seekOK
             || (p.readErr && (p.limit == 0 || |p.file| <= offset))
    ensures Followed(offset, [p], strip) == [] && OffsetAfter(offset, [p]) == offset
  {
    assert [p][..0] == [];
  }
}
