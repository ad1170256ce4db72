/** The node's Wait handler against sessions that change status and then publish: subscribe, check,
    block for an event, check again. Every interleaving of the handler's steps with launches, kills,
    exits and publications is a run. */
module SessionWait {
  import opened Results
  import opened Text

  type SessionID = nat

  datatype Status = Running | Completed(exitCode: string) | Killed

  /** The status text; the exit code is given in decimal. */
  function StatusText(s: Status): string {
    match s
    case Running => "running"
    case Completed(code) => "completed (" + code + ")"
    case Killed => "killed"
  }

  /** The handler's own test of a status text. */
  predicate SaysDone(text: string) {
    Contains(text, "completed") || Contains(text, "killed")
  }

  predicate Done(s: Status) {
    s != Running
  }

  /** The text test recognises exactly the sessions that are no longer running. */
  lemma SaysDoneIff(s: Status)
    ensures SaysDone(StatusText(s)) <==> Done(s)
  {
    var text := StatusText(s);
    match s
    case Running =>
      assert text[0..6][0] == 'r' && text[1..7][0] == 'u' && "killed"[0] == 'k';
    case Completed(code) =>
      assert text[0..9] == "completed";
      assert OccursAt(text, "completed", 0);
    case Killed =>
      assert text[0..6] == "killed";
      assert OccursAt(text, "killed", 0);
  }

  /** exited: the exit goroutine has recorded the exit; published: it has also published the event. */
  datatype Session = Session(tags: seq<string>, status: Status, exited: bool, published: bool)

  type Table = map<SessionID, Session>

  datatype Info = Info(id: SessionID, status: Status)

  datatype Request = Request(id: Option<SessionID>, tags: seq<string>, condition: string)
  {
    function Condition(): string {
      if condition == "" then "all" else condition
    }
  }

  const QUEUE_CAPACITY := 256

  predicate MatchesTags(sessionTags: seq<string>, filterTags: seq<string>) {
    exists t :: t in filterTags && t in sessionTags
  }

  /** Which publications the handler's subscription receives: both filters must pass. */
  predicate Subscribed(req: Request, id: SessionID, tags: seq<string>) {
    && (req.id.Some? ==> req.id.value == id)
    && (req.tags != [] ==> MatchesTags(tags, req.tags))
  }

  function MatchingIDs(req: Request, table: Table): set<SessionID> {
    set id | id in table && MatchesTags(table[id].tags, req.tags)
  }

  predicate DoneAt(infos: seq<Info>, i: nat)
    requires i < |infos|
  {
    Done(infos[i].status)
  }

  /** The all/any condition on a list of sessions. */
  predicate Met(condition: string, infos: seq<Info>) {
    || (condition == "all" && infos != [] && forall i :: 0 <= i < |infos| ==> DoneAt(infos, i))
    || (condition == "any" && exists i :: 0 <= i < |infos| && DoneAt(infos, i))
  }

  /** The loop over the listed sessions. */
  method SurveyDone(matching: seq<Info>) returns (allDone: bool, anyDone: bool)
    ensures allDone <==> forall i :: 0 <= i < |matching| ==> DoneAt(matching, i)
    ensures anyDone <==> exists i :: 0 <= i < |matching| && DoneAt(matching, i)
  {
    allDone, anyDone := true, false;
    for i := 0 to |matching|
      invariant allDone <==> forall j :: 0 <= j < i ==> DoneAt(matching, j)
      invariant anyDone <==> exists j :: 0 <= j < i && DoneAt(matching, j)
    {
      var text := StatusText(matching[i].status);
      SaysDoneIff(matching[i].status);
      assert SaysDone(text) <==> DoneAt(matching, i);
      if SaysDone(text) {
        anyDone := true;
      } else {
        allDone := false;
      }
    }
  }

  method ConditionMet(condition: string, matching: seq<Info>) returns (met: bool)
    ensures met <==> Met(condition, matching)
  {
    var allDone, anyDone := SurveyDone(matching);
    met := (condition == "all" && allDone && |matching| > 0) || (condition == "any" && anyDone);
  }

  /** What is waited for, as a statement about the session table. */
  predicate Holds(req: Request, table: Table) {
    || (req.id.Some? && req.id.value in table && Done(table[req.id.value].status))
    || (req.tags != [] && req.Condition() == "all" && MatchingIDs(req, table) != {}
        && forall id :: id in MatchingIDs(req, table) ==> Done(table[id].status))
    || (req.tags != [] && req.Condition() == "any"
        && exists id :: id in MatchingIDs(req, table) && Done(table[id].status))
  }

  /** Which sessions match the request's tags, and when its condition holds, said of the request's own
      fields: an absent condition is "all". */
  lemma HoldsMeans(req: Request, table: Table)
    ensures forall id :: id in MatchingIDs(req, table)
              <==> id in table && exists t :: t in req.tags && t in table[id].tags
    ensures Holds(req, table) <==>
            || (req.id.Some? && req.id.value in table && table[req.id.value].status != Running)
            || (req.tags != [] && (req.condition == "all" || req.condition == "")
                && (exists id :: id in MatchingIDs(req, table))
                && forall id :: id in MatchingIDs(req, table) ==> table[id].status != Running)
            || (req.tags != [] && req.condition == "any"
                && exists id :: id in MatchingIDs(req, table) && table[id].status != Running)
  {
  }

  datatype Handler =
    | Starting
    | Checking
    | Listing
    | Scanning(todo: set<SessionID>, seen: seq<Info>)
    | Blocked(last: seq<Info>)
    | Replied(sessions: seq<Info>)
    | TimedOut

  datatype State = State(table: Table, queue: nat, handler: Handler)

  /** One atomic step. The scan of a listing reads the sessions one by one, in any order, while the
      table lock keeps launches out; statuses may change under it. */
  datatype Act =
    | Launch(id: SessionID, tags: seq<string>)
    | Kill(id: SessionID)
    | Exit(id: SessionID, exitCode: string)
    | Publish(id: SessionID)
    | Subscribe
    | CheckID
    | BeginScan
    | ScanOne(id: SessionID)
    | FinishScan
    | Receive
    | Timeout

  predicate Enabled(req: Request, s: State, a: Act) {
    match a
    case Launch(id, _) => id !in s.table && !s.handler.Scanning?
    case Kill(id) => id in s.table
    case Exit(id, _) => id in s.table && !s.table[id].exited
    case Publish(id) => id in s.table && s.table[id].exited && !s.table[id].published
    case Subscribe => s.handler.Starting?
    case CheckID => s.handler.Checking?
    case BeginScan => s.handler.Listing?
    case ScanOne(id) => s.handler.Scanning? && id in s.handler.todo && id in s.table
    case FinishScan => s.handler.Scanning? && s.handler.todo == {}
    case Receive => s.handler.Blocked? && s.queue > 0
    case Timeout => s.handler.Blocked?
  }

  /** The subscription exists from Subscribe until the handler returns. */
  predicate Listening(h: Handler) {
    !h.Starting? && !h.Replied? && !h.TimedOut?
  }

  function Apply(req: Request, s: State, a: Act): State
    requires Enabled(req, s, a)
  {
    match a
    case Launch(id, tags) => s.(table := s.table[id := Session(tags, Running, false, false)])
    case Kill(id) => s.(table := s.table[id := s.table[id].(status := Killed)])
    case Exit(id, code) => s.(table := s.table[id := s.table[id].(status := Completed(code), exited := true)])
    case Publish(id) =>
      var delivered := Listening(s.handler) && Subscribed(req, id, s.table[id].tags) && s.queue < QUEUE_CAPACITY;
      s.(table := s.table[id := s.table[id].(published := true)], queue := if delivered then s.queue + 1 else s.queue)
    case Subscribe => s.(queue := 0, handler := Checking)
    case CheckID =>
      if req.id.Some? && req.id.value in s.table && Done(s.table[req.id.value].status) then
        s.(handler := Replied([Info(req.id.value, s.table[req.id.value].status)]))
      else s.(handler := if req.tags != [] then Listing else Blocked([]))
    case BeginScan => s.(handler := Scanning(MatchingIDs(req, s.table), []))
    case ScanOne(id) =>
      s.(handler := Scanning(s.handler.todo - {id}, s.handler.seen + [Info(id, s.table[id].status)]))
    case FinishScan =>
      s.(handler := if Met(req.Condition(), s.handler.seen) then Replied(s.handler.seen) else Blocked(s.handler.seen))
    case Receive => s.(queue := s.queue - 1, handler := Checking)
    case Timeout => s.(handler := TimedOut)
  }

  predicate Legal(req: Request, s: State, acts: seq<Act>)
    decreases |acts|
  {
    acts == [] || (Enabled(req, s, acts[0]) && Legal(req, Apply(req, s, acts[0]), acts[1..]))
  }

  function RunOf(req: Request, s: State, acts: seq<Act>): State
    requires Legal(req, s, acts)
    decreases |acts|
  {
    if acts == [] then s else RunOf(req, Apply(req, s, acts[0]), acts[1..])
  }

  predicate Init(s: State) {
    && s.handler.Starting? && s.queue == 0
    && forall id :: id in s.table ==> Orderly(s.table[id])
  }

  /** A session's exit is recorded before it is published, and an exited session is done. */
  predicate Orderly(x: Session) {
    (x.published ==> x.exited) && (x.exited ==> x.status != Running)
  }

  // ---- The invariant ----

  /** The sessions the request is about: those its subscription receives, when it names any. */
  predicate Awaited(req: Request, id: SessionID, tags: seq<string>) {
    (req.id.Some? || req.tags != []) && Subscribed(req, id, tags)
  }

  /** The done session still has its publication ahead of it, or an event is waiting. */
  predicate WillWake(s: State, id: SessionID)
    requires id in s.table
  {
    !s.table[id].published || s.queue > 0
  }

  predicate SeenIsSound(req: Request, s: State, seen: seq<Info>) {
    forall i :: 0 <= i < |seen| ==>
      && seen[i].id in s.table && MatchesTags(s.table[seen[i].id].tags, req.tags)
      && (seen[i].status != Running ==> s.table[seen[i].id].status != Running)
      && (seen[i].status == Running && s.table[seen[i].id].status != Running ==> WillWake(s, seen[i].id))
  }

  predicate SeenID(seen: seq<Info>, id: SessionID) {
    exists i :: 0 <= i < |seen| && seen[i].id == id
  }

  predicate HandlerInv(req: Request, s: State) {
    match s.handler
    case Starting => true
    case Checking => true
    case Listing => req.tags != []
    case Scanning(todo, seen) =>
      && req.tags != [] && todo <= MatchingIDs(req, s.table) && SeenIsSound(req, s, seen)
      && forall id :: id in MatchingIDs(req, s.table) ==> id in todo || SeenID(seen, id)
    case Blocked(last) =>
      && (req.tags != [] ==> SeenIsSound(req, s, last) && !Met(req.Condition(), last))
      && forall id :: id in s.table && Awaited(req, id, s.table[id].tags) && Done(s.table[id].status)
           ==> WillWake(s, id) || (req.tags != [] && SeenID(last, id))
    case Replied(sessions) => true
    case TimedOut => true
  }

  predicate Inv(req: Request, s: State) {
    (forall id :: id in s.table ==> Orderly(s.table[id])) && HandlerInv(req, s)
  }

  /** Not both an id and tags: then the subscription receives every session the condition looks at. */
  predicate OneFilter(req: Request) {
    req.id.None? || req.tags == []
  }

  predicate IsEnvironment(a: Act) {
    a.Launch? || a.Kill? || a.Exit? || a.Publish?
  }

  /** What the environment never undoes: tags stay, done stays done, events stay queued, and a
      publication that the subscription receives leaves the queue nonempty. */
  lemma EnvironmentStep(req: Request, s: State, a: Act, id: SessionID)
    requires Inv(req, s) && Enabled(req, s, a) && IsEnvironment(a) && id in s.table
    ensures var t := Apply(req, s, a);
            && id in t.table && t.table[id].tags == s.table[id].tags && t.queue >= s.queue && Orderly(t.table[id])
            && (s.table[id].status != Running ==> t.table[id].status != Running)
            && (s.table[id].status == Running && t.table[id].status != Running ==> WillWake(t, id))
            && (Listening(s.handler) && Subscribed(req, id, s.table[id].tags) && WillWake(s, id) ==> WillWake(t, id))
  {
  }

  lemma EnvironmentKeepsInv(req: Request, s: State, a: Act)
    requires Inv(req, s) && Enabled(req, s, a) && OneFilter(req) && IsEnvironment(a)
    ensures Inv(req, Apply(req, s, a))
  {
    var t := Apply(req, s, a);
    if s.handler.Scanning? {
      EnvironmentKeepsSound(req, s, a, s.handler.seen);
      assert MatchingIDs(req, t.table) == MatchingIDs(req, s.table);
    } else if s.handler.Blocked? {
      if req.tags != [] {
        EnvironmentKeepsSound(req, s, a, s.handler.last);
      }
      forall id | id in t.table && Awaited(req, id, t.table[id].tags) && Done(t.table[id].status)
        ensures WillWake(t, id) || (req.tags != [] && SeenID(s.handler.last, id))
      {
        if id in s.table {
          EnvironmentStep(req, s, a, id);
        }
      }
    }
  }

  lemma EnvironmentKeepsSound(req: Request, s: State, a: Act, seen: seq<Info>)
    requires Inv(req, s) && Enabled(req, s, a) && OneFilter(req) && IsEnvironment(a)
    requires Listening(s.handler) && req.tags != [] && SeenIsSound(req, s, seen)
    ensures SeenIsSound(req, Apply(req, s, a), seen)
  {
    forall i | 0 <= i < |seen|
      ensures var t := Apply(req, s, a);
              && seen[i].id in t.table && MatchesTags(t.table[seen[i].id].tags, req.tags)
              && (seen[i].status != Running ==> t.table[seen[i].id].status != Running)
              && (seen[i].status == Running && t.table[seen[i].id].status != Running ==> WillWake(t, seen[i].id))
    {
      EnvironmentStep(req, s, a, seen[i].id);
    }
  }

  lemma HandlerKeepsInv(req: Request, s: State, a: Act)
    requires Inv(req, s) && Enabled(req, s, a) && OneFilter(req)
    requires !IsEnvironment(a)
    ensures Inv(req, Apply(req, s, a))
  {
    var t := Apply(req, s, a);
    match a
    case ScanOne(id) =>
      var seen, seen' := s.handler.seen, t.handler.seen;
      assert forall i :: 0 <= i < |seen| ==> seen'[i] == seen[i];
      assert seen'[|seen|].id == id;
    case FinishScan =>
      assert forall id :: id in s.table && MatchesTags(s.table[id].tags, req.tags) ==> id in MatchingIDs(req, s.table);
    case _ =>
  }

  lemma {:induction false} RunKeepsInv(req: Request, s: State, acts: seq<Act>)
    requires OneFilter(req) && Inv(req, s) && Legal(req, s, acts)
    ensures Inv(req, RunOf(req, s, acts))
    decreases |acts|
  {
    if acts != [] {
      if IsEnvironment(acts[0]) {
        EnvironmentKeepsInv(req, s, acts[0]);
      } else {
        HandlerKeepsInv(req, s, acts[0]);
      }
      RunKeepsInv(req, Apply(req, s, acts[0]), acts[1..]);
    }
  }

  // ---- No lost wakeup ----

  /** A done session that the request is about and whose publication is still to come. */
  predicate PublishOutstanding(req: Request, s: State, id: SessionID) {
    id in s.table && Awaited(req, id, s.table[id].tags) && Done(s.table[id].status) && !s.table[id].published
  }

  /** When the handler last blocked, what it had seen did not meet the condition; so a condition that
      now holds rests on a session it has not seen done. */
  lemma UnseenDoneSession(req: Request, s: State) returns (id: SessionID)
    requires Inv(req, s) && OneFilter(req) && s.handler.Blocked? && Holds(req, s.table)
    ensures id in s.table && Awaited(req, id, s.table[id].tags) && Done(s.table[id].status) && WillWake(s, id)
  {
    var last := s.handler.last;
    if req.id.Some? {
      id := req.id.value;
    } else if req.Condition() == "all" {
      if last == [] {
        id :| id in MatchingIDs(req, s.table);
      } else {
        var i :| 0 <= i < |last| && !DoneAt(last, i);
        id := last[i].id;
        assert id in MatchingIDs(req, s.table);
      }
    } else {
      id :| id in MatchingIDs(req, s.table) && Done(s.table[id].status);
      if SeenID(last, id) {
        var i :| 0 <= i < |last| && last[i].id == id;
        assert !DoneAt(last, i);
      }
    }
  }

  /** No lost wakeup: over every interleaving, a handler that is blocked with nothing queued although
      its condition holds still has a publication coming for a done session it waits for. */
  lemma NoLostWakeup(req: Request, s: State, acts: seq<Act>)
    requires OneFilter(req) && Init(s) && Legal(req, s, acts)
    ensures var t := RunOf(req, s, acts);
            t.handler.Blocked? && t.queue == 0 && Holds(req, t.table) ==> exists id :: PublishOutstanding(req, t, id)
  {
    RunKeepsInv(req, s, acts);
    var t := RunOf(req, s, acts);
    if t.handler.Blocked? && t.queue == 0 && Holds(req, t.table) {
      var id := UnseenDoneSession(req, t);
      assert PublishOutstanding(req, t, id);
    }
  }

  // ---- What a WaitResult lists ----

  function IDsOf(infos: seq<Info>): set<SessionID> {
    set i | 0 <= i < |infos| :: infos[i].id
  }

  /** A reply comes only while the condition holds; it lists the one session asked for, or all
      sessions that match the tags, and what it lists as done is done. */
  lemma ReplyIsRight(req: Request, s: State, acts: seq<Act>, a: Act)
    requires OneFilter(req) && Init(s) && Legal(req, s, acts) && Enabled(req, RunOf(req, s, acts), a)
    requires !RunOf(req, s, acts).handler.Replied?
    ensures var t := Apply(req, RunOf(req, s, acts), a);
            t.handler.Replied? ==>
              && Holds(req, t.table)
              && IDsOf(t.handler.sessions) == (if req.id.Some? then {req.id.value} else MatchingIDs(req, t.table))
              && forall i :: 0 <= i < |t.handler.sessions| && DoneAt(t.handler.sessions, i) ==>
                   t.handler.sessions[i].id in t.table && Done(t.table[t.handler.sessions[i].id].status)
  {
    RunKeepsInv(req, s, acts);
    var r := RunOf(req, s, acts);
    if a.CheckID? && req.id.Some? {
      var t := Apply(req, r, a);
      if t.handler.Replied? {
        assert t.handler.sessions[0].id in IDsOf(t.handler.sessions);
      }
    }
    if a.FinishScan? && Apply(req, r, a).handler.Replied? {
      var seen := r.handler.seen;
      forall id | id in MatchingIDs(req, r.table) ensures id in IDsOf(seen) {
        var i :| 0 <= i < |seen| && seen[i].id == id;
      }
      assert IDsOf(seen) == MatchingIDs(req, r.table);
      ScanMeetsCondition(req, r);
    }
  }

  lemma ScanMeetsCondition(req: Request, s: State)
    requires Inv(req, s) && s.handler.Scanning? && s.handler.todo == {}
    requires IDsOf(s.handler.seen) == MatchingIDs(req, s.table) && Met(req.Condition(), s.handler.seen)
    ensures Holds(req, s.table)
  {
    var seen := s.handler.seen;
    if req.Condition() == "all" {
      assert seen[0].id in MatchingIDs(req, s.table);
      forall id | id in MatchingIDs(req, s.table) ensures Done(s.table[id].status) {
        var i :| 0 <= i < |seen| && seen[i].id == id;
        assert DoneAt(seen, i);
      }
    } else {
      var i :| 0 <= i < |seen| && DoneAt(seen, i);
      assert seen[i].id in MatchingIDs(req, s.table);
    }
  }

  // ---- A check that can succeed does ----

  lemma Prepend(req: Request, s: State, a: Act, rest: seq<Act>)
    requires Enabled(req, s, a) && Legal(req, Apply(req, s, a), rest)
    ensures Legal(req, s, [a] + rest) && RunOf(req, s, [a] + rest) == RunOf(req, Apply(req, s, a), rest)
  {
    assert ([a] + rest)[1..] == rest;
  }

  /** A step of the handler itself, other than giving up. */
  predicate IsWork(a: Act) {
    !IsEnvironment(a) && !a.Timeout?
  }

  /** The scan so far is an exact copy of the table. */
  predicate ScanIsExact(req: Request, s: State)
    requires s.handler.Scanning?
  {
    && s.handler.todo <= MatchingIDs(req, s.table)
    && (forall i :: 0 <= i < |s.handler.seen| ==>
          s.handler.seen[i].id in MatchingIDs(req, s.table)
          && s.handler.seen[i].status == s.table[s.handler.seen[i].id].status)
    && forall id :: id in MatchingIDs(req, s.table) ==> id in s.handler.todo || SeenID(s.handler.seen, id)
  }

  /** The condition holds, and the handler has been woken or is on its way from there to a reply. */
  predicate OnTheWay(req: Request, s: State) {
    && OneFilter(req) && Holds(req, s.table)
    && match s.handler
       case Blocked(_) => s.queue > 0
       case Checking => true
       case Listing => req.id.None?
       case Scanning(_, _) => req.id.None? && ScanIsExact(req, s)
       case Replied(_) => true
       case _ => false
  }

  /** How many steps are left at most. */
  function StepsLeft(req: Request, s: State): nat {
    match s.handler
    case Blocked(_) => |MatchingIDs(req, s.table)| + 4
    case Checking => |MatchingIDs(req, s.table)| + 3
    case Listing => |MatchingIDs(req, s.table)| + 2
    case Scanning(todo, _) => |todo| + 1
    case _ => 0
  }

  lemma WorkStaysOnTheWay(req: Request, s: State, a: Act)
    requires OnTheWay(req, s) && Enabled(req, s, a) && IsWork(a)
    ensures OnTheWay(req, Apply(req, s, a)) && StepsLeft(req, Apply(req, s, a)) < StepsLeft(req, s)
  {
    match a
    case ScanOne(id) =>
      var seen, seen' := s.handler.seen, Apply(req, s, a).handler.seen;
      assert forall i :: 0 <= i < |seen| ==> seen'[i] == seen[i];
      assert seen'[|seen|].id == id;
    case FinishScan => ExactScanMeets(req, s);
    case _ =>
  }

  lemma ExactScanMeets(req: Request, s: State)
    requires req.id.None? && Holds(req, s.table) && s.handler.Scanning? && ScanIsExact(req, s) && s.handler.todo == {}
    ensures Met(req.Condition(), s.handler.seen)
  {
    var seen := s.handler.seen;
    if req.Condition() == "all" {
      var id :| id in MatchingIDs(req, s.table);
      assert SeenID(seen, id);
      assert forall i :: 0 <= i < |seen| ==> seen[i].id in MatchingIDs(req, s.table);
    } else {
      var id :| id in MatchingIDs(req, s.table) && Done(s.table[id].status);
      var i :| 0 <= i < |seen| && seen[i].id == id;
      assert DoneAt(seen, i);
    }
  }

  /** On the way, some step of the handler is possible until it has replied. */
  lemma WorkIsPossible(req: Request, s: State)
    requires OnTheWay(req, s)
    ensures s.handler.Replied? <==> forall a :: IsWork(a) ==> !Enabled(req, s, a)
  {
    match s.handler
    case Blocked(_) => assert Enabled(req, s, Receive);
    case Checking => assert Enabled(req, s, CheckID);
    case Listing => assert Enabled(req, s, BeginScan);
    case Scanning(todo, _) =>
      if todo == {} {
        assert Enabled(req, s, FinishScan);
      } else {
        var id :| id in todo;
        assert Enabled(req, s, ScanOne(id));
      }
    case _ =>
  }

  /** Once a waiting event wakes the handler while the condition holds, whatever order it reads the
      sessions in, it replies: on an unchanged table its steps are bounded in number, and they can
      be continued exactly until it has replied. */
  lemma {:induction false} WakeupLeadsToReply(req: Request, s: State, acts: seq<Act>)
    requires OnTheWay(req, s) && Legal(req, s, acts) && forall i :: 0 <= i < |acts| ==> IsWork(acts[i])
    ensures |acts| <= StepsLeft(req, s)
    ensures var t := RunOf(req, s, acts);
            t.handler.Replied? <==> forall a :: IsWork(a) ==> !Enabled(req, t, a)
    decreases |acts|
  {
    if acts == [] {
      WorkIsPossible(req, s);
    } else {
      WorkStaysOnTheWay(req, s, acts[0]);
      WakeupLeadsToReply(req, Apply(req, s, acts[0]), acts[1..]);
    }
  }

  // ---- Stalls: kills that nothing announces ----

  /** A session that the subscription receives has exited, and publishing it is the next thing its exit
      goroutine does. */
  predicate PublishInFlight(req: Request, s: State, id: SessionID) {
    id in s.table && Subscribed(req, id, s.table[id].tags) && s.table[id].exited && !s.table[id].published
  }

  /** Blocked with the condition true, nothing queued and no publication in flight. */
  predicate Stalled(req: Request, s: State) {
    && s.handler.Blocked? && s.queue == 0 && Holds(req, s.table)
    && forall id :: id in s.table ==> !PublishInFlight(req, s, id)
  }

  /** Sessions are completed by exiting. */
  predicate CompletedHaveExited(table: Table) {
    forall id :: id in table && table[id].status.Completed? ==> table[id].exited
  }

  predicate KilledHaveExited(table: Table) {
    forall id :: id in table && table[id].status == Killed ==> table[id].exited
  }

  lemma {:induction false} RunKeepsExits(req: Request, s: State, acts: seq<Act>)
    requires Legal(req, s, acts) && CompletedHaveExited(s.table)
    ensures CompletedHaveExited(RunOf(req, s, acts).table)
    ensures KilledHaveExited(s.table) && (forall i :: 0 <= i < |acts| ==> !acts[i].Kill?)
            ==> KilledHaveExited(RunOf(req, s, acts).table)
    decreases |acts|
  {
    if acts != [] {
      RunKeepsExits(req, Apply(req, s, acts[0]), acts[1..]);
    }
  }

  predicate KilledNotExited(req: Request, s: State, id: SessionID) {
    id in s.table && Awaited(req, id, s.table[id].tags) && s.table[id].status == Killed && !s.table[id].exited
  }

  /** A run stalls only through a killed session that has not exited. */
  lemma StallIsByKill(req: Request, s: State, acts: seq<Act>)
    requires OneFilter(req) && Init(s) && CompletedHaveExited(s.table) && Legal(req, s, acts)
    requires Stalled(req, RunOf(req, s, acts))
    ensures exists id :: KilledNotExited(req, RunOf(req, s, acts), id)
  {
    var t := RunOf(req, s, acts);
    NoLostWakeup(req, s, acts);
    RunKeepsExits(req, s, acts);
    var id :| PublishOutstanding(req, t, id);
    assert !PublishInFlight(req, t, id);
    assert KilledNotExited(req, t, id);
  }

  /** Without kills, and with none still under way at the start, no run stalls: a handler blocked on a
      true condition with an empty queue has a publication in flight. */
  lemma NoKillNoStall(req: Request, s: State, acts: seq<Act>)
    requires OneFilter(req) && Init(s) && Legal(req, s, acts)
    requires CompletedHaveExited(s.table) && KilledHaveExited(s.table)
    requires forall i :: 0 <= i < |acts| ==> !acts[i].Kill?
    ensures !Stalled(req, RunOf(req, s, acts))
  {
    if Stalled(req, RunOf(req, s, acts)) {
      StallIsByKill(req, s, acts);
      RunKeepsExits(req, s, acts);
    }
  }

  lemma {:induction false} RunOfConcat(req: Request, s: State, a: seq<Act>, b: seq<Act>)
    requires Legal(req, s, a) && Legal(req, RunOf(req, s, a), b)
    ensures Legal(req, s, a + b) && RunOf(req, s, a + b) == RunOf(req, RunOf(req, s, a), b)
    decreases |a|
  {
    if a == [] {
      assert a + b == b;
    } else {
      RunOfConcat(req, Apply(req, s, a[0]), a[1..], b);
      assert (a + b)[1..] == a[1..] + b;
    }
  }

  /** A table of one running session. */
  function Alone(id: SessionID, tags: seq<string>): Table {
    map[id := Session(tags, Running, false, false)]
  }

  lemma ScanAlone(req: Request, id: SessionID, tags: seq<string>, s: State) returns (acts: seq<Act>)
    requires s == State(Alone(id, tags), 0, Listing)
    ensures Legal(req, s, acts) && RunOf(req, s, acts).handler.Blocked?
    ensures RunOf(req, s, acts).queue == 0 && RunOf(req, s, acts).table == s.table
  {
    var s1 := Apply(req, s, BeginScan);
    var s2 := s1;
    acts := [];
    if MatchesTags(tags, req.tags) {
      assert s1.handler.todo == {id};
      s2 := Apply(req, s1, ScanOne(id));
      assert s2.handler.seen == [Info(id, Running)] && !DoneAt(s2.handler.seen, 0);
    } else {
      assert s1.handler.todo == {};
    }
    assert !Met(req.Condition(), s2.handler.seen);
    Prepend(req, s2, FinishScan, []);
    acts := [FinishScan] + [];
    if s2 != s1 {
      Prepend(req, s1, ScanOne(id), acts);
      acts := [ScanOne(id)] + acts;
    }
    Prepend(req, s, BeginScan, acts);
    acts := [BeginScan] + acts;
  }

  /** Whatever the request, a handler that finds one running session blocks. */
  lemma BlocksOnRunning(req: Request, id: SessionID, tags: seq<string>) returns (s: State, acts: seq<Act>)
    ensures s == State(Alone(id, tags), 0, Starting) && Init(s) && CompletedHaveExited(s.table) && Legal(req, s, acts)
    ensures RunOf(req, s, acts).handler.Blocked?
    ensures RunOf(req, s, acts).queue == 0 && RunOf(req, s, acts).table == s.table
  {
    s := State(Alone(id, tags), 0, Starting);
    var s1 := Apply(req, s, Subscribe);
    var s2 := Apply(req, s1, CheckID);
    acts := [];
    if req.tags != [] {
      acts := ScanAlone(req, id, tags, s2);
    }
    Prepend(req, s1, CheckID, acts);
    acts := [CheckID] + acts;
    Prepend(req, s, Subscribe, acts);
    acts := [Subscribe] + acts;
  }

  ghost predicate CanStall(req: Request) {
    exists s, acts ::
      Init(s) && CompletedHaveExited(s.table) && Legal(req, s, acts) && Stalled(req, RunOf(req, s, acts))
  }

  /** Every request whose condition can hold at all can stall: with an id, or with tags and a condition
      that is all or any. */
  lemma CanStallIff(req: Request)
    ensures CanStall(req)
            <==> req.id.Some? || (req.tags != [] && (req.Condition() == "all" || req.Condition() == "any"))
  {
    if req.id.Some? || (req.tags != [] && (req.Condition() == "all" || req.Condition() == "any")) {
      var id := if req.id.Some? then req.id.value else 0;
      var s, acts := BlocksOnRunning(req, id, req.tags);
      var t := RunOf(req, s, acts);
      KillAloneStalls(req, id, t);
      RunOfConcat(req, s, acts, [Kill(id)]);
      assert Stalled(req, RunOf(req, s, acts + [Kill(id)]));
    }
  }

  lemma KillAloneStalls(req: Request, id: SessionID, t: State)
    requires t.table == Alone(id, req.tags) && t.handler.Blocked? && t.queue == 0
    requires req.id == Some(id)
             || (req.id.None? && req.tags != [] && (req.Condition() == "all" || req.Condition() == "any"))
    ensures Legal(req, t, [Kill(id)]) && Stalled(req, RunOf(req, t, [Kill(id)]))
  {
    Prepend(req, t, Kill(id), []);
    assert [Kill(id)] == [Kill(id)] + [];
    var u := Apply(req, t, Kill(id));
    assert u.table == map[id := Session(req.tags, Killed, false, false)];
    if req.id.None? {
      assert req.tags[0] in req.tags;
      assert MatchesTags(req.tags, req.tags);
      assert id in MatchingIDs(req, u.table);
    }
  }

  /** No step is the exit of a session that the subscription receives, or the timeout. */
  predicate NoExitHeard(req: Request, s: State, acts: seq<Act>)
    requires Legal(req, s, acts)
    decreases |acts|
  {
    acts == []
    || (!(acts[0].Exit? && Subscribed(req, acts[0].id, s.table[acts[0].id].tags)) && !acts[0].Timeout?
        && NoExitHeard(req, Apply(req, s, acts[0]), acts[1..]))
  }

  /** With nothing queued and no publication in flight, a blocked handler stays blocked until a session
      that its subscription receives exits, or the time runs out. */
  lemma {:induction false} BlockedUntilAnExit(req: Request, s: State, acts: seq<Act>)
    requires s.handler.Blocked? && s.queue == 0 && forall id :: id in s.table ==> !PublishInFlight(req, s, id)
    requires Legal(req, s, acts) && NoExitHeard(req, s, acts)
    ensures var t := RunOf(req, s, acts);
            && t.handler == s.handler && t.queue == 0 && forall id :: id in t.table ==> !PublishInFlight(req, t, id)
    decreases |acts|
  {
    if acts != [] {
      OtherStepLeavesBlocked(req, s, acts[0]);
      BlockedUntilAnExit(req, Apply(req, s, acts[0]), acts[1..]);
    }
  }

  lemma OtherStepLeavesBlocked(req: Request, s: State, a: Act)
    requires s.handler.Blocked? && s.queue == 0 && forall id :: id in s.table ==> !PublishInFlight(req, s, id)
    requires Enabled(req, s, a) && !a.Timeout? && (a.Exit? ==> !Subscribed(req, a.id, s.table[a.id].tags))
    ensures var t := Apply(req, s, a);
            && t.handler == s.handler && t.queue == 0 && forall id :: id in t.table ==> !PublishInFlight(req, t, id)
  {
    var t := Apply(req, s, a);
    forall id | id in t.table ensures !PublishInFlight(req, t, id) {
      assert id in s.table ==> !PublishInFlight(req, s, id);
    }
    if a.Publish? {
      assert !PublishInFlight(req, s, a.id);
    }
  }

  /** A handler that waits for one session, nothing queued, stays blocked until that session has exited,
      whatever else happens short of the timeout. */
  lemma BlockedUntilItsExit(req: Request, s: State, acts: seq<Act>, id: SessionID)
    requires req.id == Some(id) && s.handler.Blocked? && s.queue == 0 && Legal(req, s, acts)
    requires id in s.table ==> !s.table[id].exited
    requires forall i :: 0 <= i < |acts| ==> !acts[i].Timeout? && !(acts[i].Exit? && acts[i].id == id)
    ensures RunOf(req, s, acts).handler == s.handler && RunOf(req, s, acts).queue == 0
  {
    OtherExits(req, s, acts, id);
    BlockedUntilAnExit(req, s, acts);
  }

  lemma {:induction false} OtherExits(req: Request, s: State, acts: seq<Act>, id: SessionID)
    requires req.id == Some(id) && Legal(req, s, acts)
    requires forall i :: 0 <= i < |acts| ==> !acts[i].Timeout? && !(acts[i].Exit? && acts[i].id == id)
    ensures NoExitHeard(req, s, acts)
    decreases |acts|
  {
    if acts != [] {
      OtherExits(req, Apply(req, s, acts[0]), acts[1..], id);
    }
  }

  /** The exit of an awaited session, once published, ends a stall: the handler is on its way to a reply. */
  lemma ExitEndsStall(req: Request, s: State, id: SessionID, exitCode: string)
    requires OneFilter(req) && Stalled(req, s) && id in s.table && Awaited(req, id, s.table[id].tags)
    requires !s.table[id].exited && !s.table[id].published
    ensures Legal(req, s, [Exit(id, exitCode), Publish(id)])
    ensures OnTheWay(req, RunOf(req, s, [Exit(id, exitCode), Publish(id)]))
  {
    var s1 := Apply(req, s, Exit(id, exitCode));
    var s2 := Apply(req, s1, Publish(id));
    Prepend(req, s1, Publish(id), []);
    Prepend(req, s, Exit(id, exitCode), [Publish(id)] + []);
    assert [Exit(id, exitCode), Publish(id)] == [Exit(id, exitCode)] + ([Publish(id)] + []);
    DoneKeepsHolds(req, s.table, s2.table);
  }

  lemma DoneKeepsHolds(req: Request, before: Table, after: Table)
    requires before.Keys == after.Keys && Holds(req, before)
    requires forall id :: id in before ==>
               after[id].tags == before[id].tags && (Done(before[id].status) ==> Done(after[id].status))
    ensures Holds(req, after)
  {
    assert MatchingIDs(req, before) == MatchingIDs(req, after);
    var byID := req.id.Some? && req.id.value in before && Done(before[req.id.value].status);
    if !byID && req.tags != [] && req.Condition() == "any" {
      var id :| id in MatchingIDs(req, before) && Done(before[id].status);
      assert id in MatchingIDs(req, after);
    }
  }

  // ---- Both filters ----

  /** A run whose last state has the wakeup lost: blocked, nothing queued, the condition true, and
      no publication still to come. */
  predicate WakeupLost(req: Request, s: State) {
    && s.handler.Blocked? && s.queue == 0 && Holds(req, s.table)
    && forall id :: id in s.table ==> !PublishOutstanding(req, s, id)
  }

  /** With both an id and tags, a session that bears the id but none of the tags meets the condition
      with its exit, and the subscription passes over the publication of it. */
  lemma UnheardPublication(req: Request, id: SessionID) returns (s: State, acts: seq<Act>)
    requires req.id == Some(id) && req.tags != []
    ensures Init(s) && Legal(req, s, acts) && WakeupLost(req, RunOf(req, s, acts))
  {
    var blocking;
    s, blocking := BlocksOnRunning(req, id, []);
    var t := RunOf(req, s, blocking);
    Prepend(req, Apply(req, t, Exit(id, "0")), Publish(id), []);
    Prepend(req, t, Exit(id, "0"), [Publish(id)] + []);
    acts := [Exit(id, "0")] + ([Publish(id)] + []);
    RunOfConcat(req, s, blocking, acts);
    acts := blocking + acts;
  }

  ghost predicate CanLoseWakeup(req: Request) {
    exists s, acts :: Init(s) && Legal(req, s, acts) && WakeupLost(req, RunOf(req, s, acts))
  }

  /** A request can lose a wakeup if and only if it names both an id and tags. */
  lemma WakeupLostIffBothFilters(req: Request)
    ensures CanLoseWakeup(req) <==> req.id.Some? && req.tags != []
  {
    if req.id.Some? && req.tags != [] {
      var s, acts := UnheardPublication(req, req.id.value);
    } else {
      forall s, acts | Init(s) && Legal(req, s, acts) ensures !WakeupLost(req, RunOf(req, s, acts)) {
        NoLostWakeup(req, s, acts);
      }
    }
  }
}
