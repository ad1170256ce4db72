/** Whole histories of the accepted-grant cache: every operation and every handled stream event. */
module GrantHistory {
  import opened Results
  import opened Text
  import opened Filtering
  import opened AcceptedGrants
  import opened AccessEvents

  const GRANT_REVOKED := "access.grant.revoked"
  const STREAM_RESET := "stream.reset"

  /** The two persisted files: the grants, and the last event id handled for each network. */
  datatype CacheState = CacheState(grants: seq<Grant>, cursors: map<string, string>)

  const EMPTY := CacheState([], map[])

  function AdvanceCursor(cursors: map<string, string>, network: string, eventID: string): map<string, string> {
    if eventID == "" then cursors else cursors[TrimSpace(network) := TrimSpace(eventID)]
  }

  function HandledGrants(grants: seq<Grant>, d: Dispatched, now: AcceptedGrants.Time, relayChecked: bool,
                         relay: Relay): seq<Grant> {
    if d.kind == GRANT_REVOKED then
      if TrimSpace(d.event.grantID) == "" then grants else Filter(grants, NotTrimmedID(d.event.grantID))
    else if d.kind == STREAM_RESET then Filter(grants, HasFate(Kept, now, relayChecked, relay))
    else grants
  }

  class AccessWatcher {
    const file: GrantFile
    var cursors: map<string, string>

    constructor (file: GrantFile)
      ensures this.file == file && cursors == map[]
    {
      this.file := file;
      cursors := map[];
    }

    /** The event handler: the cursor first, then the grants. */
    method HandleEvent(network: string, d: Dispatched, now: AcceptedGrants.Time, relayChecked: bool, relay: Relay)
      modifies this, file
      ensures cursors == AdvanceCursor(old(cursors), network, d.id)
      ensures file.grants == HandledGrants(old(file.grants), d, now, relayChecked, relay)
    {
      if d.id != "" {
        cursors := cursors[TrimSpace(network) := TrimSpace(d.id)];
      }
      if d.kind == GRANT_REVOKED {
        if TrimSpace(d.event.grantID) == "" {
          return;
        }
        var _ := file.Remove(d.event.grantID);
      } else if d.kind == STREAM_RESET {
        var _ := file.Prune(now, relayChecked, relay);
      }
    }

    /** One connection: every event of the stream is handled in turn, each in its own circumstances. */
    method HandleStream(network: string, events: seq<Dispatched>, at: nat -> Circumstances)
      modifies this, file
      ensures CacheState(file.grants, cursors)
           == AfterEvents(CacheState(old(file.grants), old(cursors)), network, events, at)
    {
      for i := 0 to |events|
        invariant CacheState(file.grants, cursors)
               == AfterEvents(CacheState(old(file.grants), old(cursors)), network, events[..i], at)
      {
        assert events[..i+1][..i] == events[..i];
        HandleEvent(network, events[i], at(i).now, at(i).relayChecked, at(i).relay);
      }
      assert events[..|events|] == events;
    }
  }

  /** What an event meets: the time, whether the relay can be asked, and its answers. */
  datatype Circumstances = Circumstances(now: AcceptedGrants.Time, relayChecked: bool, relay: Relay)

  /** The files after some events, the i-th handled in the i-th circumstances. */
  function AfterEvents(s: CacheState, network: string, events: seq<Dispatched>, at: nat -> Circumstances): CacheState {
    if events == [] then s
    else
      var n := |events| - 1;
      var t := AfterEvents(s, network, events[..n], at);
      CacheState(HandledGrants(t.grants, events[n], at(n).now, at(n).relayChecked, at(n).relay),
                 AdvanceCursor(t.cursors, network, events[n].id))
  }

  /** The event revokes this grant id. */
  predicate RevokesID(d: Dispatched, id: string) {
    d.kind == "access.grant.revoked" && TrimSpace(d.event.grantID) != "" && TrimSpace(d.event.grantID) == TrimSpace(id)
  }

  /** What an event, met in these circumstances, does to a record: a revocation of its id removes it,
      and a reset removes it unless it is still good. */
  predicate Removes(d: Dispatched, c: Circumstances, g: Grant) {
    || RevokesID(d, g.grantID)
    || (d.kind == "stream.reset" && !StillGood(c.now, c.relayChecked, c.relay)(g))
  }

  lemma HandledKeepsIff(grants: seq<Grant>, d: Dispatched, c: Circumstances, g: Grant)
    ensures g in HandledGrants(grants, d, c.now, c.relayChecked, c.relay) <==> g in grants && !Removes(d, c, g)
  {
    FilterMembers(grants, NotTrimmedID(d.event.grantID));
    FatesByAnswers(grants, c.now, c.relayChecked, c.relay);
    FilterMembers(grants, StillGood(c.now, c.relayChecked, c.relay));
  }

  /** After a stream exactly those records are left that no event of it removed. */
  lemma {:induction false} StreamKeepsIff(s: CacheState, network: string, events: seq<Dispatched>,
                                          at: nat -> Circumstances, g: Grant)
    ensures g in AfterEvents(s, network, events, at).grants
            <==> g in s.grants && forall i :: 0 <= i < |events| ==> !Removes(events[i], at(i), g)
  {
    if events != [] {
      var n := |events| - 1;
      StreamKeepsIff(s, network, events[..n], at, g);
      HandledKeepsIff(AfterEvents(s, network, events[..n], at).grants, events[n], at(n), g);
    }
  }

  /** The i-th event is the last of a stream to carry an id. */
  predicate LastID(events: seq<Dispatched>, i: nat) {
    i < |events| && events[i].id != "" && forall j :: i < j < |events| ==> events[j].id == ""
  }

  /** A stream moves only the cursor of its network, and only by events with an id. */
  lemma {:induction false} StreamLeavesCursor(s: CacheState, network: string, events: seq<Dispatched>,
                                              at: nat -> Circumstances, key: string)
    requires key != TrimSpace(network) || forall i :: 0 <= i < |events| ==> events[i].id == ""
    ensures var t := AfterEvents(s, network, events, at);
            (key in t.cursors <==> key in s.cursors) && (key in s.cursors ==> t.cursors[key] == s.cursors[key])
  {
    if events != [] {
      StreamLeavesCursor(s, network, events[..|events|-1], at, key);
    }
  }

  /** After a stream the cursor of its network is the last id in it. */
  lemma {:induction false} StreamMovesCursor(s: CacheState, network: string, events: seq<Dispatched>,
                                             at: nat -> Circumstances, i: nat)
    requires LastID(events, i)
    ensures var cursors := AfterEvents(s, network, events, at).cursors;
            TrimSpace(network) in cursors && cursors[TrimSpace(network)] == TrimSpace(events[i].id)
  {
    var n := |events| - 1;
    if i < n {
      assert LastID(events[..n], i);
      StreamMovesCursor(s, network, events[..n], at, i);
    }
  }

  lemma {:induction false} CallIsInAll(blocks: seq<Block>, i: nat, decode: Decoder, d: Dispatched) returns (k: nat)
    requires i < |blocks| && BlockCalls(blocks[i], decode) == [d]
    ensures k < |AllCalls(blocks, decode)| && AllCalls(blocks, decode)[k] == d
  {
    if i == 0 {
      k := 0;
    } else {
      k := CallIsInAll(blocks[1..], i - 1, decode, d);
      k := k + |BlockCalls(blocks[0], decode)|;
    }
  }

  /** From the relay's text to the cache: what a block written anywhere in a stream stands for removes
      what it is to remove, whatever else the stream holds. */
  lemma WrittenEventReachesCache(s: CacheState, network: string, blocks: seq<Block>, gaps: seq<nat>, crlf: bool,
                                 finalNewline: bool, decode: Decoder, at: nat -> Circumstances, i: nat, d: Dispatched,
                                 g: Grant)
    requires Separated(blocks, gaps)
    requires var lines := Transcript(blocks, gaps);
             && (forall l :: l in lines ==> PlainLine(l) && Fits(l, crlf))
             && (finalNewline || (lines != [] && lines[|lines|-1] != ""))
    requires i < |blocks| && BlockCalls(blocks[i], decode) == [d] && forall k: nat :: Removes(d, at(k), g)
    ensures g !in AfterEvents(s, network, Dispatches(ScanLines(TextOf(Transcript(blocks, gaps), crlf, finalNewline)),
    decode),
                              at).grants
  {
    StreamDispatches(blocks, gaps, crlf, finalNewline, decode);
    var k := CallIsInAll(blocks, i, decode, d);
    StreamKeepsIff(s, network, AllCalls(blocks, decode), at, g);
  }

  /** And exactly: after the text of any blocks those records are left that no call the blocks stand
      for removes. */
  lemma WrittenStreamKeepsIff(s: CacheState, network: string, blocks: seq<Block>, gaps: seq<nat>, crlf: bool,
                              finalNewline: bool, decode: Decoder, at: nat -> Circumstances, g: Grant)
    requires Separated(blocks, gaps)
    requires var lines := Transcript(blocks, gaps);
             && (forall l :: l in lines ==> PlainLine(l) && Fits(l, crlf))
             && (finalNewline || (lines != [] && lines[|lines|-1] != ""))
    ensures g in AfterEvents(s, network, Dispatches(ScanLines(TextOf(Transcript(blocks, gaps), crlf, finalNewline)),
    decode),
                             at).grants
            <==> g in s.grants
                 && forall k :: 0 <= k < |AllCalls(blocks, decode)| ==> !Removes(AllCalls(blocks, decode)[k], at(k), g)
  {
    StreamDispatches(blocks, gaps, crlf, finalNewline, decode);
    StreamKeepsIff(s, network, AllCalls(blocks, decode), at, g);
  }

  // ---- Histories ----

  datatype Op =
    | Accept(token: string, claims: Option<ObserverClaims>, acceptedAt: AcceptedGrants.Time, now: AcceptedGrants.Time)
    | List(now: AcceptedGrants.Time)
    | Resolve(q: Query, listedAt: AcceptedGrants.Time, hasAuth: bool, relay: Relay, clock: nat -> AcceptedGrants.Time)
    | Remove(grantID: string)
    | Prune(now: AcceptedGrants.Time, relayChecked: bool, relay: Relay)
    | Event(network: string, d: Dispatched, now: AcceptedGrants.Time, relayChecked: bool, relay: Relay)

  /** The effect of each operation, as the methods of the store promise it. */
  ghost predicate Step(s: CacheState, op: Op, t: CacheState) {
    && (!op.Event? ==> t.cursors == s.cursors)
    && match op
       case Accept(token, claims, acceptedAt, now) =>
         t.grants == if claims.None? then s.grants
                     else Upsert(Filter(s.grants, Unexpired(now)), RecordOf(token, claims.value, acceptedAt))
       case List(now) => t.grants == Filter(s.grants, Unexpired(now))
       case Resolve(q, listedAt, hasAuth, relay, clock) =>
         exists answer, order, tried ::
           ResolveTrace(s.grants, t.grants, q, listedAt, hasAuth, relay, clock, answer, order, tried)
       case Remove(id) => t.grants == Filter(s.grants, NotTrimmedID(id))
       case Prune(now, relayChecked, relay) => t.grants == Filter(s.grants, HasFate(Kept, now, relayChecked, relay))
       case Event(network, d, now, relayChecked, relay) =>
         && t.cursors == AdvanceCursor(s.cursors, network, d.id)
         && t.grants == HandledGrants(s.grants, d, now, relayChecked, relay)
  }

  /** The methods of the store and the event handler perform exactly such steps. */
  method Perform(watcher: AccessWatcher, op: Op)
    modifies watcher, watcher.file
    ensures Step(CacheState(old(watcher.file.grants), old(watcher.cursors)), op,
                 CacheState(watcher.file.grants, watcher.cursors))
  {
    var file := watcher.file;
    match op {
      case Accept(token, claims, acceptedAt, now) =>
        var _ := file.Accept(token, claims, acceptedAt, now);
      case List(now) =>
        var _ := file.List(now);
      case Resolve(q, listedAt, hasAuth, relay, clock) =>
        var _, _, _ := file.Resolve(q, listedAt, hasAuth, relay, clock);
      case Remove(id) =>
        var _ := file.Remove(id);
      case Prune(now, relayChecked, relay) =>
        var _ := file.Prune(now, relayChecked, relay);
      case Event(network, d, now, relayChecked, relay) =>
        watcher.HandleEvent(network, d, now, relayChecked, relay);
    }
  }

  ghost predicate History(states: seq<CacheState>, ops: seq<Op>) {
    && |states| == |ops| + 1 && states[0] == EMPTY
    && forall i :: 0 <= i < |ops| ==> StepAt(states, ops, i)
  }

  ghost predicate StepAt(states: seq<CacheState>, ops: seq<Op>, i: nat)
    requires i < |ops| && i + 1 < |states|
  {
    Step(states[i], ops[i], states[i + 1])
  }

  predicate Accepts(op: Op, g: Grant) {
    op.Accept? && op.claims.Some? && g == RecordOf(op.token, op.claims.value, op.acceptedAt)
  }

  predicate Revokes(op: Op, id: string) {
    op.Event? && RevokesID(op.d, id)
  }

  /** The operation leaves no earlier record under this id. */
  predicate Displaces(op: Op, id: string) {
    || (op.Accept? && op.claims.Some? && op.claims.value.jti == id)
    || (op.Remove? && TrimSpace(op.grantID) == TrimSpace(id))
    || Revokes(op, id)
  }

  /** The record was made by the i-th operation and nothing displaced it since. */
  predicate StandsSince(g: Grant, ops: seq<Op>, i: nat, n: nat) {
    i < n <= |ops| && Accepts(ops[i], g) && forall j :: i < j < n ==> !Displaces(ops[j], g.grantID)
  }

  lemma FilteredIsSubset(grants: seq<Grant>, keep: Grant -> bool)
    requires DistinctIDs(grants)
    ensures DistinctIDs(Filter(grants, keep))
    ensures forall g :: g in Filter(grants, keep) ==> g in grants && keep(g)
  {
    FilterKeepsIDsDistinct(grants, keep);
    FilterMembers(grants, keep);
  }

  /** Every operation keeps ids distinct, and a record is either new from this operation or was there
      before and is not displaced by it. */
  lemma StepKeepsRecords(s: CacheState, op: Op, t: CacheState)
    requires DistinctIDs(s.grants) && Step(s, op, t)
    ensures DistinctIDs(t.grants)
    ensures forall g :: g in t.grants ==> Accepts(op, g) || (g in s.grants && !Displaces(op, g.grantID))
  {
    match op
    case Accept(token, claims, acceptedAt, now) =>
      if claims.Some? {
        FilteredIsSubset(s.grants, Unexpired(now));
        UpsertKeepsIDsDistinct(Filter(s.grants, Unexpired(now)), RecordOf(token, claims.value, acceptedAt));
      }
    case List(now) => FilteredIsSubset(s.grants, Unexpired(now));
    case Resolve(q, listedAt, hasAuth, relay, clock) =>
      var answer, order: seq<Grant>, tried: nat :|
        ResolveTrace(s.grants, t.grants, q, listedAt, hasAuth, relay, clock, answer, order, tried);
      FilteredIsSubset(s.grants, Unexpired(listedAt));
      FilteredIsSubset(Filter(s.grants, Unexpired(listedAt)), OutsideIDs(order[..tried]));
    case Remove(id) => FilteredIsSubset(s.grants, NotTrimmedID(id));
    case Prune(now, relayChecked, relay) => FilteredIsSubset(s.grants, HasFate(Kept, now, relayChecked, relay));
    case Event(network, d, now, relayChecked, relay) =>
      FilteredIsSubset(s.grants, NotTrimmedID(d.event.grantID));
      FilteredIsSubset(s.grants, HasFate(Kept, now, relayChecked, relay));
  }

  ghost predicate Stands(g: Grant, ops: seq<Op>, n: nat) {
    exists i: nat :: StandsSince(g, ops, i, n)
  }

  lemma StandsOneMore(before: seq<Grant>, after: seq<Grant>, ops: seq<Op>, n: nat)
    requires n < |ops| && forall g :: g in before ==> Stands(g, ops, n)
    requires forall g :: g in after ==> Accepts(ops[n], g) || (g in before && !Displaces(ops[n], g.grantID))
    ensures forall g :: g in after ==> Stands(g, ops, n + 1)
  {
    forall g | g in after ensures Stands(g, ops, n + 1) {
      if Accepts(ops[n], g) {
        assert StandsSince(g, ops, n, n + 1);
      } else {
        var i: nat :| StandsSince(g, ops, i, n);
        assert StandsSince(g, ops, i, n + 1);
      }
    }
  }

  /** In every reachable state: one record per id, and each record is the one its last acceptance
      made, with no removal and no handled revocation of it since. */
  lemma {:induction false} RecordsComeFromTheirLastAcceptance(states: seq<CacheState>, ops: seq<Op>, n: nat)
    requires History(states, ops) && n <= |ops|
    ensures DistinctIDs(states[n].grants)
    ensures forall g :: g in states[n].grants ==> Stands(g, ops, n)
    decreases n
  {
    if n > 0 {
      RecordsComeFromTheirLastAcceptance(states, ops, n - 1);
      assert StepAt(states, ops, n - 1);
      StepKeepsRecords(states[n-1], ops[n-1], states[n]);
      StandsOneMore(states[n-1].grants, states[n].grants, ops, n - 1);
    }
  }

  /** No record whose handled revocation is later than its last acceptance. */
  lemma RevokedGrantStaysOut(states: seq<CacheState>, ops: seq<Op>, j: nat, n: nat, g: Grant)
    requires History(states, ops) && j < n <= |ops| && g in states[n].grants && Revokes(ops[j], g.grantID)
    ensures exists i: nat :: j < i < n && Accepts(ops[i], g)
  {
    RecordsComeFromTheirLastAcceptance(states, ops, n);
    var i: nat :| StandsSince(g, ops, i, n);
    assert i > j;
  }

  // ---- Nothing else drops a grant ----

  /** A resolve call may look up and lose this record: with access to the relay, a cached grant that
      matches the query and shares its trimmed id is refused at one of the call's own clock readings. */
  ghost predicate ResolveThreatens(grants: seq<Grant>, q: Query, listedAt: AcceptedGrants.Time, hasAuth: bool,
                                   relay: Relay, clock: nat -> AcceptedGrants.Time, g: Grant)
  {
    && hasAuth && q.networkID != ""
    && exists h, k: nat ::
         && h in grants && listedAt <= h.expiresAt && Suits(h, q) && TrimSpace(h.grantID) == TrimSpace(g.grantID)
         && k < |Filter(Filter(grants, Unexpired(listedAt)), Matching(q))|
         && SaysNo(relay(h.grantID, q.networkID), clock(k))
  }

  /** What can remove this record from a cache: displacement, local expiry, or the relay's refusal. */
  ghost predicate Threatens(s: CacheState, op: Op, g: Grant) {
    || Displaces(op, g.grantID)
    || match op
       case Accept(_, claims, _, now) => claims.Some? && now > g.expiresAt
       case List(now) => now > g.expiresAt
       case Resolve(q, listedAt, hasAuth, relay, clock) =>
         listedAt > g.expiresAt || ResolveThreatens(s.grants, q, listedAt, hasAuth, relay, clock, g)
       case Remove(_) => false
       case Prune(now, relayChecked, relay) => !StillGood(now, relayChecked, relay)(g)
       case Event(_, d, now, relayChecked, relay) =>
         d.kind == "stream.reset" && !StillGood(now, relayChecked, relay)(g)
  }

  lemma AcceptKeepsUnthreatened(grants: seq<Grant>, record: Grant, now: AcceptedGrants.Time, g: Grant)
    requires DistinctIDs(grants) && g in grants && now <= g.expiresAt && g.grantID != record.grantID
    ensures g in Upsert(Filter(grants, Unexpired(now)), record)
  {
    FilteredIsSubset(grants, Unexpired(now));
    FilterMembers(grants, Unexpired(now));
    UpsertKeepsIDsDistinct(Filter(grants, Unexpired(now)), record);
  }

  /** A refused lookup of the call is what threatens the records with its trimmed id. */
  lemma RefusedLookupThreatens(before: seq<Grant>, q: Query, listedAt: AcceptedGrants.Time, hasAuth: bool, relay: Relay,
                               clock: nat -> AcceptedGrants.Time, order: seq<Grant>, k: nat, g: Grant)
    requires multiset(order) == multiset(Filter(Filter(before, Unexpired(listedAt)), Matching(q))) && k < |order|
    requires hasAuth && q.networkID != "" && RefusedAt(order, k, q.networkID, relay, clock)
    requires TrimSpace(order[k].grantID) == TrimSpace(g.grantID)
    ensures ResolveThreatens(before, q, listedAt, hasAuth, relay, clock, g)
  {
    ResolveOrderMembers(before, q, listedAt, order);
    PermutationMembers(order, Filter(Filter(before, Unexpired(listedAt)), Matching(q)));
    var h := order[k];
    assert h in order;
    MatchingIffSuits(h, q);
    assert SaysNo(relay(h.grantID, q.networkID), clock(k));
  }

  lemma ResolveKeepsUnthreatened(before: seq<Grant>, after: seq<Grant>, q: Query, listedAt: AcceptedGrants.Time,
                                 hasAuth: bool, relay: Relay, clock: nat -> AcceptedGrants.Time,
                                 answer: Option<string>, order: seq<Grant>, tried: nat, g: Grant)
    requires ResolveTrace(before, after, q, listedAt, hasAuth, relay, clock, answer, order, tried)
    requires g in before && listedAt <= g.expiresAt && !ResolveThreatens(before, q, listedAt, hasAuth, relay, clock, g)
    ensures g in after
  {
    FilterMembers(before, Unexpired(listedAt));
    FilterMembers(Filter(before, Unexpired(listedAt)), OutsideIDs(order[..tried]));
    forall k | 0 <= k < tried ensures TrimSpace(order[k].grantID) != TrimSpace(g.grantID) {
      if TrimSpace(order[k].grantID) == TrimSpace(g.grantID) {
        RefusedLookupThreatens(before, q, listedAt, hasAuth, relay, clock, order, k, g);
      }
    }
  }

  lemma StepKeepsUnthreatened(s: CacheState, op: Op, t: CacheState, g: Grant)
    requires DistinctIDs(s.grants) && Step(s, op, t) && g in s.grants && !Threatens(s, op, g)
    ensures g in t.grants
  {
    match op
    case Accept(token, claims, acceptedAt, now) =>
      if claims.Some? {
        AcceptKeepsUnthreatened(s.grants, RecordOf(token, claims.value, acceptedAt), now, g);
      }
    case List(now) => FilterMembers(s.grants, Unexpired(now));
    case Resolve(q, listedAt, hasAuth, relay, clock) =>
      var answer, order: seq<Grant>, tried: nat :|
        ResolveTrace(s.grants, t.grants, q, listedAt, hasAuth, relay, clock, answer, order, tried);
      ResolveKeepsUnthreatened(s.grants, t.grants, q, listedAt, hasAuth, relay, clock, answer, order, tried, g);
    case Remove(id) => FilterMembers(s.grants, NotTrimmedID(id));
    case Prune(now, relayChecked, relay) => FilterMembers(s.grants, HasFate(Kept, now, relayChecked, relay));
    case Event(network, d, now, relayChecked, relay) =>
      FilterMembers(s.grants, NotTrimmedID(d.event.grantID));
      FilterMembers(s.grants, HasFate(Kept, now, relayChecked, relay));
  }

  /** A cached grant survives every stretch of history in which nothing threatens it. */
  lemma {:induction false} UnthreatenedGrantSurvives(states: seq<CacheState>, ops: seq<Op>, m: nat, n: nat, g: Grant)
    requires History(states, ops) && m <= n <= |ops| && g in states[m].grants
    requires forall i :: m <= i < n ==> !Threatens(states[i], ops[i], g)
    ensures g in states[n].grants
    decreases n
  {
    if m < n {
      UnthreatenedGrantSurvives(states, ops, m, n - 1, g);
      RecordsComeFromTheirLastAcceptance(states, ops, n - 1);
      assert StepAt(states, ops, n - 1);
      StepKeepsUnthreatened(states[n-1], ops[n-1], states[n], g);
    }
  }

  // ---- The cursor ----

  predicate SetsCursor(op: Op, key: string) {
    op.Event? && op.d.id != "" && TrimSpace(op.network) == key
  }

  lemma StepMovesCursor(s: CacheState, op: Op, t: CacheState, key: string)
    requires Step(s, op, t)
    ensures SetsCursor(op, key) ==> key in t.cursors && t.cursors[key] == TrimSpace(op.d.id)
    ensures !SetsCursor(op, key) ==>
              ((key in t.cursors <==> key in s.cursors) && (key in s.cursors ==> t.cursors[key] == s.cursors[key]))
  {
  }

  /** The i-th operation is the last of the first n to set the cursor of this network. */
  predicate LastToSet(ops: seq<Op>, n: nat, key: string, i: nat) {
    i < n <= |ops| && SetsCursor(ops[i], key) && forall j :: i < j < n ==> !SetsCursor(ops[j], key)
  }

  /** The cursor of a network is the last nonempty event id handled for it, and absent without one. */
  ghost predicate CursorIsLast(cursors: map<string, string>, ops: seq<Op>, n: nat, key: string) {
    && (key !in cursors ==> forall i :: 0 <= i < n <= |ops| ==> !SetsCursor(ops[i], key))
    && (key in cursors ==> exists i: nat :: LastToSet(ops, n, key, i) && cursors[key] == TrimSpace(ops[i].d.id))
  }

  lemma CursorOneMore(before: map<string, string>, after: map<string, string>, ops: seq<Op>, n: nat, key: string)
    requires n < |ops| && CursorIsLast(before, ops, n, key)
    requires SetsCursor(ops[n], key) ==> key in after && after[key] == TrimSpace(ops[n].d.id)
    requires !SetsCursor(ops[n], key) ==>
               ((key in after <==> key in before) && (key in before ==> after[key] == before[key]))
    ensures CursorIsLast(after, ops, n + 1, key)
  {
    if SetsCursor(ops[n], key) {
      assert LastToSet(ops, n + 1, key, n);
    } else if key in after {
      var i: nat :| LastToSet(ops, n, key, i) && before[key] == TrimSpace(ops[i].d.id);
      assert LastToSet(ops, n + 1, key, i);
    }
  }

  lemma {:induction false} CursorIsLastEventID(states: seq<CacheState>, ops: seq<Op>, n: nat, key: string)
    requires History(states, ops) && n <= |ops|
    ensures CursorIsLast(states[n].cursors, ops, n, key)
    decreases n
  {
    if n > 0 {
      CursorIsLastEventID(states, ops, n - 1, key);
      assert StepAt(states, ops, n - 1);
      StepMovesCursor(states[n-1], ops[n-1], states[n], key);
      CursorOneMore(states[n-1].cursors, states[n].cursors, ops, n - 1, key);
    }
  }
}
