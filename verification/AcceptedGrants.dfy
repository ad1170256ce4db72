/** The client's cache of accepted access grants: accept, list, resolve, remove and prune.
    File reads and writes succeed; the relay is a function from grant and network ids to an answer. */
module AcceptedGrants {
  import opened Results
  import opened Text
  import opened Filtering

  type Time = int

  datatype Grant = Grant(
    token: string, grantID: string, networkID: string, targetNode: string, sessionID: Option<nat>,
    sessionName: string, verbs: seq<string>, audienceKind: string, audienceID: string,
    acceptedAt: Time, expiresAt: Time)

  /** The claims of an observer delegation, as parsed from a token. */
  datatype ObserverClaims = ObserverClaims(
    jti: string, networkID: string, targetNode: string, sessionID: Option<nat>, sessionName: string,
    verbs: seq<string>, audienceKind: string, audienceID: string, expiresAt: Time)

  datatype Lookup =
    | Found(revoked: bool, expiresAt: Time)
    | NoRecord
    | LookupFailed(saysMissing: bool)

  /** The relay's answer for a grant id under a network id. */
  type Relay = (string, string) -> Lookup

  datatype PruneResult = PruneResult(
    removedExpired: nat, removedRevoked: nat, removedMissing: nat, remaining: nat, relayChecked: bool)

  datatype Query = Query(networkID: string, targetNode: string, sessionID: Option<nat>, sessionName: string,
                         verb: string)

  // ---- Accept and list ----

  function Unexpired(now: Time): Grant -> bool {
    (g: Grant) => now <= g.expiresAt
  }

  function RecordOf(token: string, claims: ObserverClaims, acceptedAt: Time): Grant {
    Grant(TrimSpace(token), claims.jti, claims.networkID, claims.targetNode, claims.sessionID, claims.sessionName,
          claims.verbs, claims.audienceKind, claims.audienceID, acceptedAt, claims.expiresAt)
  }

  /** The record holds the trimmed token and every claim that later decides about it. */
  predicate Carries(g: Grant, token: string, claims: ObserverClaims, acceptedAt: Time) {
    && g.token == TrimSpace(token) && g.grantID == claims.jti && g.networkID == claims.networkID
    && g.targetNode == claims.targetNode && g.sessionID == claims.sessionID && g.sessionName == claims.sessionName
    && g.verbs == claims.verbs && g.audienceKind == claims.audienceKind && g.audienceID == claims.audienceID
    && g.acceptedAt == acceptedAt && g.expiresAt == claims.expiresAt
  }

  /** Replace the first record with this id, or append. */
  function Upsert(grants: seq<Grant>, record: Grant): seq<Grant> {
    if grants == [] then [record]
    else if grants[0].grantID == record.grantID then [record] + grants[1..]
    else [grants[0]] + Upsert(grants[1..], record)
  }

  predicate DistinctIDs(grants: seq<Grant>) {
    forall i, j :: 0 <= i < j < |grants| ==> grants[i].grantID != grants[j].grantID
  }

  lemma {:induction false} UpsertAt(grants: seq<Grant>, i: nat, record: Grant)
    requires i <= |grants| && forall j :: 0 <= j < i ==> grants[j].grantID != record.grantID
    ensures i < |grants| && grants[i].grantID == record.grantID ==> Upsert(grants, record) == grants[i := record]
    ensures i == |grants| ==> Upsert(grants, record) == grants + [record]
  {
    if i > 0 {
      UpsertAt(grants[1..], i - 1, record);
      if i < |grants| {
        assert grants[i := record] == [grants[0]] + grants[1..][i - 1 := record];
      }
    } else if grants != [] {
      assert grants[0 := record] == [record] + grants[1..];
    }
  }

  /** After an upsert into distinct ids: still distinct, the record present, every other id as before. */
  lemma {:induction false} UpsertKeepsIDsDistinct(grants: seq<Grant>, record: Grant)
    requires DistinctIDs(grants)
    ensures DistinctIDs(Upsert(grants, record))
    ensures forall g :: g in Upsert(grants, record) <==> g == record || (g in grants && g.grantID != record.grantID)
  {
    if grants != [] && grants[0].grantID != record.grantID {
      UpsertKeepsIDsDistinct(grants[1..], record);
    }
  }

  lemma {:induction false} FilterKeepsIDsDistinct(grants: seq<Grant>, keep: Grant -> bool)
    requires DistinctIDs(grants)
    ensures DistinctIDs(Filter(grants, keep))
  {
    if grants != [] {
      var front := grants[..|grants|-1];
      FilterKeepsIDsDistinct(front, keep);
      var kept := Filter(front, keep);
      FilterMembers(front, keep);
      assert forall i :: 0 <= i < |kept| ==> kept[i] in front;
    }
  }

  // ---- Remove ----

  function NotTrimmedID(id: string): Grant -> bool {
    (g: Grant) => TrimSpace(g.grantID) != TrimSpace(id)
  }

  predicate HasTrimmedID(grants: seq<Grant>, id: string) {
    exists i :: 0 <= i < |grants| && TrimSpace(grants[i].grantID) == TrimSpace(id)
  }

  // ---- Prune ----

  datatype Fate = Kept | Expired | Revoked | Missing

  function FateOf(g: Grant, now: Time, relayChecked: bool, relay: Relay): Fate {
    if now > g.expiresAt then Expired
    else if !relayChecked then Kept
    else match relay(g.grantID, g.networkID)
      case LookupFailed(saysMissing) => if saysMissing then Missing else Kept
      case NoRecord => Missing
      case Found(revoked, expiresAt) => if revoked || now > expiresAt then Revoked else Kept
  }

  function HasFate(fate: Fate, now: Time, relayChecked: bool, relay: Relay): Grant -> bool {
    (g: Grant) => FateOf(g, now, relayChecked, relay) == fate
  }

  /** Every grant meets exactly one fate, so the counts of a prune add up. */
  lemma {:induction false} FatesAddUp(grants: seq<Grant>, now: Time, relayChecked: bool, relay: Relay)
    ensures |Filter(grants, HasFate(Kept, now, relayChecked, relay))|
          + |Filter(grants, HasFate(Expired, now, relayChecked, relay))|
          + |Filter(grants, HasFate(Revoked, now, relayChecked, relay))|
          + |Filter(grants, HasFate(Missing, now, relayChecked, relay))| == |grants|
  {
    if grants != [] {
      FatesAddUp(grants[..|grants|-1], now, relayChecked, relay);
      var g := grants[|grants|-1];
      assert HasFate(FateOf(g, now, relayChecked, relay), now, relayChecked, relay)(g);
    }
  }

  // What the relay's answers mean, said without the fates.

  predicate SaysMissing(answer: Lookup) {
    answer == NoRecord || answer == LookupFailed(true)
  }

  predicate SaysRevoked(answer: Lookup, now: Time) {
    answer.Found? && (answer.revoked || answer.expiresAt < now)
  }

  /** Unexpired here, and at the relay, if it can be asked, neither missing nor revoked. */
  function StillGood(now: Time, relayChecked: bool, relay: Relay): Grant -> bool {
    (g: Grant) =>
      && now <= g.expiresAt
      && (relayChecked ==>
            !SaysMissing(relay(g.grantID, g.networkID)) && !SaysRevoked(relay(g.grantID, g.networkID), now))
  }

  /** Unexpired here, but revoked or expired at the relay. */
  function RevokedThere(now: Time, relay: Relay): Grant -> bool {
    (g: Grant) => now <= g.expiresAt && SaysRevoked(relay(g.grantID, g.networkID), now)
  }

  /** Unexpired here, but missing at the relay. */
  function MissingThere(now: Time, relay: Relay): Grant -> bool {
    (g: Grant) => now <= g.expiresAt && SaysMissing(relay(g.grantID, g.networkID))
  }

  /** What the fates mean. */
  lemma FatesByAnswers(grants: seq<Grant>, now: Time, relayChecked: bool, relay: Relay)
    ensures Filter(grants, HasFate(Kept, now, relayChecked, relay))
            == Filter(grants, StillGood(now, relayChecked, relay))
    ensures Filter(grants, HasFate(Expired, now, relayChecked, relay))
         == Filter(grants, (g: Grant) => g.expiresAt < now)
    ensures Filter(grants, HasFate(Revoked, now, relayChecked, relay))
         == (if relayChecked then Filter(grants, RevokedThere(now, relay)) else [])
    ensures Filter(grants, HasFate(Missing, now, relayChecked, relay))
         == (if relayChecked then Filter(grants, MissingThere(now, relay)) else [])
  {
    FilterAgree(grants, HasFate(Kept, now, relayChecked, relay), StillGood(now, relayChecked, relay));
    FilterAgree(grants, HasFate(Expired, now, relayChecked, relay), (g: Grant) => g.expiresAt < now);
    if relayChecked {
      FilterAgree(grants, HasFate(Revoked, now, true, relay), RevokedThere(now, relay));
      FilterAgree(grants, HasFate(Missing, now, true, relay), MissingThere(now, relay));
    } else {
      UncheckedFates(grants, now, relay);
    }
  }

  /** A lookup that fails for another reason than a missing grant never drops an unexpired grant. */
  lemma FailedLookupKeepsGrant(grants: seq<Grant>, g: Grant, now: Time, relayChecked: bool, relay: Relay)
    requires g in grants && now <= g.expiresAt && relay(g.grantID, g.networkID) == LookupFailed(false)
    ensures g in Filter(grants, HasFate(Kept, now, relayChecked, relay))
  {
    FilterMembers(grants, HasFate(Kept, now, relayChecked, relay));
  }

  // ---- Resolve ----

  function AllowsVerb(verbs: seq<string>, verb: string): bool {
    exists i :: 0 <= i < |verbs| && TrimSpace(verbs[i]) == TrimSpace(verb)
  }

  function MatchesSession(g: Grant, sessionID: Option<nat>, sessionName: string): bool {
    if sessionID.Some? then g.sessionID == sessionID
    else TrimSpace(sessionName) != "" && TrimSpace(g.sessionName) == TrimSpace(sessionName)
  }

  function Matching(q: Query): Grant -> bool {
    (g: Grant) =>
      && TrimSpace(g.networkID) == TrimSpace(q.networkID)
      && TrimSpace(g.targetNode) == TrimSpace(q.targetNode)
      && MatchesSession(g, q.sessionID, q.sessionName)
      && AllowsVerb(g.verbs, q.verb)
  }

  function LaterExpiry(): (Grant, Grant) -> bool {
    (a: Grant, b: Grant) => a.expiresAt > b.expiresAt
  }

  /** The relay says no: the grant is missing, revoked or expired there. */
  predicate Refused(answer: Lookup, now: Time) {
    match answer
    case LookupFailed(saysMissing) => saysMissing
    case NoRecord => true
    case Found(revoked, expiresAt) => revoked || now > expiresAt
  }

  /** The k-th grant of an order, looked up under a network at the k-th clock reading, is refused. */
  predicate RefusedAt(order: seq<Grant>, k: nat, networkID: string, relay: Relay, clock: nat -> Time)
    requires k < |order|
  {
    Refused(relay(order[k].grantID, networkID), clock(k))
  }

  /** The first k grants of an order are refused. */
  predicate FirstRefused(order: seq<Grant>, k: nat, networkID: string, relay: Relay, clock: nat -> Time) {
    k <= |order| && forall i :: 0 <= i < k ==> RefusedAt(order, i, networkID, relay, clock)
  }

  lemma OneMoreRefused(order: seq<Grant>, k: nat, networkID: string, relay: Relay, clock: nat -> Time)
    requires FirstRefused(order, k, networkID, relay, clock)
    requires k < |order| && RefusedAt(order, k, networkID, relay, clock)
    ensures FirstRefused(order, k + 1, networkID, relay, clock)
  {
  }

  /** Trimmed id of none of the given grants. */
  function OutsideIDs(tried: seq<Grant>): Grant -> bool {
    (g: Grant) => forall i :: 0 <= i < |tried| ==> TrimSpace(g.grantID) != TrimSpace(tried[i].grantID)
  }

  /** A resolve call: the matching grants in some order of falling expiry, the first `tried` of them
      refused, each at its own clock reading. */
  ghost predicate ResolveTrace(before: seq<Grant>, after: seq<Grant>, q: Query, listedAt: Time, hasAuth: bool,
                               relay: Relay, clock: nat -> Time, answer: Option<string>, order: seq<Grant>, tried: nat)
  {
    var listed := Filter(before, Unexpired(listedAt));
    var checked := hasAuth && q.networkID != "";
    && multiset(order) == multiset(Filter(listed, Matching(q)))
    && SortedBy(order, LaterExpiry())
    && tried <= |order|
    && (tried > 0 ==> checked)
    && FirstRefused(order, tried, q.networkID, relay, clock)
    && (answer.None? ==> tried == |order|)
    && (answer.Some? ==>
          && tried < |order| && answer.value == order[tried].token
          && (checked ==> !RefusedAt(order, tried, q.networkID, relay, clock)))
    && after == Filter(listed, OutsideIDs(order[..tried]))
  }

  lemma ResolveOrderMembers(before: seq<Grant>, q: Query, listedAt: Time, order: seq<Grant>)
    requires multiset(order) == multiset(Filter(Filter(before, Unexpired(listedAt)), Matching(q)))
    ensures forall g :: g in order <==> g in before && listedAt <= g.expiresAt && Matching(q)(g)
  {
    var listed := Filter(before, Unexpired(listedAt));
    PermutationMembers(order, Filter(listed, Matching(q)));
    FilterMembers(listed, Matching(q));
    FilterMembers(before, Unexpired(listedAt));
  }

  /** The call looked this grant up, one of the first `tried` of its order, and the relay refused it. */
  ghost predicate RefusedInCall(order: seq<Grant>, tried: nat, g: Grant, networkID: string, relay: Relay,
                                clock: nat -> Time) {
    exists k :: 0 <= k < tried <= |order| && order[k] == g && SaysNo(relay(order[k].grantID, networkID), clock(k))
  }

  /** The answer that makes a resolve call drop a grant. */
  predicate SaysNo(answer: Lookup, now: Time) {
    SaysMissing(answer) || SaysRevoked(answer, now)
  }

  /** The grant is for this query's network and node, for its session, and for its verb. */
  predicate Suits(g: Grant, q: Query) {
    && TrimSpace(g.networkID) == TrimSpace(q.networkID) && TrimSpace(g.targetNode) == TrimSpace(q.targetNode)
    && (q.sessionID.Some? ==> g.sessionID == q.sessionID)
    && (q.sessionID.None? ==> TrimSpace(q.sessionName) == TrimSpace(g.sessionName) != "")
    && exists verb :: verb in g.verbs && TrimSpace(verb) == TrimSpace(q.verb)
  }

  lemma MatchingIffSuits(g: Grant, q: Query)
    ensures Matching(q)(g) <==> Suits(g, q)
  {
    if AllowsVerb(g.verbs, q.verb) {
      var i :| 0 <= i < |g.verbs| && TrimSpace(g.verbs[i]) == TrimSpace(q.verb);
      assert g.verbs[i] in g.verbs;
    }
  }

  lemma TriedWereRefused(order: seq<Grant>, tried: nat, networkID: string, relay: Relay, clock: nat -> Time, h: Grant)
    requires tried <= |order| && h in order && SortedBy(order, LaterExpiry())
    requires FirstRefused(order, tried, networkID, relay, clock)
    requires tried == |order| || h.expiresAt > order[tried].expiresAt
    ensures RefusedInCall(order, tried, h, networkID, relay, clock)
  {
    forall i | tried < i < |order| ensures order[i].expiresAt <= order[tried].expiresAt {
      assert !LaterExpiry()(order[i], order[tried]);
    }
    var k :| 0 <= k < |order| && order[k] == h;
    assert RefusedAt(order, k, networkID, relay, clock);
  }

  /** A resolved token belongs to a matching unexpired grant that the relay did not refuse, and every
      matching unexpired grant that expires later was looked up in this call and refused; without an
      answer, all of them were. */
  lemma ResolvedGrantExpiresLast(before: seq<Grant>, after: seq<Grant>, q: Query, listedAt: Time, hasAuth: bool,
                                 relay: Relay, clock: nat -> Time, answer: Option<string>, order: seq<Grant>,
                                 tried: nat)
    requires ResolveTrace(before, after, q, listedAt, hasAuth, relay, clock, answer, order, tried)
    ensures answer.Some? ==>
              && tried < |order|
              && var g := order[tried];
                 && g in before && listedAt <= g.expiresAt && Suits(g, q) && g.token == answer.value
                 && (hasAuth && q.networkID != "" ==> !SaysNo(relay(g.grantID, q.networkID), clock(tried)))
                 && (forall h :: h in before && Suits(h, q) && h.expiresAt > g.expiresAt
                       ==> RefusedInCall(order, tried, h, q.networkID, relay, clock))
    ensures answer.None? ==>
              (forall h :: h in before && listedAt <= h.expiresAt && Suits(h, q)
                 ==> RefusedInCall(order, tried, h, q.networkID, relay, clock))
  {
    forall h ensures Matching(q)(h) <==> Suits(h, q) {
      MatchingIffSuits(h, q);
    }
    ResolveOrderMembers(before, q, listedAt, order);
    if answer.Some? {
      assert order[tried] in order;
    }
    forall h | h in order && (tried == |order| || h.expiresAt > order[tried].expiresAt)
      ensures RefusedInCall(order, tried, h, q.networkID, relay, clock)
    {
      TriedWereRefused(order, tried, q.networkID, relay, clock, h);
    }
  }

  predicate DistinctTrimmedIDs(grants: seq<Grant>) {
    forall i, j :: 0 <= i < j < |grants| ==> TrimSpace(grants[i].grantID) != TrimSpace(grants[j].grantID)
  }

  lemma OutsideIsNotTried(grants: seq<Grant>, tried: seq<Grant>, g: Grant)
    requires DistinctTrimmedIDs(grants) && g in grants && forall h :: h in tried ==> h in grants
    ensures OutsideIDs(tried)(g) <==> g !in tried
  {
    forall i | 0 <= i < |tried| && TrimSpace(g.grantID) == TrimSpace(tried[i].grantID) ensures g == tried[i] {
      assert tried[i] in tried;
      var x :| 0 <= x < |grants| && grants[x] == g;
      var y :| 0 <= y < |grants| && grants[y] == tried[i];
    }
  }

  /** With distinct trimmed ids, a resolve call drops the locally expired grants and exactly the refused
      ones it tried. */
  lemma ResolveDropsExactlyTheRefused(before: seq<Grant>, after: seq<Grant>, q: Query, listedAt: Time, hasAuth: bool,
                                      relay: Relay, clock: nat -> Time, answer: Option<string>, order: seq<Grant>,
                                      tried: nat)
    requires ResolveTrace(before, after, q, listedAt, hasAuth, relay, clock, answer, order, tried)
    requires DistinctTrimmedIDs(before)
    ensures forall g :: g in after <==> g in before && listedAt <= g.expiresAt && g !in order[..tried]
  {
    FilterMembers(before, Unexpired(listedAt));
    FilterMembers(Filter(before, Unexpired(listedAt)), OutsideIDs(order[..tried]));
    ResolveOrderMembers(before, q, listedAt, order);
    assert forall h :: h in order[..tried] ==> h in order;
    forall g | g in before ensures OutsideIDs(order[..tried])(g) <==> g !in order[..tried] {
      OutsideIsNotTried(before, order[..tried], g);
    }
  }

  // ---- The store ----

  class GrantFile {
    var grants: seq<Grant>

    method Accept(token: string, claims: Option<ObserverClaims>, acceptedAt: Time, now: Time) returns (r: Option<Grant>)
      modifies this`grants
      ensures claims.None? ==> r.None? && grants == old(grants)
      ensures claims.Some? ==>
                && r == Some(RecordOf(token, claims.value, acceptedAt))
                && Carries(r.value, token, claims.value, acceptedAt)
                && grants == Upsert(Filter(old(grants), Unexpired(now)), r.value)
    {
      if claims.None? {
        return None;
      }
      var record := RecordOf(token, claims.value, acceptedAt);
      var live := PruneExpired(grants, now);
      var i := 0;
      while i < |live| && live[i].grantID != record.grantID
        invariant 0 <= i <= |live|
        invariant forall j :: 0 <= j < i ==> live[j].grantID != record.grantID
      {
        i := i + 1;
      }
      UpsertAt(live, i, record);
      grants := if i < |live| then live[i := record] else live + [record];
      r := Some(record);
    }

    method List(now: Time) returns (listed: seq<Grant>)
      modifies this`grants
      ensures listed == grants == Filter(old(grants), Unexpired(now))
    {
      listed := PruneExpired(grants, now);
      FilterShort(grants, Unexpired(now));
      if |listed| != |grants| {
        grants := listed;
      }
    }

    method Remove(grantID: string) returns (found: bool)
      modifies this`grants
      ensures grants == Filter(old(grants), NotTrimmedID(grantID))
      ensures found <==> HasTrimmedID(old(grants), grantID)
    {
      var loaded := grants;
      var file := new Grant[|loaded|](i requires 0 <= i < |loaded| => loaded[i]);
      assert file[..file.Length] == loaded;
      var next := CompactInPlace(file, file.Length, NotTrimmedID(grantID));
      RemovalShortens(loaded, grantID);
      found := next != |loaded|;
      if found {
        grants := file[..next];
      }
    }

    method Prune(now: Time, relayChecked: bool, relay: Relay) returns (r: PruneResult)
      modifies this`grants
      ensures grants == Filter(old(grants), HasFate(Kept, now, relayChecked, relay))
      ensures grants == Filter(old(grants), StillGood(now, relayChecked, relay))
      ensures r.relayChecked == relayChecked
      ensures r.removedExpired == |Filter(old(grants), (g: Grant) => g.expiresAt < now)|
      ensures r.removedRevoked == if relayChecked then |Filter(old(grants), RevokedThere(now, relay))| else 0
      ensures r.removedMissing == if relayChecked then |Filter(old(grants), MissingThere(now, relay))| else 0
      ensures r.remaining == |grants|
      ensures r.removedExpired + r.removedRevoked + r.removedMissing + r.remaining == |old(grants)|
    {
      var loaded := grants;
      FatesAddUp(loaded, now, relayChecked, relay);
      FatesByAnswers(loaded, now, relayChecked, relay);
      var remaining := PruneExpired(loaded, now);
      var expired := |loaded| - |remaining|;
      ExpiredComplement(loaded, now, relayChecked, relay);
      var revoked, missing := 0, 0;
      if relayChecked {
        var a := new Grant[|remaining|](i requires 0 <= i < |remaining| => remaining[i]);
        FilterMembers(loaded, Unexpired(now));
        assert forall i :: 0 <= i < |remaining| ==> remaining[i] in remaining;
        assert a[..] == remaining;
        var kept;
        kept, revoked, missing := ValidateInPlace(a, now, relay);
        remaining := a[..kept];
        FateAmongUnexpired(loaded, Kept, now, relay);
        FateAmongUnexpired(loaded, Revoked, now, relay);
        FateAmongUnexpired(loaded, Missing, now, relay);
      } else {
        UncheckedFates(loaded, now, relay);
      }
      grants := remaining;
      r := PruneResult(expired, revoked, missing, |remaining|, relayChecked);
    }

    method Resolve(q: Query, listedAt: Time, hasAuth: bool, relay: Relay, clock: nat -> Time)
      returns (answer: Option<string>, ghost order: seq<Grant>, ghost tried: nat)
      modifies this`grants
      ensures ResolveTrace(old(grants), grants, q, listedAt, hasAuth, relay, clock, answer, order, tried)
    {
      var listed := List(listedAt);
      var matching := MatchingGrants(listed, q);
      var sorted := SortSlice(matching, LaterExpiry());
      order := sorted;
      var k := TryInOrder(sorted, hasAuth && q.networkID != "", q.networkID, relay, clock);
      tried := k;
      answer := if k < |sorted| then Some(sorted[k].token) else None;
    }

    /** The lookup loop of a resolve: refused grants are removed until one is not refused. */
    method TryInOrder(sorted: seq<Grant>, auth: bool, networkID: string, relay: Relay, clock: nat -> Time)
      returns (k: nat)
      modifies this`grants
      ensures k <= |sorted| && grants == Filter(old(grants), OutsideIDs(sorted[..k]))
      ensures k > 0 ==> auth
      ensures FirstRefused(sorted, k, networkID, relay, clock)
      ensures k < |sorted| && auth ==> !RefusedAt(sorted, k, networkID, relay, clock)
    {
      k := 0;
      ghost var before := grants;
      FilterAll(grants, OutsideIDs(sorted[..0]));
      while k < |sorted|
        invariant FirstRefused(sorted, k, networkID, relay, clock)
        invariant k > 0 ==> auth
        invariant grants == Filter(before, OutsideIDs(sorted[..k]))
      {
        if !auth || !RefusedAt(sorted, k, networkID, relay, clock) {
          return;
        }
        OneMoreRefused(sorted, k, networkID, relay, clock);
        var _ := Remove(sorted[k].grantID);
        RemoveOneMore(before, sorted, k);
        k := k + 1;
      }
    }
  }

  // ---- The loops of the store ----

  method PruneExpired(grants: seq<Grant>, now: Time) returns (pruned: seq<Grant>)
    ensures pruned == Filter(grants, Unexpired(now))
  {
    pruned := [];
    for i := 0 to |grants|
      invariant pruned == Filter(grants[..i], Unexpired(now))
    {
      FilterSnoc(grants, i, Unexpired(now));
      if now > grants[i].expiresAt {
        continue;
      }
      pruned := pruned + [grants[i]];
    }
    assert grants[..|grants|] == grants;
  }

  method MatchingGrants(grants: seq<Grant>, q: Query) returns (matching: seq<Grant>)
    ensures matching == Filter(grants, Matching(q))
  {
    matching := [];
    for i := 0 to |grants|
      invariant matching == Filter(grants[..i], Matching(q))
    {
      FilterSnoc(grants, i, Matching(q));
      var grant := grants[i];
      if TrimSpace(grant.networkID) != TrimSpace(q.networkID) {
        continue;
      }
      if TrimSpace(grant.targetNode) != TrimSpace(q.targetNode) {
        continue;
      }
      if !MatchesSession(grant, q.sessionID, q.sessionName) {
        continue;
      }
      if !AllowsVerb(grant.verbs, q.verb) {
        continue;
      }
      matching := matching + [grant];
    }
    assert grants[..|grants|] == grants;
  }

  /** Filtering that appends into the very array it ranges over (`next := grants[:0]`). */
  method CompactInPlace(a: array<Grant>, n: nat, keep: Grant -> bool) returns (w: nat)
    requires n <= a.Length
    modifies a
    ensures w <= n && a[..w] == Filter(old(a[..n]), keep)
    ensures a[n..] == old(a[n..])
  {
    w := 0;
    ghost var before := a[..n];
    for i := 0 to n
      invariant w <= i
      invariant a[..w] == Filter(before[..i], keep)
      invariant a[i..] == old(a[i..])
    {
      FilterSnoc(before, i, keep);
      assert a[i] == a[i..][0] == before[i];
      ghost var tail := a[i+1..];
      assert tail == old(a[i+1..]);
      if keep(a[i]) {
        a[w] := a[i];
        w := w + 1;
      }
    }
    assert before[..n] == before;
  }

  /** The relay's verdict on one unexpired grant, as the relay pass reads it. */
  method CheckFate(grant: Grant, now: Time, relay: Relay) returns (fate: Fate)
    requires now <= grant.expiresAt
    ensures fate == FateOf(grant, now, true, relay) && fate != Expired
  {
    var current := relay(grant.grantID, grant.networkID);
    if current.LookupFailed? {
      return if current.saysMissing then Missing else Kept;
    }
    if current.NoRecord? {
      return Missing;
    }
    fate := if current.revoked || now > current.expiresAt then Revoked else Kept;
  }

  /** The relay pass of a prune, compacting in place and counting what it drops. */
  method ValidateInPlace(a: array<Grant>, now: Time, relay: Relay) returns (w: nat, revoked: nat, missing: nat)
    requires forall i :: 0 <= i < a.Length ==> now <= a[i].expiresAt
    modifies a
    ensures w <= a.Length && a[..w] == Filter(old(a[..]), HasFate(Kept, now, true, relay))
    ensures revoked == |Filter(old(a[..]), HasFate(Revoked, now, true, relay))|
    ensures missing == |Filter(old(a[..]), HasFate(Missing, now, true, relay))|
  {
    w, revoked, missing := 0, 0, 0;
    ghost var before := a[..];
    for i := 0 to a.Length
      invariant w <= i
      invariant a[..w] == Filter(before[..i], HasFate(Kept, now, true, relay))
      invariant revoked == |Filter(before[..i], HasFate(Revoked, now, true, relay))|
      invariant missing == |Filter(before[..i], HasFate(Missing, now, true, relay))|
      invariant forall j :: i <= j < a.Length ==> a[j] == before[j]
    {
      FatesSnoc(before, i, now, relay);
      var grant := a[i];
      var fate := CheckFate(grant, now, relay);
      if fate == Missing {
        missing := missing + 1;
        continue;
      }
      if fate == Revoked {
        revoked := revoked + 1;
        continue;
      }
      a[w] := grant;
      w := w + 1;
    }
    assert before[..a.Length] == before;
  }

  // ---- Facts the loops use ----

  lemma FatesSnoc(grants: seq<Grant>, i: nat, now: Time, relay: Relay)
    requires i < |grants| && now <= grants[i].expiresAt
    ensures var fate := FateOf(grants[i], now, true, relay);
            && Filter(grants[..i+1], HasFate(Kept, now, true, relay))
               == Filter(grants[..i], HasFate(Kept, now, true, relay)) + (if fate == Kept then [grants[i]] else [])
            && |Filter(grants[..i+1], HasFate(Revoked, now, true, relay))|
               == |Filter(grants[..i], HasFate(Revoked, now, true, relay))| + (if fate == Revoked then 1 else 0)
            && |Filter(grants[..i+1], HasFate(Missing, now, true, relay))|
               == |Filter(grants[..i], HasFate(Missing, now, true, relay))| + (if fate == Missing then 1 else 0)
  {
    FilterSnoc(grants, i, HasFate(Kept, now, true, relay));
    FilterSnoc(grants, i, HasFate(Revoked, now, true, relay));
    FilterSnoc(grants, i, HasFate(Missing, now, true, relay));
  }

  lemma {:induction false} ExpiredComplement(grants: seq<Grant>, now: Time, relayChecked: bool, relay: Relay)
    ensures |grants| - |Filter(grants, Unexpired(now))| == |Filter(grants, HasFate(Expired, now, relayChecked, relay))|
  {
    if grants != [] {
      ExpiredComplement(grants[..|grants|-1], now, relayChecked, relay);
    }
  }

  lemma FateAmongUnexpired(grants: seq<Grant>, fate: Fate, now: Time, relay: Relay)
    requires fate != Expired
    ensures Filter(Filter(grants, Unexpired(now)), HasFate(fate, now, true, relay))
         == Filter(grants, HasFate(fate, now, true, relay))
  {
    FilterFilter(grants, Unexpired(now), HasFate(fate, now, true, relay), HasFate(fate, now, true, relay));
  }

  lemma UncheckedFates(grants: seq<Grant>, now: Time, relay: Relay)
    ensures Filter(grants, Unexpired(now)) == Filter(grants, HasFate(Kept, now, false, relay))
    ensures Filter(grants, HasFate(Revoked, now, false, relay)) == []
    ensures Filter(grants, HasFate(Missing, now, false, relay)) == []
  {
    FilterAgree(grants, Unexpired(now), HasFate(Kept, now, false, relay));
    FilterNone(grants, HasFate(Revoked, now, false, relay));
    FilterNone(grants, HasFate(Missing, now, false, relay));
  }

  lemma RemovalShortens(grants: seq<Grant>, grantID: string)
    ensures var kept := Filter(grants, NotTrimmedID(grantID));
            && (|kept| == |grants| ==> kept == grants)
            && (|kept| != |grants| <==> HasTrimmedID(grants, grantID))
  {
    var keep := NotTrimmedID(grantID);
    FilterShort(grants, keep);
    FilterMembers(grants, keep);
    if forall g :: g in grants ==> keep(g) {
      FilterAll(grants, keep);
    }
  }

  lemma RemoveOneMore(grants: seq<Grant>, tried: seq<Grant>, k: nat)
    requires k < |tried|
    ensures Filter(Filter(grants, OutsideIDs(tried[..k])), NotTrimmedID(tried[k].grantID))
         == Filter(grants, OutsideIDs(tried[..k+1]))
  {
    assert tried[..k+1] == tried[..k] + [tried[k]];
    FilterFilter(grants, OutsideIDs(tried[..k]), NotTrimmedID(tried[k].grantID), OutsideIDs(tried[..k+1]));
  }
}
