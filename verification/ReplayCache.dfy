/** The cache of consumed credential ids. Times are integers (nanoseconds). */
module ReplayCache {
  import opened Results
  import opened Text

  type Time = int

  const MAX_CLOCK_SKEW: Time := 30_000_000_000
  const NUL: char := '\0'

  datatype TokenKind = Runtime | Sender | Observer

  function KindName(kind: TokenKind): string {
    match kind
    case Runtime => "runtime"
    case Sender => "sender"
    case Observer => "observer"
  }

  lemma KindNameIsPlain(kind: TokenKind)
    ensures TrimSpace(KindName(kind)) == KindName(kind)
    ensures NUL !in KindName(kind)
  {
    var name := KindName(kind);
    assert name != "" && !IsSpace(name[0]) && !IsSpace(name[|name|-1]);
    TrimSpaceFixes(name);
  }

  /** The claims that verification and replay detection look at. */
  datatype Claims = Claims(kind: string, networkID: string, keyID: string, issuedAt: Time, expiresAt: Time, jti: string)

  datatype Outcome = Accepted | ReplayDetected | IncompleteKey | NilClaims

  /** What is remembered: for each key, the instant until which a second use is refused. */
  type Seen = map<string, Time>

  datatype Attempt = Attempt(kind: string, networkID: string, jti: string, expiresAt: Time, now: Time)

  function ClaimsAttempt(kind: TokenKind, claims: Claims, now: Time): Attempt {
    Attempt(KindName(kind), claims.networkID, claims.jti, claims.expiresAt, now)
  }

  function JoinedKey(kind: string, networkID: string, jti: string): string {
    kind + [NUL] + networkID + [NUL] + jti
  }

  function KeyOf(a: Attempt): string {
    JoinedKey(TrimSpace(a.kind), TrimSpace(a.networkID), TrimSpace(a.jti))
  }

  predicate Complete(a: Attempt) {
    TrimSpace(a.kind) != "" && TrimSpace(a.jti) != ""
  }

  function Limit(a: Attempt): Time {
    a.expiresAt + MAX_CLOCK_SKEW
  }

  function Purge(seen: Seen, now: Time): Seen {
    map key | key in seen && now <= seen[key] :: seen[key]
  }

  function RememberKey(seen: Seen, key: string, limit: Time, now: Time): (Seen, Outcome) {
    if key in seen && now < seen[key] then (seen, ReplayDetected) else (seen[key := limit], Accepted)
  }

  /** Check and record, without forgetting anything. */
  function Remember(seen: Seen, a: Attempt): (Seen, Outcome) {
    if !Complete(a) then (seen, IncompleteKey) else RememberKey(seen, KeyOf(a), Limit(a), a.now)
  }

  function Consumed(seen: Seen, a: Attempt): (Seen, Outcome) {
    if !Complete(a) then (seen, IncompleteKey) else Remember(Purge(seen, a.now), a)
  }

  class Cache {
    var seen: Seen

    constructor ()
      ensures seen == map[]
    {
      seen := map[];
    }

    method Consume(kind: string, networkID: string, jti: string, expiresAt: Time, now: Time) returns (outcome: Outcome)
      modifies this
      ensures (seen, outcome) == Consumed(old(seen), Attempt(kind, networkID, jti, expiresAt, now))
      ensures outcome == IncompleteKey || outcome == ReplayDetected || outcome == Accepted
      ensures outcome == IncompleteKey <==> TrimSpace(kind) == "" || TrimSpace(jti) == ""
      ensures outcome == IncompleteKey ==> seen == old(seen)
      ensures var key := TrimSpace(kind) + "\0" + TrimSpace(networkID) + "\0" + TrimSpace(jti);
              && (outcome == ReplayDetected ==> key in old(seen) && now < old(seen)[key])
              && (outcome == Accepted ==>
                    && (key in old(seen) ==> old(seen)[key] <= now)
                    && key in seen && seen[key] == expiresAt + 30_000_000_000)
              && forall k :: outcome != IncompleteKey && (outcome == ReplayDetected || k != key) ==>
                   (k in seen <==> k in old(seen) && now <= old(seen)[k]) && (k in seen ==> seen[k] == old(seen)[k])
    {
      var k, network, id := TrimSpace(kind), TrimSpace(networkID), TrimSpace(jti);
      if k == "" || id == "" {
        return IncompleteKey;
      }

      var keys := seen.Keys;
      while keys != {}
        invariant keys <= old(seen).Keys
        invariant seen == map key | key in old(seen) && (key in keys || now <= old(seen)[key]) :: old(seen)[key]
        decreases keys
      {
        var key :| key in keys;
        keys := keys - {key};
        if now > seen[key] {
          seen := seen - {key};
        }
      }
      assert seen == Purge(old(seen), now);

      var key := JoinedKey(k, network, id);
      if key in seen && now < seen[key] {
        return ReplayDetected;
      }
      seen := seen[key := expiresAt + MAX_CLOCK_SKEW];
      outcome := Accepted;
    }

    /** ConsumeRuntime, ConsumeSender and ConsumeObserver differ only in the kind they pass on. */
    method ConsumeClaims(kind: TokenKind, claims: Option<Claims>, now: Time) returns (outcome: Outcome)
      modifies this
      ensures claims.None? ==> outcome == NilClaims && seen == old(seen)
      ensures claims.Some? ==>
                (seen, outcome) == Consumed(old(seen), ClaimsAttempt(kind, claims.value, now))
      ensures claims.Some? ==>
                var name := if kind == Runtime then "runtime" else if kind == Sender then "sender" else "observer";
                && (outcome == ReplayDetected || outcome == Accepted || TrimSpace(claims.value.jti) == "")
                && (outcome == Accepted ==>
                      var key := name + "\0" + TrimSpace(claims.value.networkID) + "\0" + TrimSpace(claims.value.jti);
                      key in seen && seen[key] == claims.value.expiresAt + 30_000_000_000)
    {
      if claims.None? {
        return NilClaims;
      }
      var c := claims.value;
      KindNameIsPlain(kind);
      outcome := Consume(KindName(kind), c.networkID, c.jti, c.expiresAt, now);
    }
  }

  // ---- Forgetting is unobservable ----

  function Answers(seen: Seen, attempts: seq<Attempt>): seq<Outcome>
    decreases |attempts|
  {
    if attempts == [] then []
    else [Consumed(seen, attempts[0]).1] + Answers(Consumed(seen, attempts[0]).0, attempts[1..])
  }

  function AnswersNeverForgetting(seen: Seen, attempts: seq<Attempt>): seq<Outcome>
    decreases |attempts|
  {
    if attempts == [] then []
    else [Remember(seen, attempts[0]).1] + AnswersNeverForgetting(Remember(seen, attempts[0]).0, attempts[1..])
  }

  predicate NondecreasingClock(attempts: seq<Attempt>) {
    forall i, j :: 0 <= i < j < |attempts| ==> attempts[i].now <= attempts[j].now
  }

  /** The recorded keys whose limit some clock reading since the recording lies beyond. */
  function PassedAfter(full: Seen, passed: set<string>, a: Attempt): set<string> {
    if !Complete(a) then passed else PassedAfterKey(full, passed, KeyOf(a), Limit(a), a.now)
  }

  function PassedAfterKey(full: Seen, passed: set<string>, key: string, limit: Time, now: Time): set<string> {
    var p := passed + set k | k in full && full[k] < now;
    if RememberKey(full, key, limit, now).1 == Accepted then p - {key} else p
  }

  /** Some attempt reads the clock before the limit recorded for its key, although the clock had
      already been read beyond that limit. */
  predicate ClockStepsBack(full: Seen, passed: set<string>, attempts: seq<Attempt>)
    decreases |attempts|
  {
    attempts != [] &&
    var a := attempts[0];
    || (Complete(a) && KeyOf(a) in passed && KeyOf(a) in full && a.now < full[KeyOf(a)])
    || ClockStepsBack(Remember(full, a).0, PassedAfter(full, passed, a), attempts[1..])
  }

  lemma KeyStepAgrees(full: Seen, passed: set<string>, key: string, limit: Time, now: Time)
    requires passed <= full.Keys
    ensures var stepsBack := key in passed && now < full[key];
            var purged := RememberKey(Purge(full - passed, now), key, limit, now);
            var kept := RememberKey(full, key, limit, now);
            && (purged.1 == kept.1 <==> !stepsBack)
            && (!stepsBack ==>
                  && PassedAfterKey(full, passed, key, limit, now) <= kept.0.Keys
                  && purged.0 == kept.0 - PassedAfterKey(full, passed, key, limit, now))
  {
    var p := passed + set k | k in full && full[k] < now;
    assert Purge(full - passed, now) == full - p;
  }

  lemma StepAgrees(full: Seen, passed: set<string>, a: Attempt)
    requires passed <= full.Keys
    ensures var stepsBack := Complete(a) && KeyOf(a) in passed && a.now < full[KeyOf(a)];
            && (Consumed(full - passed, a).1 == Remember(full, a).1 <==> !stepsBack)
            && (!stepsBack ==>
                  && PassedAfter(full, passed, a) <= Remember(full, a).0.Keys
                  && Consumed(full - passed, a).0 == Remember(full, a).0 - PassedAfter(full, passed, a))
  {
    if Complete(a) {
      KeyStepAgrees(full, passed, KeyOf(a), Limit(a), a.now);
    }
  }

  /** For every run, whatever its clock does: purging changes some answer exactly when the clock steps back. */
  lemma {:induction false} ForgettingObservableIff(full: Seen, passed: set<string>, attempts: seq<Attempt>)
    requires passed <= full.Keys
    ensures Answers(full - passed, attempts) == AnswersNeverForgetting(full, attempts)
            <==> !ClockStepsBack(full, passed, attempts)
    decreases |attempts|
  {
    if attempts != [] {
      var a := attempts[0];
      StepAgrees(full, passed, a);
      var purged, kept := Answers(full - passed, attempts), AnswersNeverForgetting(full, attempts);
      if Consumed(full - passed, a).1 != Remember(full, a).1 {
        assert purged[0] != kept[0];
      } else {
        ForgettingObservableIff(Remember(full, a).0, PassedAfter(full, passed, a), attempts[1..]);
        assert purged[1..] == Answers(Consumed(full - passed, a).0, attempts[1..]);
        assert kept[1..] == AnswersNeverForgetting(Remember(full, a).0, attempts[1..]);
      }
    }
  }

  lemma {:induction false} NondecreasingNeverStepsBack(full: Seen, passed: set<string>, attempts: seq<Attempt>)
    requires NondecreasingClock(attempts)
    requires forall key, i :: key in passed && key in full && 0 <= i < |attempts| ==> full[key] < attempts[i].now
    ensures !ClockStepsBack(full, passed, attempts)
    decreases |attempts|
  {
    if attempts != [] {
      var a := attempts[0];
      forall key, i | key in PassedAfter(full, passed, a) && key in Remember(full, a).0 && 0 <= i < |attempts[1..]|
        ensures Remember(full, a).0[key] < attempts[1..][i].now
      {
        assert attempts[1..][i] == attempts[i + 1];
      }
      NondecreasingNeverStepsBack(Remember(full, a).0, PassedAfter(full, passed, a), attempts[1..]);
    }
  }

  /** Under a nondecreasing clock the purging cache answers every run as one that never forgets. */
  lemma ForgettingUnobservable(attempts: seq<Attempt>)
    requires NondecreasingClock(attempts)
    ensures Answers(map[], attempts) == AnswersNeverForgetting(map[], attempts)
  {
    NondecreasingNeverStepsBack(map[], {}, attempts);
    ForgettingObservableIff(map[], {}, attempts);
    var none: Seen := map[];
    assert none - {} == none;
  }

  /** Such a run: a key is consumed, another attempt reads the clock beyond the limit, and the key is
      used again at a reading before it. The purging cache accepts; one that never forgets does not. */
  lemma SteppingBackForgets(first: Attempt, other: Attempt, again: Attempt)
    requires Complete(first) && Complete(other) && Complete(again)
    requires KeyOf(first) == KeyOf(again) != KeyOf(other)
    requires again.now < Limit(first) < other.now
    ensures Answers(map[], [first, other, again]) == [Accepted, Accepted, Accepted]
    ensures AnswersNeverForgetting(map[], [first, other, again]) == [Accepted, Accepted, ReplayDetected]
  {
    var attempts := [first, other, again];
    assert attempts[1..] == [other, again] && [other, again][1..] == [again] && [again][1..] == [];
    var none: Seen := map[];
    var one := none[KeyOf(first) := Limit(first)];
    var two := one[KeyOf(other) := Limit(other)];
    assert Consumed(none, first) == Remember(none, first) == (one, Accepted);
    assert Consumed(one, other).1 == Accepted && KeyOf(first) !in Consumed(one, other).0;
    assert Remember(one, other) == (two, Accepted);
    AnswersOfThree(none, first, other, again);
  }

  lemma AnswersOfThree(seen: Seen, a: Attempt, b: Attempt, c: Attempt)
    ensures var s1, t1 := Consumed(seen, a), Remember(seen, a);
            var s2, t2 := Consumed(s1.0, b), Remember(t1.0, b);
            && Answers(seen, [a, b, c]) == [s1.1, s2.1, Consumed(s2.0, c).1]
            && AnswersNeverForgetting(seen, [a, b, c]) == [t1.1, t2.1, Remember(t2.0, c).1]
  {
    assert [a, b, c][1..] == [b, c] && [b, c][1..] == [c] && [c][1..] == [];
    var s1, t1 := Consumed(seen, a), Remember(seen, a);
    var s2, t2 := Consumed(s1.0, b), Remember(t1.0, b);
    assert Answers(s2.0, [c]) == [Consumed(s2.0, c).1] + Answers(Consumed(s2.0, c).0, []);
    assert AnswersNeverForgetting(t2.0, [c]) == [Remember(t2.0, c).1] + AnswersNeverForgetting(Remember(t2.0, c).0, []);
    assert Answers(s1.0, [b, c]) == [s2.1, Consumed(s2.0, c).1];
    assert AnswersNeverForgetting(t1.0, [b, c]) == [t2.1, Remember(t2.0, c).1];
  }

  // ---- The joined key ----

  /** One network id continues the other with a NUL, and not with white space behind it. */
  predicate Continues(short: string, long: string) {
    short + [NUL] <= long && (|short| + 1 < |long| ==> !IsSpace(long[|short| + 1]))
  }

  predicate Overlap(network1: string, network2: string) {
    Continues(network1, network2) || Continues(network2, network1)
  }

  lemma ShorterContinues(network1: string, jti1: string, network2: string, jti2: string)
    requires network1 + [NUL] + jti1 == network2 + [NUL] + jti2 && Trimmed(jti1) && |network1| < |network2|
    ensures Continues(network1, network2)
  {
    var whole := network1 + [NUL] + jti1;
    assert network2 == whole[..|network2|];
    assert whole[|network1|] == NUL;
    assert network1 + [NUL] == whole[..|network1| + 1] == network2[..|network1| + 1];
    if |network1| + 1 < |network2| {
      assert network2[|network1| + 1] == whole[|network1| + 1] == jti1[0];
    }
  }

  /** One key names one (kind, network, id), for kinds without NUL and networks that do not overlap. */
  lemma JoinedKeyInjective(kind1: string, network1: string, jti1: string, kind2: string, network2: string, jti2: string)
    requires NUL !in kind1 && NUL !in kind2 && Trimmed(jti1) && Trimmed(jti2)
    requires !(kind1 == kind2 && Overlap(network1, network2))
    ensures JoinedKey(kind1, network1, jti1) == JoinedKey(kind2, network2, jti2)
            <==> kind1 == kind2 && network1 == network2 && jti1 == jti2
  {
    if JoinedKey(kind1, network1, jti1) == JoinedKey(kind2, network2, jti2) {
      var rest1, rest2 := network1 + [NUL] + jti1, network2 + [NUL] + jti2;
      assert JoinedKey(kind1, network1, jti1) == kind1 + [NUL] + rest1;
      assert JoinedKey(kind2, network2, jti2) == kind2 + [NUL] + rest2;
      FirstSeparatorUnique(kind1, kind2, rest1, rest2, NUL);
      if |network1| < |network2| {
        ShorterContinues(network1, jti1, network2, jti2);
      } else if |network2| < |network1| {
        ShorterContinues(network2, jti2, network1, jti1);
      } else {
        assert network1 == rest1[..|network1|] == network2;
        assert jti1 == rest1[|network1| + 1..] == jti2;
      }
    }
  }

  /** Some ids, trimmed and nonempty as the cache joins them, make different credentials of these kinds
      and networks share a key. */
  ghost predicate CanCollide(kind1: string, network1: string, kind2: string, network2: string) {
    exists jti1, jti2 ::
      && Trimmed(jti1) && jti1 != "" && Trimmed(jti2) && jti2 != ""
      && (kind1, network1, jti1) != (kind2, network2, jti2)
      && JoinedKey(kind1, network1, jti1) == JoinedKey(kind2, network2, jti2)
  }

  /** Exactly when that is possible: they are of one kind and their networks overlap. */
  lemma CanCollideIff(kind1: string, network1: string, kind2: string, network2: string)
    requires NUL !in kind1 && NUL !in kind2
    ensures CanCollide(kind1, network1, kind2, network2) <==> kind1 == kind2 && Overlap(network1, network2)
  {
    if kind1 == kind2 && Continues(network1, network2) {
      ContinuedCollides(kind1, network1, network2);
    } else if kind1 == kind2 && Continues(network2, network1) {
      ContinuedCollides(kind1, network2, network1);
    } else {
      forall jti1, jti2 |
        JoinedKey(kind1, network1, jti1) == JoinedKey(kind2, network2, jti2) && Trimmed(jti1) && Trimmed(jti2)
        ensures (kind1, network1, jti1) == (kind2, network2, jti2)
      {
        JoinedKeyInjective(kind1, network1, jti1, kind2, network2, jti2);
      }
    }
  }

  lemma ContinuedCollides(kind: string, short: string, long: string)
    requires Continues(short, long)
    ensures CanCollide(kind, short, kind, long) && CanCollide(kind, long, kind, short)
  {
    var rest := long[|short| + 1..];
    var id := rest + [NUL] + "c";
    assert long == short + [NUL] + rest && short != long;
    assert Trimmed(id) && Trimmed("c");
    assert JoinedKey(kind, long, "c") == JoinedKey(kind, short, id);
  }
}
