/** The demo broker's pool of warm pods: one replenisher, visitors and a reaper, each critical section
    one step under the pool's mutex. Pod names and tokens are fresh; times are integers. */
module WarmPool {
  import opened Results

  type Time = int

  datatype Pod = Pod(name: string, ip: string, token: string, createdAt: Time)

  type Assignments = map<string, Pod>

  predicate Expired(pod: Pod, now: Time, maxAge: Time) {
    now - pod.createdAt > maxAge
  }

  /** The clock reading made for each token. */
  type Clock = string -> Time

  function Unreaped(inUse: Assignments, now: Clock, maxAge: Time): Assignments {
    map token | token in inUse && !Expired(inUse[token], now(token), maxAge) :: inUse[token]
  }

  function Reaped(inUse: Assignments, now: Clock, maxAge: Time): set<Pod> {
    set token | token in inUse && Expired(inUse[token], now(token), maxAge) :: inUse[token]
  }

  function Need(poolSize: int, warm: seq<Pod>): nat {
    if poolSize > |warm| then poolSize - |warm| else 0
  }

  class Pool {
    const poolSize: int
    const maxAge: Time
    var warm: seq<Pod>
    var inUse: Assignments

    constructor (poolSize: int, maxAge: Time)
      ensures this.poolSize == poolSize && this.maxAge == maxAge && warm == [] && inUse == map[]
    {
      this.poolSize := poolSize;
      this.maxAge := maxAge;
      warm, inUse := [], map[];
    }

    /** The first critical section of replenish: how many pods the call will try to create. */
    method CountNeeded() returns (need: nat)
      ensures need == Need(poolSize, warm)
      ensures if |warm| <= poolSize then |warm| + need == poolSize else need == 0
    {
      var missing := poolSize - |warm|;
      need := if missing > 0 then missing else 0;
    }

    /** The last critical section of createPod. */
    method AppendReady(pod: Pod)
      modifies this`warm
      ensures warm == old(warm) + [pod]
    {
      warm := warm + [pod];
    }

    method Assign(token: string) returns (r: Option<Pod>)
      modifies this
      ensures old(warm) == [] ==> r == None && warm == [] && inUse == old(inUse)
      ensures old(warm) != [] ==>
                && r == Some(old(warm)[0].(token := token))
                && warm == old(warm)[1..] && inUse == old(inUse)[token := r.value]
    {
      if |warm| == 0 {
        return None;
      }
      var pod := warm[0];
      warm := warm[1..];
      pod := pod.(token := token);
      inUse := inUse[pod.token := pod];
      r := Some(pod);
    }

    method Lookup(token: string) returns (r: Option<Pod>)
      ensures r == if token in inUse then Some(inUse[token]) else None
    {
      if token !in inUse {
        return None;
      }
      r := Some(inUse[token]);
    }

    /** Collect the expired tokens, then drop them and hand their pods to deletion. */
    method ReapExpired(now: Clock) returns (deleted: set<Pod>)
      modifies this`inUse
      ensures inUse == Unreaped(old(inUse), now, maxAge)
      ensures deleted == Reaped(old(inUse), now, maxAge)
      ensures forall t :: t in inUse <==> t in old(inUse) && now(t) - old(inUse)[t].createdAt <= maxAge
      ensures forall t :: t in inUse ==> inUse[t] == old(inUse)[t]
      ensures forall p :: p in deleted
                <==> exists t :: t in old(inUse) && old(inUse)[t] == p && now(t) - p.createdAt > maxAge
    {
      var expired: set<string> := {};
      var tokens := inUse.Keys;
      while tokens != {}
        invariant tokens <= inUse.Keys
        invariant expired == set t | t in inUse && t !in tokens && Expired(inUse[t], now(t), maxAge)
        decreases tokens
      {
        var token :| token in tokens;
        tokens := tokens - {token};
        if Expired(inUse[token], now(token), maxAge) {
          expired := expired + {token};
        }
      }
      deleted := {};
      ghost var all := expired;
      while expired != {}
        invariant expired <= all
        invariant inUse == map t | t in old(inUse) && (t in expired || t !in all) :: old(inUse)[t]
        invariant deleted == set t | t in old(inUse) && t in all && t !in expired :: old(inUse)[t]
        decreases expired
      {
        var token :| token in expired;
        var pod := inUse[token];
        inUse := inUse - {token};
        deleted := deleted + {pod};
        expired := expired - {token};
      }
    }
  }

  // ---- Runs ----

  /** The pool with its history: `outstanding` creates are left in the running replenish call, `ready`
      lists the pods in the order they were appended, `handed` those assigned in the order they were,
      and `deleted` those handed to deletion. */
  datatype State = State(
    warm: seq<Pod>, inUse: Assignments, outstanding: nat, ready: seq<Pod>, handed: seq<Pod>, deleted: set<Pod>)

  const EMPTY := State([], map[], 0, [], [], {})

  datatype Act =
    | Replenish
    | CreateReady(pod: Pod)
    | CreateFailed
    | Assign(token: string)
    | Reap(now: Clock)

  predicate FreshName(s: State, name: string) {
    forall i :: 0 <= i < |s.ready| ==> s.ready[i].name != name
  }

  predicate FreshToken(s: State, token: string) {
    forall i :: 0 <= i < |s.handed| ==> s.handed[i].token != token
  }

  predicate Enabled(s: State, a: Act) {
    match a
    case Replenish => s.outstanding == 0
    case CreateReady(pod) => s.outstanding > 0 && pod.token == "" && FreshName(s, pod.name)
    case CreateFailed => s.outstanding > 0
    case Assign(token) => s.warm != [] && FreshToken(s, token)
    case Reap(_) => true
  }

  function Apply(poolSize: int, maxAge: Time, s: State, a: Act): State
    requires Enabled(s, a)
  {
    match a
    case Replenish => s.(outstanding := Need(poolSize, s.warm))
    case CreateReady(pod) => s.(warm := s.warm + [pod], outstanding := s.outstanding - 1, ready := s.ready + [pod])
    case CreateFailed => s.(outstanding := 0)
    case Assign(token) =>
      var pod := s.warm[0].(token := token);
      s.(warm := s.warm[1..], inUse := s.inUse[token := pod], handed := s.handed + [pod])
    case Reap(now) =>
      s.(inUse := Unreaped(s.inUse, now, maxAge), deleted := s.deleted + Reaped(s.inUse, now, maxAge))
  }

  /** The methods of the pool perform the steps: each leaves the queue and the assignments of the next state. */
  method Perform(pool: Pool, ghost s: State, a: Act) returns (ghost t: State)
    requires Enabled(s, a) && pool.warm == s.warm && pool.inUse == s.inUse
    modifies pool
    ensures t == Apply(pool.poolSize, pool.maxAge, s, a) && pool.warm == t.warm && pool.inUse == t.inUse
  {
    t := Apply(pool.poolSize, pool.maxAge, s, a);
    match a {
      case Replenish =>
        var need := pool.CountNeeded();
        assert t.outstanding == need;
      case CreateReady(pod) => pool.AppendReady(pod);
      case CreateFailed =>
      case Assign(token) =>
        var pod := pool.Assign(token);
        assert t.handed == s.handed + [pod.value];
      case Reap(now) =>
        var deleted := pool.ReapExpired(now);
        assert t.deleted == s.deleted + deleted;
    }
  }

  predicate Legal(poolSize: int, maxAge: Time, s: State, acts: seq<Act>)
    decreases |acts|
  {
    acts == [] || (Enabled(s, acts[0]) && Legal(poolSize, maxAge, Apply(poolSize, maxAge, s, acts[0]), acts[1..]))
  }

  function RunOf(poolSize: int, maxAge: Time, s: State, acts: seq<Act>): State
    requires Legal(poolSize, maxAge, s, acts)
    decreases |acts|
  {
    if acts == [] then s else RunOf(poolSize, maxAge, Apply(poolSize, maxAge, s, acts[0]), acts[1..])
  }

  // ---- The invariant ----

  /** Warm pods and outstanding creates fit the pool. */
  predicate Bounded(poolSize: int, s: State) {
    |s.warm| + s.outstanding <= (if poolSize > 0 then poolSize else 0)
  }

  /** What became ready is what was handed out, in that order, followed by what is still warm. */
  predicate FirstInFirstOut(s: State) {
    && |s.ready| == |s.handed| + |s.warm|
    && (forall i :: 0 <= i < |s.handed| ==> s.handed[i].(token := "") == s.ready[i])
    && s.warm == s.ready[|s.handed|..]
    && (forall i :: 0 <= i < |s.ready| ==> s.ready[i].token == "")
  }

  predicate FreshHistory(s: State) {
    && (forall i, j :: 0 <= i < j < |s.ready| ==> s.ready[i].name != s.ready[j].name)
    && (forall i, j :: 0 <= i < j < |s.handed| ==> s.handed[i].token != s.handed[j].token)
  }

  /** A handed-out pod is under its own token or deleted, never both; nothing else is assigned or deleted. */
  predicate Accounted(s: State) {
    && (forall p :: p in s.handed ==> (p.token in s.inUse && s.inUse[p.token] == p <==> p !in s.deleted))
    && (forall t :: t in s.inUse ==> s.inUse[t] in s.handed && s.inUse[t].token == t)
    && (forall p :: p in s.deleted ==> p in s.handed)
  }

  predicate Inv(poolSize: int, s: State) {
    Bounded(poolSize, s) && FirstInFirstOut(s) && FreshHistory(s) && Accounted(s)
  }

  lemma AssignKeepsOrder(poolSize: int, maxAge: Time, s: State, token: string)
    requires Inv(poolSize, s) && Enabled(s, Assign(token))
    ensures var t := Apply(poolSize, maxAge, s, Assign(token));
            Bounded(poolSize, t) && FirstInFirstOut(t) && FreshHistory(t)
  {
    assert s.warm[0] == s.ready[|s.handed|];
    assert s.warm[1..] == s.ready[|s.handed| + 1..];
  }

  lemma StepKeepsOrder(poolSize: int, maxAge: Time, s: State, a: Act)
    requires Inv(poolSize, s) && Enabled(s, a)
    ensures var t := Apply(poolSize, maxAge, s, a);
            Bounded(poolSize, t) && FirstInFirstOut(t) && FreshHistory(t)
  {
    match a
    case Assign(token) => AssignKeepsOrder(poolSize, maxAge, s, token);
    case CreateReady(pod) => assert (s.ready + [pod])[|s.handed|..] == s.warm + [pod];
    case _ =>
  }

  lemma StepKeepsAccounts(poolSize: int, maxAge: Time, s: State, a: Act)
    requires Inv(poolSize, s) && Enabled(s, a)
    ensures Accounted(Apply(poolSize, maxAge, s, a))
  {
    var t := Apply(poolSize, maxAge, s, a);
    match a
    case Assign(token) =>
      var pod := s.warm[0].(token := token);
      assert forall p :: p in s.handed ==> p.token != token;
      assert forall p :: p in t.handed <==> p in s.handed || p == pod;
    case Reap(now) =>
      forall p | p in s.handed
        ensures p.token in t.inUse && t.inUse[p.token] == p <==> p !in t.deleted
      {
        if p.token in s.inUse && s.inUse[p.token] == p && Expired(p, now(p.token), maxAge) {
          assert p in Reaped(s.inUse, now, maxAge);
        }
      }
    case _ =>
  }

  lemma {:induction false} RunKeepsInv(poolSize: int, maxAge: Time, s: State, acts: seq<Act>)
    requires Inv(poolSize, s) && Legal(poolSize, maxAge, s, acts)
    ensures Inv(poolSize, RunOf(poolSize, maxAge, s, acts))
    decreases |acts|
  {
    if acts != [] {
      StepKeepsOrder(poolSize, maxAge, s, acts[0]);
      StepKeepsAccounts(poolSize, maxAge, s, acts[0]);
      RunKeepsInv(poolSize, maxAge, Apply(poolSize, maxAge, s, acts[0]), acts[1..]);
    }
  }

  // ---- Pool safety ----

  predicate IsWarm(s: State, name: string) {
    exists i :: 0 <= i < |s.warm| && s.warm[i].name == name
  }

  predicate IsAssigned(s: State, name: string) {
    exists t :: t in s.inUse && s.inUse[t].name == name
  }

  predicate IsDeleted(s: State, name: string) {
    exists p :: p in s.deleted && p.name == name
  }

  predicate ExactlyOne(a: bool, b: bool, c: bool) {
    (a || b || c) && !(a && b) && !(a && c) && !(b && c)
  }

  /** Over every interleaving: warm pods and outstanding creates stay within the pool size, and every
      pod that became ready is warm, under one token, or handed to deletion, and only one of these. */
  lemma PoolIsSafe(poolSize: int, maxAge: Time, acts: seq<Act>, k: nat)
    requires Legal(poolSize, maxAge, EMPTY, acts) && k < |RunOf(poolSize, maxAge, EMPTY, acts).ready|
    ensures var s := RunOf(poolSize, maxAge, EMPTY, acts);
            var name := s.ready[k].name;
            && |s.warm| + s.outstanding <= (if poolSize > 0 then poolSize else 0)
            && ExactlyOne(IsWarm(s, name), IsAssigned(s, name), IsDeleted(s, name))
            && forall t, u :: t in s.inUse && u in s.inUse && s.inUse[t].name == s.inUse[u].name == name ==> t == u
  {
    RunKeepsInv(poolSize, maxAge, EMPTY, acts);
    PodIsInOnePlace(poolSize, RunOf(poolSize, maxAge, EMPTY, acts), k);
  }

  /** A handed-out pod's place in the ready order. */
  lemma HandedByName(s: State, p: Pod, k: nat)
    requires FirstInFirstOut(s) && FreshHistory(s) && p in s.handed && k < |s.ready| && p.name == s.ready[k].name
    ensures k < |s.handed| && p == s.handed[k]
  {
    var i :| 0 <= i < |s.handed| && s.handed[i] == p;
    assert s.handed[i].(token := "") == s.ready[i];
    assert i == k;
  }

  lemma PodIsInOnePlace(poolSize: int, s: State, k: nat)
    requires Inv(poolSize, s) && k < |s.ready|
    ensures var name := s.ready[k].name;
            && ExactlyOne(IsWarm(s, name), IsAssigned(s, name), IsDeleted(s, name))
            && forall t, u :: t in s.inUse && u in s.inUse && s.inUse[t].name == s.inUse[u].name == name ==> t == u
  {
    var name := s.ready[k].name;
    var h := |s.handed|;
    forall p | p in s.handed && p.name == name ensures k < h && p == s.handed[k] {
      HandedByName(s, p, k);
    }
    assert IsWarm(s, name) <==> k >= h by {
      if k >= h {
        assert s.warm[k - h] == s.ready[k];
      }
      if IsWarm(s, name) {
        var i :| 0 <= i < |s.warm| && s.warm[i].name == name;
        assert s.ready[h + i].name == name;
      }
    }
    if k < h {
      var p := s.handed[k];
      assert p in s.handed && p.(token := "") == s.ready[k];
    }
  }

  // ---- Order and tokens ----

  /** Pods are assigned in the order they became ready: the i-th assignment takes the i-th ready pod. */
  lemma AssignedInReadyOrder(poolSize: int, maxAge: Time, acts: seq<Act>)
    requires Legal(poolSize, maxAge, EMPTY, acts)
    ensures var s := RunOf(poolSize, maxAge, EMPTY, acts);
            && |s.handed| <= |s.ready|
            && forall i :: 0 <= i < |s.handed| ==> s.handed[i].name == s.ready[i].name
  {
    RunKeepsInv(poolSize, maxAge, EMPTY, acts);
    var s := RunOf(poolSize, maxAge, EMPTY, acts);
    forall i | 0 <= i < |s.handed| ensures s.handed[i].name == s.ready[i].name {
      assert s.handed[i].(token := "") == s.ready[i];
    }
  }

  predicate Issued(s: State, token: string) {
    exists i :: 0 <= i < |s.handed| && s.handed[i].token == token
  }

  lemma StepKeepsTokens(poolSize: int, maxAge: Time, s: State, a: Act, token: string)
    requires Inv(poolSize, s) && Enabled(s, a) && Issued(s, token)
    ensures var t := Apply(poolSize, maxAge, s, a);
            && Issued(t, token)
            && (token in t.inUse ==> token in s.inUse && t.inUse[token] == s.inUse[token])
            && (token in s.inUse && token !in t.inUse
                <==> token in s.inUse && a.Reap? && a.now(token) - s.inUse[token].createdAt > maxAge)
  {
    var t := Apply(poolSize, maxAge, s, a);
    var i :| 0 <= i < |s.handed| && s.handed[i].token == token;
    assert t.handed[i] == s.handed[i];
  }

  /** Once issued, a token resolves to the same pod until it is reaped, and never again after. */
  lemma {:induction false} TokenResolvesToOnePod(poolSize: int, maxAge: Time, s: State, acts: seq<Act>, token: string)
    requires Inv(poolSize, s) && Legal(poolSize, maxAge, s, acts) && Issued(s, token)
    ensures var t := RunOf(poolSize, maxAge, s, acts);
            token in t.inUse ==> token in s.inUse && t.inUse[token] == s.inUse[token]
    decreases |acts|
  {
    if acts != [] {
      StepKeepsTokens(poolSize, maxAge, s, acts[0], token);
      StepKeepsOrder(poolSize, maxAge, s, acts[0]);
      StepKeepsAccounts(poolSize, maxAge, s, acts[0]);
      TokenResolvesToOnePod(poolSize, maxAge, Apply(poolSize, maxAge, s, acts[0]), acts[1..], token);
    }
  }

  /** The steps that create these pods one after the other. */
  function Creates(pods: seq<Pod>): seq<Act> {
    if pods == [] then [] else [CreateReady(pods[0])] + Creates(pods[1..])
  }

  /** Pods that may be created next, each under a name of its own. */
  predicate FreshPods(s: State, pods: seq<Pod>) {
    && (forall i :: 0 <= i < |pods| ==> pods[i].token == "" && FreshName(s, pods[i].name))
    && (forall i, j :: 0 <= i < j < |pods| ==> pods[i].name != pods[j].name)
  }

  lemma CreateKeepsFresh(poolSize: int, maxAge: Time, s: State, pods: seq<Pod>)
    requires s.outstanding > 0 && pods != [] && FreshPods(s, pods)
    ensures FreshPods(Apply(poolSize, maxAge, s, CreateReady(pods[0])), pods[1..])
  {
  }

  lemma StepThenRun(poolSize: int, maxAge: Time, s: State, a: Act, rest: seq<Act>)
    requires Enabled(s, a) && Legal(poolSize, maxAge, Apply(poolSize, maxAge, s, a), rest)
    ensures Legal(poolSize, maxAge, s, [a] + rest)
    ensures RunOf(poolSize, maxAge, s, [a] + rest) == RunOf(poolSize, maxAge, Apply(poolSize, maxAge, s, a), rest)
  {
    assert ([a] + rest)[1..] == rest;
  }

  lemma {:induction false} CreatesRun(poolSize: int, maxAge: Time, s: State, pods: seq<Pod>)
    requires |pods| == s.outstanding && FreshPods(s, pods)
    ensures Legal(poolSize, maxAge, s, Creates(pods))
    ensures RunOf(poolSize, maxAge, s, Creates(pods)).warm == s.warm + pods
    ensures RunOf(poolSize, maxAge, s, Creates(pods)).outstanding == 0
    decreases |pods|
  {
    if pods == [] {
      assert s.warm + pods == s.warm;
    } else {
      var a := CreateReady(pods[0]);
      var t := Apply(poolSize, maxAge, s, a);
      CreateKeepsFresh(poolSize, maxAge, s, pods);
      CreatesRun(poolSize, maxAge, t, pods[1..]);
      StepThenRun(poolSize, maxAge, s, a, Creates(pods[1..]));
      assert t.warm + pods[1..] == s.warm + pods;
    }
  }

  /** A replenish call whose creates all succeed fills the pool: with as many new pods as it asks for,
      a queue below the pool size reaches it exactly. */
  lemma ReplenishFills(poolSize: int, maxAge: Time, s: State, pods: seq<Pod>)
    requires s.outstanding == 0 && |s.warm| + |pods| == poolSize && FreshPods(s, pods)
    ensures var acts := [Replenish] + Creates(pods);
            && Legal(poolSize, maxAge, s, acts)
            && RunOf(poolSize, maxAge, s, acts).warm == s.warm + pods
            && RunOf(poolSize, maxAge, s, acts).outstanding == 0
  {
    CreatesRun(poolSize, maxAge, Apply(poolSize, maxAge, s, Replenish), pods);
    StepThenRun(poolSize, maxAge, s, Replenish, Creates(pods));
  }
}
