/** Publishing ports of a Lima instance: an incremental host-to-guest map. */
module PortForwards {
  import opened Results
  import opened Ports

  datatype AddError = ConflictingInstance | InvalidSpec | HostPortTaken | EditFailed

  /** fmt.Sscanf(spec, "%d:%d"), as a given library function: the two numbers read, if both were. */
  type Scan = string -> Option<(GoInt, GoInt)>

  /** parsePublishedPortSpec. */
  function Published(spec: string, scan: Scan): Option<PortConfig> {
    match scan(spec)
    case None => None
    case Some((host, guest)) =>
      if host <= 0 || guest <= 0 then None else Some(PortConfig(0, host, guest, "").Canonical())
  }

  predicate Effective(p: PortConfig) {
    p.EffectiveHostPort() > 0 && p.EffectiveGuestPort() > 0
  }

  /** canonicalLocalPorts: canonical entries, without those that forward nothing. */
  function CanonicalPorts(ports: seq<PortConfig>): seq<PortConfig> {
    if ports == [] then []
    else
      var last := ports[|ports|-1].Canonical();
      CanonicalPorts(ports[..|ports|-1]) + (if Effective(last) then [last] else [])
  }

  method CanonicalLocalPorts(ports: seq<PortConfig>) returns (canonical: seq<PortConfig>)
    ensures canonical == CanonicalPorts(ports)
  {
    canonical := [];
    for i := 0 to |ports|
      invariant canonical == CanonicalPorts(ports[..i])
    {
      assert ports[..i+1][..i] == ports[..i];
      var normalized := ports[i].Canonical();
      if normalized.EffectiveHostPort() <= 0 || normalized.EffectiveGuestPort() <= 0 {
        continue;
      }
      canonical := canonical + [normalized];
    }
    assert ports[..|ports|] == ports;
  }

  method SameLocalPorts(a: seq<PortConfig>, b: seq<PortConfig>) returns (same: bool)
    ensures same <==> a == b
  {
    if |a| != |b| {
      return false;
    }
    for i := 0 to |a|
      invariant a[..i] == b[..i]
    {
      if a[i] != b[i] {
        return false;
      }
    }
    assert a == a[..|a|] && b == b[..|b|];
    same := true;
  }

  /** No host port is mapped to two guest ports. */
  predicate Functional(ports: seq<PortConfig>) {
    forall i, j :: 0 <= i < |ports| && 0 <= j < |ports| && ports[i].EffectiveHostPort() == ports[j].EffectiveHostPort()
      ==> ports[i].EffectiveGuestPort() == ports[j].EffectiveGuestPort()
  }

  predicate HasHost(ports: seq<PortConfig>, host: int) {
    exists i :: 0 <= i < |ports| && ports[i].EffectiveHostPort() == host
  }

  predicate HasPair(ports: seq<PortConfig>, host: int, guest: int) {
    exists i :: 0 <= i < |ports| && ports[i].EffectiveHostPort() == host && ports[i].EffectiveGuestPort() == guest
  }

  /** One published port added to a list. */
  function AddOne(ports: seq<PortConfig>, spec: string, scan: Scan): Result<seq<PortConfig>, AddError> {
    match Published(spec, scan)
    case None => Err(InvalidSpec)
    case Some(port) =>
      if !HasHost(ports, port.EffectiveHostPort()) then Ok(ports + [port])
      else if HasPair(ports, port.EffectiveHostPort(), port.EffectiveGuestPort()) then Ok(ports)
      else Err(HostPortTaken)
  }

  function AddAll(ports: seq<PortConfig>, publish: seq<string>, scan: Scan): Result<seq<PortConfig>, AddError> {
    if publish == [] then Ok(ports)
    else match AddAll(ports, publish[..|publish|-1], scan)
      case Err(e) => Err(e)
      case Ok(sofar) => AddOne(sofar, publish[|publish|-1], scan)
  }

  /** The map holds exactly the pairs of the list. */
  ghost predicate Indexes(byHost: map<int, PortConfig>, ports: seq<PortConfig>) {
    && (forall host :: host in byHost <==> HasHost(ports, host))
    && (forall i :: 0 <= i < |ports| ==> ports[i].EffectiveHostPort() in byHost)
    && (forall i :: 0 <= i < |ports| ==>
          byHost[ports[i].EffectiveHostPort()].EffectiveGuestPort() == ports[i].EffectiveGuestPort())
  }

  /** addLimaPortForwards: the updated list and how many forwards were added. */
  method AddLimaPortForwards(ports: seq<PortConfig>, publish: seq<string>, scan: Scan, editSucceeds: bool)
    returns (r: Result<(seq<PortConfig>, nat), AddError>)
    ensures !Functional(CanonicalPorts(ports)) ==> r == Err(ConflictingInstance)
    ensures Functional(CanonicalPorts(ports)) ==>
              match AddAll(CanonicalPorts(ports), publish, scan)
              case Err(e) => r == Err(e)
              case Ok(all) =>
                var added := |all| - |CanonicalPorts(ports)|;
                r == if added > 0 && !editSucceeds then Err(EditFailed) else Ok((all, added))
  {
    var loaded := LoadExisting(ports);
    if loaded.Err? {
      return Err(loaded.error);
    }
    var (updated, byHost) := loaded.value;
    ghost var base := updated;
    var added: nat := 0;
    for k := 0 to |publish|
      invariant AddAll(base, publish[..k], scan) == Ok(updated)
      invariant Indexes(byHost, updated) && Functional(updated) && |updated| == |base| + added
    {
      assert publish[..k+1][..k] == publish[..k];
      var port := Published(publish[k], scan);
      AddAllStops(base, publish, k + 1, scan);
      if port.None? {
        return Err(InvalidSpec);
      }
      var host, guest := port.value.EffectiveHostPort(), port.value.EffectiveGuestPort();
      LookupByHost(byHost, updated, host, guest);
      if host in byHost {
        if byHost[host].EffectiveGuestPort() != guest {
          return Err(HostPortTaken);
        }
        continue;
      }
      IndexAppend(byHost, updated, port.value);
      byHost := byHost[host := port.value];
      updated := updated + [port.value];
      added := added + 1;
    }
    assert publish[..|publish|] == publish;
    if added > 0 && !editSucceeds {
      return Err(EditFailed);
    }
    r := Ok((updated, added));
  }

  /** The first loop: canonicalise the instance's ports and index them by host port. */
  method LoadExisting(ports: seq<PortConfig>) returns (r: Result<(seq<PortConfig>, map<int, PortConfig>), AddError>)
    ensures r.Err? <==> !Functional(CanonicalPorts(ports))
    ensures r.Err? ==> r.error == ConflictingInstance
    ensures r.Ok? ==> r.value.0 == CanonicalPorts(ports) && Indexes(r.value.1, r.value.0)
  {
    var byHost: map<int, PortConfig> := map[];
    var updated := [];
    for i := 0 to |ports|
      invariant updated == CanonicalPorts(ports[..i])
      invariant Indexes(byHost, updated) && Functional(updated)
    {
      assert ports[..i+1][..i] == ports[..i];
      var canonical := ports[i].Canonical();
      var host, guest := canonical.EffectiveHostPort(), canonical.EffectiveGuestPort();
      if host <= 0 || guest <= 0 {
        continue;
      }
      LookupByHost(byHost, updated, host, guest);
      if host in byHost && byHost[host].EffectiveGuestPort() != guest {
        ConflictStays(ports, i, updated, canonical);
        return Err(ConflictingInstance);
      }
      IndexAppend(byHost, updated, canonical);
      byHost := byHost[host := canonical];
      updated := updated + [canonical];
    }
    assert ports[..|ports|] == ports;
    r := Ok((updated, byHost));
  }

  // ---- Facts the loops use ----

  lemma LookupByHost(byHost: map<int, PortConfig>, ports: seq<PortConfig>, host: int, guest: int)
    requires Indexes(byHost, ports)
    ensures host in byHost <==> HasHost(ports, host)
    ensures host in byHost ==> (byHost[host].EffectiveGuestPort() == guest <==> HasPair(ports, host, guest))
  {
    if host in byHost {
      var i :| 0 <= i < |ports| && ports[i].EffectiveHostPort() == host;
    }
  }

  lemma IndexAppend(byHost: map<int, PortConfig>, ports: seq<PortConfig>, p: PortConfig)
    requires Indexes(byHost, ports) && Functional(ports)
    requires p.EffectiveHostPort() in byHost ==>
               byHost[p.EffectiveHostPort()].EffectiveGuestPort() == p.EffectiveGuestPort()
    ensures Indexes(byHost[p.EffectiveHostPort() := p], ports + [p]) && Functional(ports + [p])
  {
    var all := ports + [p];
    assert all[|ports|] == p;
    assert forall i :: 0 <= i < |ports| ==> all[i] == ports[i];
    forall host ensures HasHost(all, host) <==> HasHost(ports, host) || host == p.EffectiveHostPort() {
      if HasHost(ports, host) {
        var i :| 0 <= i < |ports| && ports[i].EffectiveHostPort() == host;
        assert all[i].EffectiveHostPort() == host;
      }
    }
  }

  lemma {:induction false} CanonicalPrefix(ports: seq<PortConfig>, i: nat)
    requires i <= |ports|
    ensures CanonicalPorts(ports[..i]) <= CanonicalPorts(ports)
    decreases |ports| - i
  {
    if i < |ports| {
      assert ports[..i+1][..i] == ports[..i];
      CanonicalPrefix(ports, i + 1);
    } else {
      assert ports[..i] == ports;
    }
  }

  lemma ConflictStays(ports: seq<PortConfig>, i: nat, sofar: seq<PortConfig>, p: PortConfig)
    requires i < |ports| && sofar == CanonicalPorts(ports[..i]) && p == ports[i].Canonical() && Effective(p)
    requires HasHost(sofar, p.EffectiveHostPort()) && !HasPair(sofar, p.EffectiveHostPort(), p.EffectiveGuestPort())
    ensures !Functional(CanonicalPorts(ports))
  {
    assert ports[..i+1][..i] == ports[..i];
    CanonicalPrefix(ports, i + 1);
    var all := CanonicalPorts(ports);
    assert sofar + [p] <= all;
    var j :| 0 <= j < |sofar| && sofar[j].EffectiveHostPort() == p.EffectiveHostPort();
    assert all[j] == sofar[j] && all[|sofar|] == p;
  }

  /** An error of a prefix is the error of the whole list. */
  lemma {:induction false} AddAllStops(ports: seq<PortConfig>, publish: seq<string>, k: nat, scan: Scan)
    requires k <= |publish|
    ensures AddAll(ports, publish[..k], scan).Err? ==> AddAll(ports, publish, scan) == AddAll(ports, publish[..k], scan)
    decreases |publish|
  {
    if k < |publish| {
      var front := publish[..|publish|-1];
      assert front[..k] == publish[..k];
      AddAllStops(ports, front, k, scan);
    } else {
      assert publish[..k] == publish;
    }
  }

  // ---- What specs and entries mean ----

  /** A spec publishes the two numbers read from it, in this order, and only if both are positive. */
  lemma PublishedMeans(spec: string, scan: Scan)
    ensures Published(spec, scan).Some? <==> scan(spec).Some? && scan(spec).value.0 > 0 && scan(spec).value.1 > 0
    ensures Published(spec, scan).Some? ==>
              var p := Published(spec, scan).value;
              p.EffectiveHostPort() == scan(spec).value.0 && p.EffectiveGuestPort() == scan(spec).value.1 && p.tag == ""
  {
  }

  /** Canonicalising a list keeps, in order, each entry whose effective ports are positive, with these
      ports and its label, and no other. */
  lemma {:induction false} CanonicalPortsSnoc(ports: seq<PortConfig>, p: PortConfig)
    ensures CanonicalPorts([]) == []
    ensures if p.EffectiveHostPort() > 0 && p.EffectiveGuestPort() > 0 then
              exists c :: CanonicalPorts(ports + [p]) == CanonicalPorts(ports) + [c] && SameForward(c, p)
            else CanonicalPorts(ports + [p]) == CanonicalPorts(ports)
  {
    assert (ports + [p])[..|ports|] == ports;
    if p.EffectiveHostPort() > 0 && p.EffectiveGuestPort() > 0 {
      assert SameForward(p.Canonical(), p);
    }
  }

  predicate SameForward(c: PortConfig, p: PortConfig) {
    && c.EffectiveHostPort() == p.EffectiveHostPort() && c.EffectiveGuestPort() == p.EffectiveGuestPort()
    && c.tag == p.tag
  }

  /** The first spec that fails decides the error: no valid spec, or its host port taken for another guest. */
  lemma {:induction false} FirstFailureDecides(ports: seq<PortConfig>, publish: seq<string>,
                                               scan: Scan) returns (k: nat)
    requires AddAll(ports, publish, scan).Err?
    ensures k < |publish| && AddAll(ports, publish[..k], scan).Ok?
    ensures var before, p := AddAll(ports, publish[..k], scan).value, Published(publish[k], scan);
            && (p.None? ==> AddAll(ports, publish, scan) == Err(InvalidSpec))
            && (p.Some? ==>
                  && AddAll(ports, publish, scan) == Err(HostPortTaken)
                  && (exists i :: 0 <= i < |before| && before[i].EffectiveHostPort() == p.value.EffectiveHostPort())
                  && forall i :: 0 <= i < |before| && before[i].EffectiveHostPort() == p.value.EffectiveHostPort() ==>
                       before[i].EffectiveGuestPort() != p.value.EffectiveGuestPort())
  {
    var n := |publish| - 1;
    if AddAll(ports, publish[..n], scan).Err? {
      k := FirstFailureDecides(ports, publish[..n], scan);
      assert publish[..n][..k] == publish[..k];
    } else {
      k := n;
    }
  }

  // ---- What adding guarantees ----

  /** The pair a valid spec publishes is in the list. */
  predicate PublishedIn(ports: seq<PortConfig>, spec: string, scan: Scan) {
    var p := Published(spec, scan);
    p.Some? && HasPair(ports, p.value.EffectiveHostPort(), p.value.EffectiveGuestPort())
  }

  lemma PairsStay(ports: seq<PortConfig>, more: seq<PortConfig>, host: int, guest: int)
    requires HasPair(ports, host, guest)
    ensures HasPair(ports + more, host, guest)
  {
    var i :| 0 <= i < |ports| && ports[i].EffectiveHostPort() == host && ports[i].EffectiveGuestPort() == guest;
    assert (ports + more)[i] == ports[i];
  }

  /** Behind the old entries, every host port is new. */
  predicate NewHosts(base: seq<PortConfig>, all: seq<PortConfig>) {
    forall i :: |base| <= i < |all| ==> !HasHost(all[..i], all[i].EffectiveHostPort())
  }

  /** Behind the old entries, every entry was published. */
  predicate NewWerePublished(base: seq<PortConfig>, all: seq<PortConfig>, publish: seq<string>, scan: Scan) {
    forall i :: |base| <= i < |all| ==> WasPublished(all[i], publish, scan)
  }

  predicate WasPublished(p: PortConfig, publish: seq<string>, scan: Scan) {
    exists k :: 0 <= k < |publish| && Published(publish[k], scan) == Some(p)
  }

  predicate AllPublishedIn(all: seq<PortConfig>, publish: seq<string>, scan: Scan) {
    forall k :: 0 <= k < |publish| ==> PublishedIn(all, publish[k], scan)
  }

  lemma OneMorePublished(before: seq<PortConfig>, more: seq<PortConfig>, publish: seq<string>, scan: Scan)
    requires publish != [] && AllPublishedIn(before, publish[..|publish|-1], scan)
    requires PublishedIn(before + more, publish[|publish|-1], scan)
    ensures AllPublishedIn(before + more, publish, scan)
  {
    forall k | 0 <= k < |publish| - 1 ensures PublishedIn(before + more, publish[k], scan) {
      assert PublishedIn(before, publish[..|publish|-1][k], scan);
      var q := Published(publish[k], scan).value;
      PairsStay(before, more, q.EffectiveHostPort(), q.EffectiveGuestPort());
    }
  }

  lemma OneMoreNew(base: seq<PortConfig>, before: seq<PortConfig>, p: PortConfig, publish: seq<string>, scan: Scan)
    requires publish != [] && Published(publish[|publish|-1], scan) == Some(p) && |base| <= |before|
    requires NewHosts(base, before) && NewWerePublished(base, before, publish[..|publish|-1], scan)
    requires !HasHost(before, p.EffectiveHostPort())
    ensures NewHosts(base, before + [p]) && NewWerePublished(base, before + [p], publish, scan)
  {
    var all := before + [p];
    forall i | |base| <= i < |all|
      ensures !HasHost(all[..i], all[i].EffectiveHostPort()) && WasPublished(all[i], publish, scan)
    {
      if i < |before| {
        assert all[..i] == before[..i] && all[i] == before[i];
        assert WasPublished(before[i], publish[..|publish|-1], scan);
      } else {
        assert all[..i] == before;
      }
    }
  }

  lemma MorePublished(base: seq<PortConfig>, all: seq<PortConfig>, publish: seq<string>, scan: Scan)
    requires publish != [] && NewWerePublished(base, all, publish[..|publish|-1], scan)
    ensures NewWerePublished(base, all, publish, scan)
  {
    forall i | |base| <= i < |all| ensures WasPublished(all[i], publish, scan) {
      assert WasPublished(all[i], publish[..|publish|-1], scan);
    }
  }

  /** The list is still a function, extends the old one, contains every published pair, and each new
      entry was published and has a host port that nothing before it has. */
  lemma {:induction false} AddedForwards(ports: seq<PortConfig>, publish: seq<string>, scan: Scan)
    requires Functional(ports) && AddAll(ports, publish, scan).Ok?
    ensures var all := AddAll(ports, publish, scan).value;
            && ports <= all && Functional(all) && AllPublishedIn(all, publish, scan)
            && NewHosts(ports, all) && NewWerePublished(ports, all, publish, scan)
  {
    if publish != [] {
      var n := |publish| - 1;
      AddedForwards(ports, publish[..n], scan);
      var before := AddAll(ports, publish[..n], scan).value;
      var p := Published(publish[n], scan).value;
      if HasHost(before, p.EffectiveHostPort()) {
        assert before + [] == before;
        OneMorePublished(before, [], publish, scan);
        MorePublished(ports, before, publish, scan);
      } else {
        assert (before + [p])[|before|] == p;
        AppendKeepsFunctional(before, p);
        OneMorePublished(before, [p], publish, scan);
        OneMoreNew(ports, before, p, publish, scan);
      }
    }
  }

  lemma AppendKeepsFunctional(ports: seq<PortConfig>, p: PortConfig)
    requires Functional(ports) && !HasHost(ports, p.EffectiveHostPort())
    ensures Functional(ports + [p])
  {
    assert forall i :: 0 <= i < |ports| ==> HasHost(ports, ports[i].EffectiveHostPort());
  }

  /** Publishing what is already present adds nothing. */
  lemma {:induction false} PresentPairsAddNothing(ports: seq<PortConfig>, publish: seq<string>, scan: Scan)
    requires AllPublishedIn(ports, publish, scan)
    ensures AddAll(ports, publish, scan) == Ok(ports)
  {
    if publish != [] {
      var n := |publish| - 1;
      PresentPairsAddNothing(ports, publish[..n], scan);
      assert PublishedIn(ports, publish[n], scan);
      var p := Published(publish[n], scan).value;
      assert HasHost(ports, p.EffectiveHostPort());
    }
  }

  predicate AllCanonical(ports: seq<PortConfig>) {
    forall i :: 0 <= i < |ports| ==> ports[i].Canonical() == ports[i] && Effective(ports[i])
  }

  lemma {:induction false} CanonicalPortsAreCanonical(ports: seq<PortConfig>)
    ensures AllCanonical(CanonicalPorts(ports))
  {
    if ports != [] {
      CanonicalPortsAreCanonical(ports[..|ports|-1]);
    }
  }

  lemma {:induction false} CanonicalPortsFix(ports: seq<PortConfig>)
    requires AllCanonical(ports)
    ensures CanonicalPorts(ports) == ports
  {
    if ports != [] {
      CanonicalPortsFix(ports[..|ports|-1]);
      assert ports == ports[..|ports|-1] + [ports[|ports|-1]];
    }
  }

  /** Repeating a publish list on the result adds nothing and returns the same list. */
  lemma RepublishingIsIdempotent(ports: seq<PortConfig>, publish: seq<string>, scan: Scan)
    requires Functional(CanonicalPorts(ports)) && AddAll(CanonicalPorts(ports), publish, scan).Ok?
    ensures var all := AddAll(CanonicalPorts(ports), publish, scan).value;
            CanonicalPorts(all) == all && Functional(all) && AddAll(all, publish, scan) == Ok(all)
  {
    var base := CanonicalPorts(ports);
    var all := AddAll(base, publish, scan).value;
    AddedForwards(base, publish, scan);
    PresentPairsAddNothing(all, publish, scan);
    CanonicalPortsAreCanonical(ports);
    forall i | 0 <= i < |all| ensures all[i].Canonical() == all[i] && Effective(all[i]) {
      if i < |base| {
        assert all[i] == base[i];
      } else {
        assert WasPublished(all[i], publish, scan);
      }
    }
    CanonicalPortsFix(all);
  }

  /** All published ports of valid specs, one after the other. */
  function PublishedPorts(publish: seq<string>, scan: Scan): seq<PortConfig>
    requires forall k :: 0 <= k < |publish| ==> Published(publish[k], scan).Some?
  {
    seq(|publish|, k requires 0 <= k < |publish| => Published(publish[k], scan).value)
  }

  /** Adding succeeds exactly when every spec is valid and no host port would get two guest ports. */
  lemma AddSucceedsIff(ports: seq<PortConfig>, publish: seq<string>, scan: Scan)
    requires Functional(ports)
    ensures AddAll(ports, publish, scan).Ok? <==>
            && (forall k :: 0 <= k < |publish| ==> Published(publish[k], scan).Some?)
            && Functional(ports + PublishedPorts(publish, scan))
  {
    if AddAll(ports, publish, scan).Ok? {
      AddedForwards(ports, publish, scan);
      var all := AddAll(ports, publish, scan).value;
      forall k | 0 <= k < |publish| ensures Published(publish[k], scan).Some? {
        assert PublishedIn(all, publish[k], scan);
      }
      SubsetIsFunctional(all, ports + PublishedPorts(publish, scan), ports, publish, scan);
    } else if forall k :: 0 <= k < |publish| ==> Published(publish[k], scan).Some? {
      FailureIsConflict(ports, publish, scan);
    }
  }

  lemma SubsetIsFunctional(all: seq<PortConfig>, some: seq<PortConfig>, ports: seq<PortConfig>, publish: seq<string>,
                           scan: Scan)
    requires Functional(all) && ports <= all
    requires AllPublishedIn(all, publish, scan)
    requires forall k :: 0 <= k < |publish| ==> Published(publish[k], scan).Some?
    requires some == ports + PublishedPorts(publish, scan)
    ensures Functional(some)
  {
    forall i | 0 <= i < |some| ensures HasPair(all, some[i].EffectiveHostPort(), some[i].EffectiveGuestPort()) {
      if i < |ports| {
        assert all[i] == some[i];
      } else {
        assert PublishedIn(all, publish[i - |ports|], scan);
      }
    }
  }

  lemma {:induction false} FailureIsConflict(ports: seq<PortConfig>, publish: seq<string>, scan: Scan)
    requires Functional(ports) && AddAll(ports, publish, scan).Err?
    requires forall k :: 0 <= k < |publish| ==> Published(publish[k], scan).Some?
    ensures !Functional(ports + PublishedPorts(publish, scan))
  {
    var n := |publish| - 1;
    var front := publish[..n];
    var some := ports + PublishedPorts(publish, scan);
    if AddAll(ports, front, scan).Err? {
      FailureIsConflict(ports, front, scan);
      PrefixFunctional(ports + PublishedPorts(front, scan), some);
    } else {
      AddedForwards(ports, front, scan);
      var before := AddAll(ports, front, scan).value;
      var p := Published(publish[n], scan).value;
      var i :| 0 <= i < |before| && before[i].EffectiveHostPort() == p.EffectiveHostPort();
      assert some[|ports| + n] == p;
      if i < |ports| {
        assert some[i] == before[i];
      } else {
        assert WasPublished(before[i], front, scan);
        var k :| 0 <= k < |front| && Published(front[k], scan) == Some(before[i]);
        assert some[|ports| + k] == before[i];
      }
    }
  }

  lemma PrefixFunctional(a: seq<PortConfig>, b: seq<PortConfig>)
    requires a <= b && !Functional(a)
    ensures !Functional(b)
  {
    var i, j :| 0 <= i < |a| && 0 <= j < |a| && a[i].EffectiveHostPort() == a[j].EffectiveHostPort()
      && a[i].EffectiveGuestPort() != a[j].EffectiveGuestPort();
    assert b[i] == a[i] && b[j] == a[j];
  }
}
