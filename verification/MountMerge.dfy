/** Merging discovered and configured mounts: the last mount of each (source, target) pair, in a
    fixed order. */
module MountMerge {
  import opened Results
  import opened Text
  import opened Filtering
  import opened Paths
  import Mounts

  const NUL: char := '\0'

  datatype Mount = Mount(source: string, target: string, readonly: Option<bool>)

  function EffectiveTarget(m: Mount): string {
    if TrimSpace(m.target) != "" then Clean(TrimSpace(m.target)) else Clean(TrimSpace(m.source))
  }

  function IsReadOnly(m: Mount): bool {
    m.readonly.None? || m.readonly.value
  }

  function Normalized(m: Mount): Mount {
    Mount(Clean(TrimSpace(m.source)), EffectiveTarget(m), Some(IsReadOnly(m)))
  }

  function Key(m: Mount): string {
    m.source + [NUL] + m.target
  }

  /** Where a mount with this key stands, or the end. */
  function IndexOfKey(mounts: seq<Mount>, key: string): (i: nat)
    ensures i <= |mounts| && (forall j :: 0 <= j < i ==> Key(mounts[j]) != key)
    ensures i < |mounts| ==> Key(mounts[i]) == key
  {
    if mounts == [] || Key(mounts[0]) == key then 0 else 1 + IndexOfKey(mounts[1..], key)
  }

  function Put(mounts: seq<Mount>, m: Mount): seq<Mount> {
    var i := IndexOfKey(mounts, Key(m));
    if i < |mounts| then mounts[i := m] else mounts + [m]
  }

  function Merged(mounts: seq<Mount>): seq<Mount> {
    if mounts == [] then [] else Put(Merged(mounts[..|mounts|-1]), Normalized(mounts[|mounts|-1]))
  }

  predicate DistinctKeys(mounts: seq<Mount>) {
    forall i, j :: 0 <= i < j < |mounts| ==> Key(mounts[i]) != Key(mounts[j])
  }

  /** The order of the result: by effective target, then by source. */
  predicate Before(a: Mount, b: Mount) {
    var left, right := EffectiveTarget(a), EffectiveTarget(b);
    if left == right then Mounts.StrLess(a.source, b.source) else Mounts.StrLess(left, right)
  }

  function ByTarget(): (Mount, Mount) -> bool {
    (a: Mount, b: Mount) => Before(a, b)
  }

  /** The source names no mount that is skipped: a cleaned path is never empty, not even of blank text. */
  lemma NothingIsSkipped(m: Mount)
    ensures Normalized(m).source != "" && Normalized(m).target != ""
  {
    CleanIdempotent(TrimSpace(m.source));
    CleanIdempotent(TrimSpace(m.target));
  }

  ghost predicate IndexesKeys(index: map<string, nat>, mounts: seq<Mount>) {
    && (forall key :: key in index ==> index[key] < |mounts| && Key(mounts[index[key]]) == key)
    && (forall i :: 0 <= i < |mounts| ==> Key(mounts[i]) in index && index[Key(mounts[i])] == i)
  }

  method NormalizeMounts(mounts: seq<Mount>) returns (normalized: seq<Mount>)
    ensures normalized == Merged(mounts)
  {
    var indexByKey: map<string, nat> := map[];
    normalized := [];
    for i := 0 to |mounts|
      invariant normalized == Merged(mounts[..i])
      invariant IndexesKeys(indexByKey, normalized)
    {
      assert mounts[..i+1][..i] == mounts[..i];
      var source := Clean(TrimSpace(mounts[i].source));
      var target := EffectiveTarget(mounts[i]);
      NothingIsSkipped(mounts[i]);
      var mount := Mount(source, target, Some(IsReadOnly(mounts[i])));
      var key := Key(mount);
      PutAt(indexByKey, normalized, mount);
      if key in indexByKey {
        normalized := normalized[indexByKey[key] := mount];
      } else {
        indexByKey := indexByKey[key := |normalized|];
        normalized := normalized + [mount];
      }
    }
    assert mounts[..|mounts|] == mounts;
  }

  lemma PutAt(index: map<string, nat>, mounts: seq<Mount>, m: Mount)
    requires IndexesKeys(index, mounts)
    ensures Key(m) in index ==> Put(mounts, m) == mounts[index[Key(m)] := m] && IndexesKeys(index, Put(mounts, m))
    ensures Key(m) !in index ==>
              Put(mounts, m) == mounts + [m] && IndexesKeys(index[Key(m) := |mounts|], Put(mounts, m))
  {
    var i := IndexOfKey(mounts, Key(m));
    if i < |mounts| {
      assert index[Key(mounts[i])] == i;
    }
  }

  /** What limaAdditionalMounts may return: sort.Slice fixes no order among equivalent mounts. */
  ghost predicate MergeResult(mounts: seq<Mount>, out: seq<Mount>) {
    multiset(out) == multiset(Merged(mounts)) && SortedBy(out, ByTarget())
  }

  method LimaAdditionalMounts(discovered: seq<Mount>, configured: seq<Mount>) returns (out: seq<Mount>)
    ensures MergeResult(discovered + configured, out)
  {
    var normalized := NormalizeMounts(discovered + configured);
    ByTargetIsStrictWeakOrder();
    out := SortSlice(normalized, ByTarget());
  }

  lemma BeforeIsOrder(a: Mount, b: Mount, c: Mount)
    ensures !Before(a, a)
    ensures Before(a, b) && Before(b, c) ==> Before(a, c)
    ensures Before(a, c) ==> Before(a, b) || Before(b, c)
  {
    var x, y, z := EffectiveTarget(a), EffectiveTarget(b), EffectiveTarget(c);
    OrderOfPairs(x, a.source, y, b.source, z, c.source);
  }

  predicate PairLess(x: string, s: string, y: string, t: string) {
    if x == y then Mounts.StrLess(s, t) else Mounts.StrLess(x, y)
  }

  lemma OrderOfPairs(x: string, s: string, y: string, t: string, z: string, u: string)
    ensures !PairLess(x, s, x, s)
    ensures PairLess(x, s, y, t) && PairLess(y, t, z, u) ==> PairLess(x, s, z, u)
    ensures PairLess(x, s, z, u) ==> PairLess(x, s, y, t) || PairLess(y, t, z, u)
    ensures PairLess(x, s, y, t) || PairLess(y, t, x, s) || (x == y && s == t)
  {
    Mounts.StrLessIsTotal(s, s);
    Mounts.StrLessIsTotal(x, y);
    Mounts.StrLessIsTotal(y, z);
    Mounts.StrLessIsTotal(x, z);
    Mounts.StrLessIsTotal(s, t);
    Mounts.StrLessIsTotal(t, u);
    Mounts.StrLessIsTotal(s, u);
    TransitiveHere(x, y, z);
    TransitiveHere(z, y, x);
    TransitiveHere(s, t, u);
    TransitiveHere(u, t, s);
  }

  lemma TransitiveHere(a: string, b: string, c: string)
    ensures Mounts.StrLess(a, b) && Mounts.StrLess(b, c) ==> Mounts.StrLess(a, c)
  {
    if Mounts.StrLess(a, b) && Mounts.StrLess(b, c) {
      Mounts.StrLessIsTransitive(a, b, c);
    }
  }

  lemma ByTargetIsStrictWeakOrder()
    ensures StrictWeakOrder(ByTarget())
  {
    forall a ensures !ByTarget()(a, a) {
      BeforeIsOrder(a, a, a);
    }
    forall a, b, c | ByTarget()(a, b) && ByTarget()(b, c) ensures ByTarget()(a, c) {
      BeforeIsOrder(a, b, c);
    }
    forall a, b, c | ByTarget()(a, c) ensures ByTarget()(a, b) || ByTarget()(b, c) {
      BeforeIsOrder(a, b, c);
    }
  }

  // ---- The last writer of each key ----

  lemma PutMembers(mounts: seq<Mount>, m: Mount)
    requires DistinctKeys(mounts)
    ensures DistinctKeys(Put(mounts, m))
    ensures forall x :: x in Put(mounts, m) <==> x == m || (x in mounts && Key(x) != Key(m))
  {
    var i := IndexOfKey(mounts, Key(m));
    var put := Put(mounts, m);
    if i < |mounts| {
      assert put[i] == m;
      forall x | x in mounts && Key(x) != Key(m) ensures x in put {
        var k :| 0 <= k < |mounts| && mounts[k] == x;
        assert put[k] == x;
      }
    }
  }

  /** The i-th mount is the last of its key. */
  predicate LastOfKey(mounts: seq<Mount>, i: nat) {
    i < |mounts| && forall j :: i < j < |mounts| ==> Key(Normalized(mounts[j])) != Key(Normalized(mounts[i]))
  }

  /** These are the last mounts of their keys. */
  ghost predicate IsLastWriterMap(mounts: seq<Mount>, out: seq<Mount>) {
    && (forall i: nat :: LastOfKey(mounts, i) ==> Normalized(mounts[i]) in out)
    && (forall m :: m in out ==> LastWritten(mounts, m))
  }

  ghost predicate LastWritten(mounts: seq<Mount>, m: Mount) {
    exists i: nat :: LastOfKey(mounts, i) && m == Normalized(mounts[i])
  }

  lemma LastOfKeyStep(mounts: seq<Mount>, i: nat)
    requires i + 1 < |mounts|
    ensures var n := |mounts| - 1;
            LastOfKey(mounts, i)
            <==> LastOfKey(mounts[..n], i) && Key(Normalized(mounts[i])) != Key(Normalized(mounts[n]))
  {
  }

  lemma PutIsLastWriter(mounts: seq<Mount>, out: seq<Mount>)
    requires mounts != [] && DistinctKeys(out) && IsLastWriterMap(mounts[..|mounts|-1], out)
    ensures IsLastWriterMap(mounts, Put(out, Normalized(mounts[|mounts|-1])))
  {
    var n := |mounts| - 1;
    var front, last := mounts[..n], Normalized(mounts[n]);
    PutMembers(out, last);
    forall i: nat | LastOfKey(mounts, i) ensures Normalized(mounts[i]) in Put(out, last) {
      if i < n {
        LastOfKeyStep(mounts, i);
      }
    }
    forall m | m in Put(out, last) ensures LastWritten(mounts, m) {
      if m == last {
        assert LastOfKey(mounts, n);
      } else {
        var i: nat :| LastOfKey(front, i) && m == Normalized(front[i]);
        LastOfKeyStep(mounts, i);
      }
    }
  }

  lemma {:induction false} MergedIsLastWriter(mounts: seq<Mount>)
    ensures DistinctKeys(Merged(mounts)) && IsLastWriterMap(mounts, Merged(mounts))
  {
    if mounts != [] {
      var n := |mounts| - 1;
      MergedIsLastWriter(mounts[..n]);
      PutMembers(Merged(mounts[..n]), Normalized(mounts[n]));
      PutIsLastWriter(mounts, Merged(mounts[..n]));
    }
  }

  /** The result holds exactly the last mount of each key, once each, with its own read-only flag. */
  lemma ResultIsLastWriterMap(mounts: seq<Mount>, out: seq<Mount>)
    requires MergeResult(mounts, out)
    ensures DistinctKeys(out) && IsLastWriterMap(mounts, out)
  {
    MergedIsLastWriter(mounts);
    PermutationMembers(out, Merged(mounts));
    PermutationKeepsKeys(Merged(mounts), out);
  }

  /** What a mount of the result says: the cleaned source, the cleaned target, which is the source
      where no target is given, and read-only unless the last mount of its key says otherwise. */
  lemma ResultFields(mounts: seq<Mount>, out: seq<Mount>, m: Mount) returns (i: nat)
    requires MergeResult(mounts, out) && m in out
    ensures LastOfKey(mounts, i)
    ensures m.source == Clean(TrimSpace(mounts[i].source))
    ensures m.target == Clean(TrimSpace(if TrimSpace(mounts[i].target)
            == "" then mounts[i].source else mounts[i].target))
    ensures m.readonly == Some(mounts[i].readonly != Some(false))
  {
    ResultIsLastWriterMap(mounts, out);
    i :| LastOfKey(mounts, i) && m == Normalized(mounts[i]);
  }

  lemma PermutationKeepsKeys(a: seq<Mount>, b: seq<Mount>)
    requires DistinctKeys(a) && multiset(a) == multiset(b)
    ensures DistinctKeys(b)
  {
    assert Distinct(a);
    PermutationStaysDistinct(a, b);
    PermutationMembers(a, b);
    forall i, j | 0 <= i < j < |b| ensures Key(b[i]) != Key(b[j]) {
      assert b[i] in b && b[j] in b;
      var x :| 0 <= x < |a| && a[x] == b[i];
      var y :| 0 <= y < |a| && a[y] == b[j];
    }
  }

  /** The i-th mount is the last of its (source, target) pair. */
  predicate LastOfPair(mounts: seq<Mount>, i: nat) {
    i < |mounts| && forall j :: i < j < |mounts| ==> !SamePair(Normalized(mounts[j]), Normalized(mounts[i]))
  }

  predicate SamePair(a: Mount, b: Mount) {
    a.source == b.source && a.target == b.target
  }

  /** The result holds exactly the last mount of each (source, target) pair. */
  ghost predicate IsLastWriterOfPairs(mounts: seq<Mount>, out: seq<Mount>) {
    && (forall i: nat :: LastOfPair(mounts, i) ==> Normalized(mounts[i]) in out)
    && (forall m :: m in out ==> exists i: nat :: LastOfPair(mounts, i) && m == Normalized(mounts[i]))
  }

  /** No two different pairs among the mounts share a key. */
  predicate KeysTellPairsApart(mounts: seq<Mount>) {
    forall i, j :: 0 <= i < |mounts| && 0 <= j < |mounts| && Key(Normalized(mounts[i])) == Key(Normalized(mounts[j]))
      ==> SamePair(Normalized(mounts[i]), Normalized(mounts[j]))
  }

  lemma {:induction false} LastWithPair(mounts: seq<Mount>, i: nat) returns (k: nat)
    requires i < |mounts|
    ensures LastOfPair(mounts, k) && SamePair(Normalized(mounts[k]), Normalized(mounts[i]))
    decreases |mounts| - i
  {
    if LastOfPair(mounts, i) {
      k := i;
    } else {
      var j :| i < j < |mounts| && SamePair(Normalized(mounts[j]), Normalized(mounts[i]));
      k := LastWithPair(mounts, j);
    }
  }

  lemma OneMountPerKey(out: seq<Mount>, a: Mount, b: Mount)
    requires DistinctKeys(out) && a in out && b in out && Key(a) == Key(b)
    ensures a == b
  {
    var x :| 0 <= x < |out| && out[x] == a;
    var y :| 0 <= y < |out| && out[y] == b;
  }

  /** Two different pairs with one key cannot both be in the result. */
  lemma SharedKeyLosesPair(mounts: seq<Mount>, out: seq<Mount>, i: nat, j: nat)
    requires DistinctKeys(out) && i < |mounts| && j < |mounts|
    requires Key(Normalized(mounts[i])) == Key(Normalized(mounts[j]))
    requires !SamePair(Normalized(mounts[i]), Normalized(mounts[j]))
    ensures !IsLastWriterOfPairs(mounts, out)
  {
    var k := LastWithPair(mounts, i);
    var l := LastWithPair(mounts, j);
    var a, b := Normalized(mounts[k]), Normalized(mounts[l]);
    if a in out && b in out {
      OneMountPerKey(out, a, b);
    }
  }

  lemma LastOfPairIffOfKey(mounts: seq<Mount>, i: nat)
    requires KeysTellPairsApart(mounts)
    ensures LastOfPair(mounts, i) <==> LastOfKey(mounts, i)
  {
    forall j | i < j < |mounts|
      ensures SamePair(Normalized(mounts[j]), Normalized(mounts[i]))
              <==> Key(Normalized(mounts[j])) == Key(Normalized(mounts[i]))
    {
    }
  }

  lemma DistinctPairsAreKept(mounts: seq<Mount>, out: seq<Mount>)
    requires IsLastWriterMap(mounts, out) && KeysTellPairsApart(mounts)
    ensures IsLastWriterOfPairs(mounts, out)
  {
    forall i: nat | LastOfPair(mounts, i) ensures Normalized(mounts[i]) in out {
      LastOfPairIffOfKey(mounts, i);
    }
    forall m | m in out ensures exists i: nat :: LastOfPair(mounts, i) && m == Normalized(mounts[i]) {
      assert LastWritten(mounts, m);
      var i: nat :| LastOfKey(mounts, i) && m == Normalized(mounts[i]);
      LastOfPairIffOfKey(mounts, i);
    }
  }

  /** The result is the last writer's map on (source, target) exactly when the joined keys tell the
      pairs of the input apart. */
  lemma LastWriterOfPairsIff(mounts: seq<Mount>, out: seq<Mount>)
    requires MergeResult(mounts, out)
    ensures IsLastWriterOfPairs(mounts, out) <==> KeysTellPairsApart(mounts)
  {
    ResultIsLastWriterMap(mounts, out);
    if KeysTellPairsApart(mounts) {
      DistinctPairsAreKept(mounts, out);
    } else {
      var i, j :| 0 <= i < |mounts| && 0 <= j < |mounts| && Key(Normalized(mounts[i])) == Key(Normalized(mounts[j]))
        && !SamePair(Normalized(mounts[i]), Normalized(mounts[j]));
      SharedKeyLosesPair(mounts, out, i, j);
    }
  }

  predicate NulFreeSources(mounts: seq<Mount>) {
    forall i :: 0 <= i < |mounts| ==> NUL !in Normalized(mounts[i]).source
  }

  lemma KeyIsPair(a: Mount, b: Mount)
    requires NUL !in a.source && NUL !in b.source
    ensures Key(a) == Key(b) <==> a.source == b.source && a.target == b.target
  {
    if Key(a) == Key(b) {
      FirstSeparatorUnique(a.source, b.source, a.target, b.target, NUL);
    }
  }

  /** Sources without NUL, as every path of a file system is, suffice. */
  lemma NulFreeSourcesTellPairsApart(mounts: seq<Mount>)
    requires NulFreeSources(mounts)
    ensures KeysTellPairsApart(mounts)
  {
    forall i, j | 0 <= i < |mounts| && 0 <= j < |mounts| && Key(Normalized(mounts[i])) == Key(Normalized(mounts[j]))
      ensures SamePair(Normalized(mounts[i]), Normalized(mounts[j]))
    {
      KeyIsPair(Normalized(mounts[i]), Normalized(mounts[j]));
    }
  }

  /** A configured mount overrides every discovered one with the same key. */
  lemma ConfiguredOverridesDiscovered(discovered: seq<Mount>, configured: seq<Mount>, k: nat, out: seq<Mount>)
    requires MergeResult(discovered + configured, out) && LastOfKey(configured, k)
    ensures Normalized(configured[k]) in out
    ensures forall m :: m in out && Key(m) == Key(Normalized(configured[k])) ==> m == Normalized(configured[k])
  {
    var all := discovered + configured;
    ResultIsLastWriterMap(all, out);
    assert all[|discovered| + k] == configured[k];
    forall j | |discovered| + k < j < |all|
      ensures Key(Normalized(all[j])) != Key(Normalized(configured[k]))
    {
      assert all[j] == configured[j - |discovered|];
    }
    assert LastOfKey(all, |discovered| + k);
    var c := Normalized(configured[k]);
    forall m | m in out && Key(m) == Key(c) ensures m == c {
      OneMountPerKey(out, m, c);
    }
  }

  // ---- The order ----

  /** The last mounts of two keys that agree in their cleaned source, and in their cleaned target once
      it is trimmed and cleaned again, agree in the cleaned target. */
  predicate TargetsStayApart(mounts: seq<Mount>) {
    forall i, j :: 0 <= i < |mounts| && 0 <= j < |mounts| && LastOfKey(mounts, i) && LastOfKey(mounts, j) ==>
      var a, b := Normalized(mounts[i]), Normalized(mounts[j]);
      a.source == b.source && EffectiveTarget(a) == EffectiveTarget(b) ==> a.target == b.target
  }

  lemma TieBlocksAscending(out: seq<Mount>, x: nat, y: nat)
    requires x < |out| && y < |out| && x != y && !Before(out[x], out[y]) && !Before(out[y], out[x])
    ensures !Ascending(out, ByTarget())
  {
    var a, b := if x < y then x else y, if x < y then y else x;
    assert a < b && !ByTarget()(out[a], out[b]);
  }

  /** Two equivalent mounts with different keys stay in the result side by side, in no fixed order. */
  lemma EquivalentMountsTie(mounts: seq<Mount>, out: seq<Mount>, i: nat, j: nat)
    requires MergeResult(mounts, out) && LastOfKey(mounts, i) && LastOfKey(mounts, j)
    requires Normalized(mounts[i]).source == Normalized(mounts[j]).source
    requires EffectiveTarget(Normalized(mounts[i])) == EffectiveTarget(Normalized(mounts[j]))
    requires Normalized(mounts[i]).target != Normalized(mounts[j]).target
    ensures !Ascending(out, ByTarget())
  {
    ResultIsLastWriterMap(mounts, out);
    var a, b := Normalized(mounts[i]), Normalized(mounts[j]);
    assert a in out && b in out;
    var x: nat :| x < |out| && out[x] == a;
    var y: nat :| y < |out| && out[y] == b;
    BeforeSelf(a, b);
    TieBlocksAscending(out, x, y);
  }

  lemma BeforeSelf(a: Mount, b: Mount)
    requires a.source == b.source && EffectiveTarget(a) == EffectiveTarget(b)
    ensures !Before(a, b) && !Before(b, a)
  {
    Mounts.StrLessIsTotal(a.source, b.source);
  }

  lemma NotEquivalent(mounts: seq<Mount>, a: Mount, b: Mount)
    requires TargetsStayApart(mounts) && LastWritten(mounts, a) && LastWritten(mounts, b) && Key(a) != Key(b)
    ensures a.source != b.source || EffectiveTarget(a) != EffectiveTarget(b)
  {
    var k: nat :| LastOfKey(mounts, k) && a == Normalized(mounts[k]);
    var l: nat :| LastOfKey(mounts, l) && b == Normalized(mounts[l]);
  }

  lemma DistinctTargetsAscend(mounts: seq<Mount>, out: seq<Mount>)
    requires MergeResult(mounts, out) && TargetsStayApart(mounts)
    ensures Ascending(out, ByTarget())
  {
    ResultIsLastWriterMap(mounts, out);
    forall i, j | 0 <= i < j < |out| ensures ByTarget()(out[i], out[j]) {
      var a, b := out[i], out[j];
      assert !ByTarget()(b, a);
      assert a in out && b in out;
      NotEquivalent(mounts, a, b);
      OrderOfPairs(EffectiveTarget(a), a.source, EffectiveTarget(b), b.source, "", "");
    }
  }

  /** The result is strictly increasing exactly when no two mounts that are last of their keys differ
      only in target white space that cleaning again would drop. */
  lemma StrictlyOrderedIff(mounts: seq<Mount>, out: seq<Mount>)
    requires MergeResult(mounts, out)
    ensures Ascending(out, ByTarget()) <==> TargetsStayApart(mounts)
  {
    if TargetsStayApart(mounts) {
      DistinctTargetsAscend(mounts, out);
    } else {
      var i: nat, j: nat :| LastOfKey(mounts, i) && LastOfKey(mounts, j)
        && Normalized(mounts[i]).source == Normalized(mounts[j]).source
        && EffectiveTarget(Normalized(mounts[i])) == EffectiveTarget(Normalized(mounts[j]))
        && Normalized(mounts[i]).target != Normalized(mounts[j]).target;
      EquivalentMountsTie(mounts, out, i, j);
    }
  }

  /** Then the result is one list, whatever the sort does with equivalent elements. */
  lemma MergeIsDeterministic(mounts: seq<Mount>, one: seq<Mount>, other: seq<Mount>)
    requires MergeResult(mounts, one) && MergeResult(mounts, other) && TargetsStayApart(mounts)
    ensures one == other
  {
    DistinctTargetsAscend(mounts, one);
    DistinctTargetsAscend(mounts, other);
    PermutationMembers(one, other);
    ByTargetIsStrictWeakOrder();
    StrictWeakOrderIsAsymmetric(ByTarget());
    AscendingIsUnique(one, other, ByTarget());
  }

  /** Where no cleaned target begins or ends with white space, the order is by (target, source). */
  lemma TrimmedTargetsOrderByTarget(mounts: seq<Mount>, out: seq<Mount>)
    requires MergeResult(mounts, out)
    requires forall i :: 0 <= i < |mounts| ==> Trimmed(Normalized(mounts[i]).target)
    ensures TargetsStayApart(mounts)
    ensures forall i, j :: 0 <= i < j < |out| ==> PairLess(out[i].target, out[i].source, out[j].target, out[j].source)
  {
    forall i | 0 <= i < |mounts| ensures EffectiveTarget(Normalized(mounts[i])) == Normalized(mounts[i]).target {
      TrimmedTargetIsStable(mounts[i]);
    }
    DistinctTargetsAscend(mounts, out);
    ResultIsLastWriterMap(mounts, out);
    forall i, j | 0 <= i < j < |out|
      ensures PairLess(out[i].target, out[i].source, out[j].target, out[j].source)
    {
      assert ByTarget()(out[i], out[j]);
      assert out[i] in out && out[j] in out;
    }
  }

  lemma TrimmedTargetIsStable(m: Mount)
    requires Trimmed(Normalized(m).target)
    ensures EffectiveTarget(Normalized(m)) == Normalized(m).target
  {
    NothingIsSkipped(m);
    TrimSpaceFixes(Normalized(m).target);
    CleanIdempotent(TrimSpace(m.target));
    CleanIdempotent(TrimSpace(m.source));
  }

  lemma CleanOfSpacedElement()
    ensures Parse("/a /") == Path(true, ["a "])
  {
    var elems := ["", "a ", ""];
    assert Join(elems[2..], '/') == "";
    assert Join(elems[1..], '/') == "a " + "/" + Join(elems[1..][1..], '/');
    assert elems[1..][1..] == elems[2..];
    assert Join(elems, '/') == "" + "/" + ("a " + "/" + "");
    assert "" + "/" + ("a " + "/" + "") == "/a /";
    SplitJoin(elems, '/');
    assert elems[..2][..1] == [""] && [""][..0] == [] && elems[..2] == ["", "a "];
    assert Reduce(true, [""]) == [];
    assert Reduce(true, elems[..2]) == ["a "];
  }

  lemma CleanOfPlainElement()
    ensures Clean("/a") == "/a"
  {
    var plain := Path(true, ["a"]);
    assert Normal(plain) && Render(plain) == "/a";
    ParseRender(plain);
  }

  lemma TargetsOfSpaced(m: Mount)
    requires m.target == "/a /"
    ensures EffectiveTarget(m) == "/a "
  {
    TrimSpaceFixes("/a /");
    CleanOfSpacedElement();
    assert Join(["a "], '/') == "a ";
    assert Render(Path(true, ["a "])) == "/a ";
  }

  lemma TargetsOfPlain(m: Mount)
    requires m.target == "/a" || m.target == "/a "
    ensures EffectiveTarget(m) == "/a"
  {
    TrimSpaceFixes("/a");
    TrimSpaceDropsTail("/a");
    assert "/a" + " " == "/a ";
    CleanOfPlainElement();
  }

  /** The order is not strict for every input: "/a /" cleans to a target with a space at its end, which
      the order does not tell from "/a". */
  lemma SpacedTargetTies(m: Mount, n: Mount)
    requires m == Mount("/s", "/a /", None) && n == Mount("/s", "/a", None)
    ensures !TargetsStayApart([m, n])
  {
    TargetsOfSpaced(m);
    TargetsOfPlain(n);
    TargetsOfPlain(Normalized(m));
    TargetsOfPlain(Normalized(n));
    assert [m, n][0] == m && [m, n][1] == n;
    assert "/a " != "/a";
  }

  lemma TrimSpaceDropsTail(s: string)
    requires Trimmed(s) && s != ""
    ensures TrimSpace(s + " ") == s
  {
    var t := s + " ";
    assert t[0] == s[0] && t[|t|-1] == ' ' && t[..|t|-1] == s;
    assert TrimLeft(t) == t && TrimRight(t) == TrimRight(s) && TrimRight(s) == s;
  }
}
