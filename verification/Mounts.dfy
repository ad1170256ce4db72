/** Mount planning for Lima: collapsing the discovered mount paths to the minimal ones. */
module Mounts {
  import opened Results
  import opened Text
  import opened Filtering
  import opened Paths

  // ---- The order of strings ----

  predicate StrLess(a: string, b: string) {
    b != "" && (a == "" || a[0] < b[0] || (a[0] == b[0] && StrLess(a[1..], b[1..])))
  }

  lemma {:induction false} StrLessIsTotal(a: string, b: string)
    ensures (StrLess(a, b) && !StrLess(b, a) && a != b) || (StrLess(b, a) && !StrLess(a, b) && a != b)
            || (a == b && !StrLess(a, b))
  {
    if a != "" && b != "" && a[0] == b[0] {
      StrLessIsTotal(a[1..], b[1..]);
      assert a == [a[0]] + a[1..] && b == [b[0]] + b[1..];
    }
  }

  lemma {:induction false} StrLessIsTransitive(a: string, b: string, c: string)
    requires StrLess(a, b) && StrLess(b, c)
    ensures StrLess(a, c)
  {
    if a != "" && a[0] == b[0] == c[0] {
      StrLessIsTransitive(a[1..], b[1..], c[1..]);
    }
  }

  /** Strings are ordered by their first difference, and a proper prefix comes first. */
  lemma {:induction false} StrLessAt(a: string, b: string, k: nat)
    requires k <= |a| && k <= |b| && a[..k] == b[..k] && (k < |a| && k < |b| ==> a[k] != b[k])
    requires k == |a| || k == |b| || a[k] != b[k]
    ensures StrLess(a, b) <==> k < |b| && (k == |a| || a[k] < b[k])
  {
    if k > 0 {
      assert a[0] == a[..k][0] == b[..k][0] == b[0];
      assert a[1..][..k-1] == a[..k][1..] == b[..k][1..] == b[1..][..k-1];
      StrLessAt(a[1..], b[1..], k - 1);
    }
  }

  /** Shorter paths first, equal lengths in string order. */
  predicate ShorterFirst(a: string, b: string) {
    if |a| == |b| then StrLess(a, b) else |a| < |b|
  }

  function ByLength(): (string, string) -> bool {
    (a: string, b: string) => ShorterFirst(a, b)
  }

  lemma ShorterFirstIsOrder(a: string, b: string, c: string)
    ensures !ShorterFirst(a, a)
    ensures ShorterFirst(a, b) && ShorterFirst(b, c) ==> ShorterFirst(a, c)
    ensures a == b || ShorterFirst(a, b) || ShorterFirst(b, a)
  {
    StrLessIsTotal(a, a);
    StrLessIsTotal(a, b);
    if ShorterFirst(a, b) && ShorterFirst(b, c) && |a| == |b| == |c| {
      StrLessIsTransitive(a, b, c);
    }
  }

  lemma ByLengthIsStrictWeakOrder()
    ensures StrictWeakOrder(ByLength())
  {
    forall x ensures !ByLength()(x, x) {
      ShorterFirstIsOrder(x, x, x);
    }
    forall x, y, z | ByLength()(x, y) && ByLength()(y, z) ensures ByLength()(x, z) {
      ShorterFirstIsOrder(x, y, z);
    }
    forall x, y, z | ByLength()(x, z) ensures ByLength()(x, y) || ByLength()(y, z) {
      ShorterFirstIsOrder(x, y, z);
      ShorterFirstIsOrder(y, x, z);
    }
  }

  // ---- Collapsing ----

  /** No other candidate contains this one. */
  ghost predicate Minimal(p: string, candidates: set<string>) {
    p in candidates && forall q :: q in candidates && PathWithinRoot(q, p) ==> q == p
  }

  /** What a candidate is: a cleaned path, and not ".". */
  predicate Usable(p: string) {
    Clean(p) == p && p != "."
  }

  predicate AllUsable(candidates: set<string>) {
    forall p :: p in candidates ==> Usable(p)
  }

  /** The position behind the last slash. */
  function DirEnd(path: string): (n: nat)
    ensures n <= |path|
  {
    if path == "" || path[|path|-1] == '/' then |path| else DirEnd(path[..|path|-1])
  }

  /** filepath.Dir. */
  function Dir(path: string): string {
    Clean(path[..DirEnd(path)])
  }

  /** What a symlink target adds to the candidates: its directory, unless that is "/" or ".". */
  function CandidateFor(target: string, isDir: bool): Option<string> {
    var mountPath := if isDir then Clean(target) else Dir(Clean(target));
    if mountPath == "/" || mountPath == "." then None else Some(mountPath)
  }

  /** A path without its last element, as text that ends behind the slash before that. */
  function Head(rooted: bool, front: seq<string>): string {
    if front == [] then (if rooted then "/" else "") else (if rooted then "/" else "") + Join(front, '/') + "/"
  }

  lemma DirOfSplit(head: string, last: string)
    requires '/' !in last && (head == "" || head[|head|-1] == '/')
    ensures Dir(head + last) == Clean(head)
  {
    DirEndAt(head, last);
    assert (head + last)[..|head|] == head;
  }

  /** The directory of a path drops its last element. */
  lemma DirDropsLast(path: string)
    requires Parse(path).elems != []
    ensures var p := Parse(path);
            Parse(Dir(Clean(path))) == Path(p.rooted, p.elems[..|p.elems|-1])
  {
    var p := Parse(path);
    var front, last := p.elems[..|p.elems|-1], p.elems[|p.elems|-1];
    ParseIsNormal(path);
    RenderSplits(p, front, last, Head(p.rooted, front));
    DirOfSplit(Head(p.rooted, front), last);
    CleanIdempotent(Head(p.rooted, front));
    ParseHead(p.rooted, front, Head(p.rooted, front));
  }

  lemma RenderSplits(p: Path, front: seq<string>, last: string, head: string)
    requires p.elems == front + [last]
    requires head == Head(p.rooted, front)
    ensures Render(p) == head + last
  {
    if front == [] {
      assert p.elems == [last];
    } else {
      JoinConcat(front, [last], '/');
    }
  }

  lemma {:induction false} DirEndAt(head: string, last: string)
    requires '/' !in last && (head == "" || head[|head|-1] == '/')
    ensures DirEnd(head + last) == |head|
  {
    if last == "" {
      assert head + last == head;
    } else {
      assert (head + last)[..|head + last|-1] == head + last[..|last|-1];
      DirEndAt(head, last[..|last|-1]);
    }
  }

  lemma ParseHead(rooted: bool, front: seq<string>, head: string)
    requires Normal(Path(rooted, front))
    requires head == Head(rooted, front)
    ensures Parse(head) == Path(rooted, front)
  {
    if front == [] {
      ParseEmptyHead();
    } else {
      ParseElementsHead(rooted, front, Join(front, '/') + "/");
      assert rooted ==> head == "/" + (Join(front, '/') + "/");
      assert !rooted ==> head == Join(front, '/') + "/";
    }
  }

  lemma ParseEmptyHead()
    ensures Parse("/") == Path(true, []) && Parse("") == Path(false, [])
  {
    SplitOfSlash();
    assert ["", ""][..1] == [""] && [""][..0] == [];
    assert Reduce(true, [""]) == [] && Reduce(false, [""]) == [] && Reduce(true, ["", ""]) == [];
  }

  lemma SplitHead(front: seq<string>, head: string)
    requires front != [] && (forall i :: 0 <= i < |front| ==> Plain(front[i])) && head == Join(front, '/') + "/"
    ensures Split(head, '/') == front + [""]
  {
    JoinConcat(front, [""], '/');
    assert Join(front + [""], '/') == head + "" == head;
    SplitJoin(front + [""], '/');
  }

  lemma ParseElementsHead(rooted: bool, front: seq<string>, head: string)
    requires Normal(Path(rooted, front)) && front != [] && head == Join(front, '/') + "/"
    ensures Parse(if rooted then "/" + head else head) == Path(rooted, front)
  {
    SplitHead(front, head);
    ReduceFixesNormal(rooted, front);
    ReduceSnoc(rooted, front, "");
    ReduceDropsEmptyFront(rooted, front + [""]);
    JoinStartsWithElem(front);
    assert head[0] == front[0][0];
    if rooted {
      SlashInFront(head);
    }
  }

  lemma SlashInFront(text: string)
    ensures Rooted("/" + text) && Split("/" + text, '/') == [""] + Split(text, '/')
  {
    assert ("/" + text)[1..] == text;
  }

  /** A directory stands for itself and a file for its directory, as cleaned paths; only "/" and "." are
      no candidates. */
  lemma CandidateMeans(target: string, isDir: bool)
    ensures var t, c := Parse(target), CandidateFor(target, isDir);
            var dir := if isDir || t.elems == [] then t else Path(t.rooted, t.elems[..|t.elems|-1]);
            && (c.None? <==> dir.elems == [])
            && (c.Some? ==> Clean(c.value) == c.value && Parse(c.value) == dir)
  {
    var t := Parse(target);
    CleanIdempotent(target);
    CleanIdempotent(Clean(target)[..DirEnd(Clean(target))]);
    ParseIsNormal(target);
    if isDir || t.elems == [] {
      RootsRender(t);
      if !isDir {
        assert Dir(Clean(target)) == Clean(target) by {
          DirOfRoot(target);
        }
      }
    } else {
      DirDropsLast(target);
      ParseIsNormal(Clean(target)[..DirEnd(Clean(target))]);
      RootsRender(Parse(Dir(Clean(target))));
      CleanIdempotent(Dir(Clean(target)));
    }
  }

  lemma RootsRender(p: Path)
    requires Normal(p)
    ensures Render(p) == "/" || Render(p) == "." <==> p.elems == []
  {
    ParseRender(p);
    ParseRender(Path(true, []));
    ParseRender(DOT);
    assert Render(Path(true, [])) == "/" && Render(DOT) == ".";
  }

  lemma DirOfRoot(target: string)
    requires Parse(target).elems == []
    ensures Dir(Clean(target)) == Clean(target)
  {
    ParseHead(false, [], "");
    ParseHead(true, [], "/");
    if Parse(target).rooted {
      assert Clean(target) == "/";
      assert DirEnd("/") == 1;
    } else {
      assert Clean(target) == ".";
      assert DirEnd("."[..0]) == 0;
      assert DirEnd(".") == 0;
    }
  }

  lemma CandidateIsUsable(target: string, isDir: bool)
    ensures CandidateFor(target, isDir).Some? ==> Usable(CandidateFor(target, isDir).value)
  {
    CleanIdempotent(target);
    CleanIdempotent(Clean(target)[..DirEnd(Clean(target))]);
  }

  /** Below every candidate lies a minimal one that contains it. */
  lemma {:induction false} MinimalBelow(p: string, candidates: set<string>) returns (m: string)
    requires AllUsable(candidates) && p in candidates
    ensures Minimal(m, candidates) && PathWithinRoot(m, p) && (m == p || |m| < |p|)
    decreases |p|
  {
    if Minimal(p, candidates) {
      m := p;
    } else {
      var q :| q in candidates && PathWithinRoot(q, p) && q != p;
      StrictAncestorIsShorter(q, p);
      m := MinimalBelow(q, candidates);
      WithinIsPartialOrder(m, q, p);
    }
  }

  /** The keys of the candidate map, in any order. */
  method Enumerate(candidates: set<string>) returns (paths: seq<string>)
    ensures forall p :: p in paths <==> p in candidates
    ensures Distinct(paths)
  {
    paths := [];
    var rest := candidates;
    while rest != {}
      invariant rest <= candidates && forall p :: p in paths <==> p in candidates - rest
      invariant Distinct(paths)
      decreases rest
    {
      var p :| p in rest;
      assert forall i :: 0 <= i < |paths| ==> paths[i] in paths && paths[i] != p;
      paths := paths + [p];
      rest := rest - {p};
    }
  }

  predicate Increasing(paths: seq<string>) {
    forall i, j :: 0 <= i < j < |paths| ==> ShorterFirst(paths[i], paths[j])
  }

  method SortPaths(paths: seq<string>) returns (sorted: seq<string>)
    requires Distinct(paths)
    ensures Increasing(sorted) && forall p :: p in sorted <==> p in paths
  {
    ByLengthIsStrictWeakOrder();
    sorted := SortSlice(paths, ByLength());
    PermutationMembers(sorted, paths);
    SortedIsIncreasing(paths, sorted);
  }

  lemma SortedIsIncreasing(paths: seq<string>, sorted: seq<string>)
    requires Distinct(paths) && multiset(sorted) == multiset(paths) && SortedBy(sorted, ByLength())
    ensures Increasing(sorted)
  {
    PermutationStaysDistinct(paths, sorted);
    forall i, j | 0 <= i < j < |sorted| ensures ShorterFirst(sorted[i], sorted[j]) {
      assert !ByLength()(sorted[j], sorted[i]);
      ShorterFirstIsOrder(sorted[i], sorted[j], sorted[j]);
    }
  }

  /** The collapse phase: exactly the minimal candidates, shortest first. */
  method Collapse(candidates: set<string>) returns (collapsed: seq<string>)
    requires AllUsable(candidates)
    ensures Increasing(collapsed) && forall p :: p in collapsed <==> Minimal(p, candidates)
  {
    var enumerated := Enumerate(candidates);
    var paths := SortPaths(enumerated);
    collapsed := [];
    for i := 0 to |paths|
      invariant forall p :: p in collapsed <==> p in paths[..i] && Minimal(p, candidates)
      invariant Increasing(collapsed)
    {
      var candidate := paths[i];
      var skip := IsCovered(collapsed, candidate);
      assert paths[..i+1] == paths[..i] + [candidate];
      KeptIffMinimal(paths, i, collapsed, candidates);
      if !skip {
        collapsed := collapsed + [candidate];
      }
    }
    assert paths[..|paths|] == paths;
  }

  /** None of the first k paths contains the candidate. */
  predicate NoneCovers(paths: seq<string>, k: nat, candidate: string) {
    k <= |paths| && forall x :: 0 <= x < k ==> !PathWithinRoot(paths[x], candidate)
  }

  lemma NoneCoversSnoc(paths: seq<string>, k: nat, candidate: string)
    requires k < |paths| && NoneCovers(paths, k, candidate)
    ensures NoneCovers(paths, k + 1, candidate) <==> !PathWithinRoot(paths[k], candidate)
  {
  }

  /** The inner loop: does a kept path contain this one? */
  method IsCovered(collapsed: seq<string>, candidate: string) returns (skip: bool)
    ensures skip <==> exists k :: 0 <= k < |collapsed| && PathWithinRoot(collapsed[k], candidate)
  {
    skip := false;
    for k := 0 to |collapsed|
      invariant !skip && NoneCovers(collapsed, k, candidate)
    {
      NoneCoversSnoc(collapsed, k, candidate);
      if PathWithinRoot(collapsed[k], candidate) {
        skip := true;
        break;
      }
    }
  }

  lemma KeptIffMinimal(paths: seq<string>, i: nat, collapsed: seq<string>, candidates: set<string>)
    requires AllUsable(candidates) && i < |paths| && Increasing(paths)
    requires forall p :: p in paths <==> p in candidates
    requires forall p :: p in collapsed <==> p in paths[..i] && Minimal(p, candidates)
    ensures Minimal(paths[i], candidates)
            <==> forall k :: 0 <= k < |collapsed| ==> !PathWithinRoot(collapsed[k], paths[i])
    ensures forall k :: 0 <= k < |collapsed| ==> ShorterFirst(collapsed[k], paths[i])
  {
    var c := paths[i];
    assert c in paths;
    forall k | 0 <= k < |collapsed| ensures ShorterFirst(collapsed[k], c) && collapsed[k] != c {
      assert collapsed[k] in collapsed;
      var j :| 0 <= j < i && paths[j] == collapsed[k];
      ShorterFirstIsOrder(c, c, c);
    }
    var m := MinimalBelow(c, candidates);
    if m != c {
      var j :| 0 <= j < |paths| && paths[j] == m;
      ShorterFirstIsOrder(m, c, m);
      assert j < i;
      assert m in paths[..i];
      var k :| 0 <= k < |collapsed| && collapsed[k] == m;
    }
    forall k | 0 <= k < |collapsed| ensures collapsed[k] in candidates {
      assert collapsed[k] in collapsed;
    }
  }

  // ---- What collapsing guarantees ----

  /** The order of the result: by length, and among equally long paths by their first difference. */
  lemma IncreasingMeans(paths: seq<string>, i: nat, j: nat, k: nat)
    requires Increasing(paths) && i < j < |paths|
    requires |paths[i]| == |paths[j]| ==>
               k < |paths[i]| && paths[i][..k] == paths[j][..k] && paths[i][k] != paths[j][k]
    ensures |paths[i]| <= |paths[j]| && (|paths[i]| == |paths[j]| ==> paths[i][k] < paths[j][k])
  {
    if |paths[i]| == |paths[j]| {
      StrLessAt(paths[i], paths[j], k);
    }
  }

  /** Kept mounts are pairwise non-nested, and every candidate lies under exactly one of them. */
  lemma CollapsedIsAntichainCover(candidates: set<string>, collapsed: seq<string>, p: string)
    requires AllUsable(candidates) && p in candidates
    requires forall q :: q in collapsed <==> Minimal(q, candidates)
    ensures forall a, b :: a in collapsed && b in collapsed && PathWithinRoot(a, b) ==> a == b
    ensures exists m :: m in collapsed && PathWithinRoot(m, p)
    ensures forall a, b :: a in collapsed && b in collapsed && PathWithinRoot(a, p) && PathWithinRoot(b, p) ==> a == b
  {
    var m := MinimalBelow(p, candidates);
    forall a, b | a in collapsed && b in collapsed && PathWithinRoot(a, p) && PathWithinRoot(b, p) ensures a == b {
      RootsAreNested(a, b, p);
    }
  }

  /** The result does not depend on the order in which the candidate map was walked. */
  lemma CollapseIsDeterministic(candidates: set<string>, one: seq<string>, other: seq<string>)
    requires Increasing(one) && forall p :: p in one <==> Minimal(p, candidates)
    requires Increasing(other) && forall p :: p in other <==> Minimal(p, candidates)
    ensures one == other
  {
    ByLengthIsStrictWeakOrder();
    StrictWeakOrderIsAsymmetric(ByLength());
    AscendingIsUnique(one, other, ByLength());
  }
}
