/** Slash-separated paths: filepath.Clean, filepath.Rel and the containment test built on them. */
module Paths {
  import opened Results
  import opened Text

  /** A cleaned path: absolute or relative, and its elements. */
  datatype Path = Path(rooted: bool, elems: seq<string>)

  const DOT := Path(false, [])

  predicate Rooted(s: string) {
    s != "" && s[0] == '/'
  }

  /** What one element does to the elements before it. */
  function Push(rooted: bool, out: seq<string>, elem: string): seq<string> {
    if elem == "" || elem == "." then out
    else if elem != ".." then out + [elem]
    else if out != [] && out[|out|-1] != ".." then out[..|out|-1]
    else if rooted then out
    else out + [".."]
  }

  function Reduce(rooted: bool, elems: seq<string>): seq<string> {
    if elems == [] then [] else Push(rooted, Reduce(rooted, elems[..|elems|-1]), elems[|elems|-1])
  }

  function Parse(s: string): Path {
    Path(Rooted(s), Reduce(Rooted(s), Split(s, '/')))
  }

  function Render(p: Path): string {
    if p.rooted then "/" + Join(p.elems, '/')
    else if p.elems == [] then "." else Join(p.elems, '/')
  }

  /** filepath.Clean. */
  function Clean(s: string): string {
    Render(Parse(s))
  }

  predicate Plain(elem: string) {
    elem != "" && elem != "." && '/' !in elem
  }

  /** Plain elements, with ".." only at the front of a relative path. */
  predicate Normal(p: Path) {
    && (forall i :: 0 <= i < |p.elems| ==> Plain(p.elems[i]))
    && (forall i :: 0 <= i < |p.elems| && p.elems[i] == ".." ==>
          !p.rooted && forall j :: 0 <= j < i ==> p.elems[j] == "..")
  }

  lemma {:induction false} ReduceIsNormal(rooted: bool, elems: seq<string>)
    requires forall e :: e in elems ==> '/' !in e
    ensures Normal(Path(rooted, Reduce(rooted, elems)))
  {
    if elems != [] {
      ReduceIsNormal(rooted, elems[..|elems|-1]);
      assert elems[|elems|-1] in elems;
    }
  }

  lemma ParseIsNormal(s: string)
    ensures Normal(Parse(s))
  {
    SplitPiecesHaveNoSep(s, '/');
    ReduceIsNormal(Rooted(s), Split(s, '/'));
  }

  lemma PushAppends(rooted: bool, out: seq<string>, elem: string)
    requires Plain(elem) && (elem == ".." ==> !rooted && (out == [] || out[|out|-1] == ".."))
    ensures Push(rooted, out, elem) == out + [elem]
  {
  }

  lemma {:induction false} ReduceFixesNormal(rooted: bool, elems: seq<string>)
    requires Normal(Path(rooted, elems))
    ensures Reduce(rooted, elems) == elems
  {
    if elems != [] {
      var front, last := elems[..|elems|-1], elems[|elems|-1];
      NormalFront(rooted, elems);
      ReduceFixesNormal(rooted, front);
      PushAppends(rooted, front, last);
      assert elems == front + [last];
    }
  }

  lemma NormalFront(rooted: bool, elems: seq<string>)
    requires Normal(Path(rooted, elems)) && elems != []
    ensures Normal(Path(rooted, elems[..|elems|-1]))
  {
  }

  lemma {:induction false} ReduceDropsEmptyFront(rooted: bool, elems: seq<string>)
    ensures Reduce(rooted, [""] + elems) == Reduce(rooted, elems)
  {
    if elems == [] {
      assert [""] + elems == [""];
      assert [""][..0] == [];
    } else {
      ReduceDropsEmptyFront(rooted, elems[..|elems|-1]);
      assert ([""] + elems)[..|elems|] == [""] + elems[..|elems|-1];
    }
  }

  lemma {:induction false} ReduceContinues(rooted: bool, a: seq<string>, b: seq<string>, c: seq<string>)
    requires Reduce(rooted, a) == Reduce(rooted, b)
    ensures Reduce(rooted, a + c) == Reduce(rooted, b + c)
  {
    if c == [] {
      assert a + c == a && b + c == b;
    } else {
      ReduceContinues(rooted, a, b, c[..|c|-1]);
      assert (a + c)[..|a + c|-1] == a + c[..|c|-1] && (b + c)[..|b + c|-1] == b + c[..|c|-1];
    }
  }

  lemma ReduceSnoc(rooted: bool, a: seq<string>, elem: string)
    ensures Reduce(rooted, a + [elem]) == Push(rooted, Reduce(rooted, a), elem)
  {
    assert (a + [elem])[..|a|] == a;
  }

  lemma NothingIsDropped(rooted: bool, a: seq<string>, elem: string, b: seq<string>)
    requires elem == "" || elem == "."
    ensures Reduce(rooted, a + [elem] + b) == Reduce(rooted, a + b)
  {
    ReduceSnoc(rooted, a, elem);
    ReduceContinues(rooted, a + [elem], a, b);
  }

  lemma DotDotCancels(rooted: bool, a: seq<string>, x: string, b: seq<string>)
    requires x != "" && x != "." && x != ".."
    ensures Reduce(rooted, a + [x] + [".."] + b) == Reduce(rooted, a + b)
  {
    ReduceSnoc(rooted, a, x);
    ReduceSnoc(rooted, a + [x], "..");
    var out := Reduce(rooted, a);
    assert (out + [x])[..|out|] == out;
    ReduceContinues(rooted, a + [x] + [".."], a, b);
  }

  lemma RootHasNoParent(b: seq<string>)
    ensures Reduce(true, [".."] + b) == Reduce(true, b)
  {
    ReduceSnoc(true, [], "..");
    assert [] + [".."] == [".."] && [] + b == b;
    ReduceContinues(true, [".."], [], b);
  }

  /** The laws of cleaning, anywhere in a path: empty elements and "." mean nothing, an element and the
      ".." behind it cancel, and above the root there is only the root. With `ReduceFixesNormal` they
      determine it. */
  lemma ReduceLaws(rooted: bool, a: seq<string>, x: string, b: seq<string>)
    ensures x == "" || x == "." ==> Reduce(rooted, a + [x] + b) == Reduce(rooted, a + b)
    ensures x != "" && x != "." && x != ".." ==> Reduce(rooted, a + [x] + [".."] + b) == Reduce(rooted, a + b)
    ensures Reduce(true, [".."] + b) == Reduce(true, b)
  {
    if x == "" || x == "." {
      NothingIsDropped(rooted, a, x, b);
    } else if x != ".." {
      DotDotCancels(rooted, a, x, b);
    }
    RootHasNoParent(b);
  }

  lemma JoinStartsWithElem(elems: seq<string>)
    requires elems != [] && Plain(elems[0])
    ensures Join(elems, '/') != "" && Join(elems, '/')[0] == elems[0][0]
  {
  }

  /** Reading a rendered normal path gives it back. */
  lemma ParseRender(p: Path)
    requires Normal(p)
    ensures Parse(Render(p)) == p
  {
    ReduceFixesNormal(p.rooted, p.elems);
    if p.elems == [] {
      SplitOfDot();
      SplitOfSlash();
      assert p.rooted ==> Render(p) == "/";
      assert Reduce(true, ["", ""]) == [] && Reduce(false, ["."]) == [] by {
        assert ["", ""][..1] == [""] && [""][..0] == [] && ["."][..0] == [];
      }
    } else {
      var text := Join(p.elems, '/');
      SplitJoin(p.elems, '/');
      JoinStartsWithElem(p.elems);
      if p.rooted {
        assert ("/" + text)[1..] == text;
        ReduceDropsEmptyFront(true, p.elems);
      }
    }
  }

  lemma SplitOfDot()
    ensures Split(".", '/') == ["."]
  {
    SplitWithoutSep(".", '/');
  }

  lemma SplitOfSlash()
    ensures Split("/", '/') == ["", ""]
  {
    assert "/"[1..] == "";
  }

  lemma CleanIdempotent(s: string)
    ensures Clean(Clean(s)) == Clean(s) && Parse(Clean(s)) == Parse(s) && Clean(s) != ""
  {
    ParseIsNormal(s);
    ParseRender(Parse(s));
    if Parse(s).elems != [] {
      JoinStartsWithElem(Parse(s).elems);
    }
  }

  // ---- Containment ----

  function CommonLength(a: seq<string>, b: seq<string>): (n: nat)
    ensures n <= |a| && n <= |b| && a[..n] == b[..n]
    ensures n < |a| && n < |b| ==> a[n] != b[n]
  {
    if a == [] || b == [] || a[0] != b[0] then 0
    else
      var n := CommonLength(a[1..], b[1..]);
      assert a[..n+1] == [a[0]] + a[1..][..n] && b[..n+1] == [b[0]] + b[1..][..n];
      n + 1
  }

  function Ups(n: nat): seq<string> {
    if n == 0 then [] else [".."] + Ups(n - 1)
  }

  /** filepath.Rel on cleaned paths: up to the common front, then down. */
  function Rel(base: Path, target: Path): Option<string> {
    if base == target then Some(".")
    else if base.rooted != target.rooted then None
    else
      var n := CommonLength(base.elems, target.elems);
      if n < |base.elems| && n < |target.elems| && base.elems[n] == ".." then None
      else Some(Join(Ups(|base.elems| - n) + target.elems[n..], '/'))
  }

  /** The test on the relative path: neither ".." nor anything below it. */
  predicate Stays(rel: string) {
    rel == "." || (rel != ".." && !("../" <= rel))
  }

  predicate RelStays(root: Path, candidate: Path) {
    Rel(root, candidate).Some? && Stays(Rel(root, candidate).value)
  }

  predicate PathWithinRoot(root: string, candidate: string) {
    Clean(root) == Clean(candidate) || RelStays(Parse(Clean(root)), Parse(Clean(candidate)))
  }

  /** The elements of one path continue those of the other, without climbing. */
  predicate Under(p: Path, q: Path) {
    p.rooted == q.rooted && p.elems <= q.elems && (|p.elems| < |q.elems| ==> q.elems[|p.elems|] != "..")
  }

  lemma ClimbingPrefix(rel: string)
    requires "../" <= rel
    ensures Split(rel, '/')[0] == ".."
  {
    var rest := rel[3..];
    assert rel == ".." + ("/" + rest) && ("/" + rest)[1..] == rest;
    SplitWithoutSep("..", '/');
    SplitConcat("..", "/" + rest, '/');
    assert Split("/" + rest, '/')[0] == "";
    assert ".." + "" == "..";
  }

  lemma JoinOfClimb(elems: seq<string>)
    requires elems != [] && elems[0] == ".."
    ensures Join(elems, '/') == ".." || "../" <= Join(elems, '/')
  {
    if |elems| > 1 {
      assert Join(elems, '/') == "../" + Join(elems[1..], '/');
    }
  }

  lemma StaysIff(elems: seq<string>)
    requires elems != [] && forall i :: 0 <= i < |elems| ==> Plain(elems[i])
    ensures Stays(Join(elems, '/')) <==> elems[0] != ".."
  {
    var rel := Join(elems, '/');
    SplitJoin(elems, '/');
    SplitOfDot();
    SplitWithoutSep("..", '/');
    if "../" <= rel {
      ClimbingPrefix(rel);
    }
    if elems[0] == ".." {
      JoinOfClimb(elems);
    }
  }

  lemma RelStaysIffUnder(p: Path, q: Path)
    requires Normal(p) && Normal(q) && p != q
    ensures RelStays(p, q) <==> Under(p, q)
  {
    if p.rooted == q.rooted {
      var n := CommonLength(p.elems, q.elems);
      UpsArePlain(|p.elems| - n);
      var elems := Ups(|p.elems| - n) + q.elems[n..];
      if n == |p.elems| {
        assert p.elems <= q.elems;
        assert elems == q.elems[n..];
        assert q.elems[n..] != [] || p.elems == q.elems;
      } else {
        assert !(p.elems <= q.elems);
      }
      StaysIff(elems);
    }
  }

  /** The containment test holds exactly when one path's elements are a prefix of the other's and the
      rest does not climb. */
  lemma WithinIffUnder(root: string, candidate: string)
    ensures PathWithinRoot(root, candidate) <==> Under(Parse(root), Parse(candidate))
  {
    CleanIdempotent(root);
    CleanIdempotent(candidate);
    ParseIsNormal(root);
    ParseIsNormal(candidate);
    if Parse(root) != Parse(candidate) {
      RelStaysIffUnder(Parse(root), Parse(candidate));
    }
  }

  lemma {:induction false} UpsArePlain(n: nat)
    ensures |Ups(n)| == n && forall i :: 0 <= i < n ==> Plain(Ups(n)[i]) && Ups(n)[i] == ".."
  {
    if n > 0 {
      UpsArePlain(n - 1);
    }
  }

  // ---- Containment is a partial order ----

  lemma UnderIsPartialOrder(p: Path, q: Path, r: Path)
    ensures Under(p, p)
    ensures Under(p, q) && Under(q, p) ==> p == q
    ensures Under(p, q) && Under(q, r) ==> Under(p, r)
  {
  }

  /** Containment is reflexive, antisymmetric up to cleaning, and transitive. */
  lemma WithinIsPartialOrder(a: string, b: string, c: string)
    ensures PathWithinRoot(a, a)
    ensures PathWithinRoot(a, b) && PathWithinRoot(b, a) ==> Clean(a) == Clean(b)
    ensures PathWithinRoot(a, b) && PathWithinRoot(b, c) ==> PathWithinRoot(a, c)
  {
    WithinIffUnder(a, b);
    WithinIffUnder(b, a);
    WithinIffUnder(b, c);
    WithinIffUnder(a, c);
    UnderIsPartialOrder(Parse(a), Parse(b), Parse(a));
    UnderIsPartialOrder(Parse(a), Parse(b), Parse(c));
  }

  lemma PrefixesAreNested(p: Path, q: Path, r: Path)
    requires Under(p, r) && Under(q, r)
    ensures Under(p, q) || Under(q, p)
  {
  }

  /** Two roots of one path are nested. */
  lemma RootsAreNested(a: string, b: string, c: string)
    requires PathWithinRoot(a, c) && PathWithinRoot(b, c)
    ensures PathWithinRoot(a, b) || PathWithinRoot(b, a)
  {
    WithinIffUnder(a, c);
    WithinIffUnder(b, c);
    WithinIffUnder(a, b);
    WithinIffUnder(b, a);
    PrefixesAreNested(Parse(a), Parse(b), Parse(c));
  }

  lemma LongerJoin(front: seq<string>, rest: seq<string>)
    requires rest != [] && Plain(rest[0])
    ensures |Join(front + rest, '/')| > (if front == [] then 0 else |Join(front, '/')| + 1)
  {
    JoinStartsWithElem(rest);
    if front == [] {
      assert front + rest == rest;
    } else {
      JoinConcat(front, rest, '/');
    }
  }

  lemma StrictPrefixIsShorter(p: Path, q: Path)
    requires Normal(q) && Under(p, q) && p != q && p != DOT
    ensures |Render(p)| < |Render(q)|
  {
    var rest := q.elems[|p.elems|..];
    assert q.elems == p.elems + rest;
    assert rest != [];
    LongerJoin(p.elems, rest);
  }

  /** A strict ancestor other than "." is a strictly shorter string. */
  lemma StrictAncestorIsShorter(a: string, b: string)
    requires PathWithinRoot(a, b) && Clean(a) != Clean(b) && Clean(a) != "."
    ensures |Clean(a)| < |Clean(b)|
  {
    WithinIffUnder(a, b);
    ParseIsNormal(b);
    StrictPrefixIsShorter(Parse(a), Parse(b));
  }
}
