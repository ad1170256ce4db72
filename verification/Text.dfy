/** String operations of the Go standard library that the modelled code relies on:
    strings.TrimSpace, strings.Index, strings.Split and strings.Join on one separator.
    A Go string is a sequence of characters here; slicing and searching never look inside one. */
module Text {

  /** unicode.IsSpace. */
  predicate IsSpace(c: char) {
    || '\t' <= c <= '\r' || c == ' ' || c == '\U{85}' || c == '\U{A0}' || c == '\U{1680}'
    || '\U{2000}' <= c <= '\U{200a}' || c == '\U{2028}' || c == '\U{2029}' || c == '\U{202f}'
    || c == '\U{205f}' || c == '\U{3000}'
  }

  predicate AllSpace(s: string) {
    forall i :: 0 <= i < |s| ==> IsSpace(s[i])
  }

  function TrimLeft(s: string): string {
    if s != [] && IsSpace(s[0]) then TrimLeft(s[1..]) else s
  }

  function TrimRight(s: string): string {
    if s != [] && IsSpace(s[|s|-1]) then TrimRight(s[..|s|-1]) else s
  }

  function TrimSpace(s: string): string {
    TrimRight(TrimLeft(s))
  }

  /** Neither end is white space. */
  predicate Trimmed(s: string) {
    s != [] ==> !IsSpace(s[0]) && !IsSpace(s[|s|-1])
  }

  lemma {:induction false} TrimRightShape(s: string)
    ensures TrimRight(s) <= s
    ensures TrimRight(s) != [] ==> !IsSpace(TrimRight(s)[|TrimRight(s)|-1])
  {
    if s != [] && IsSpace(s[|s|-1]) {
      TrimRightShape(s[..|s|-1]);
    }
  }

  lemma {:induction false} TrimLeftShape(s: string)
    ensures TrimLeft(s) != [] ==> !IsSpace(TrimLeft(s)[0])
  {
    if s != [] && IsSpace(s[0]) {
      TrimLeftShape(s[1..]);
    }
  }

  lemma TrimSpaceIsTrimmed(s: string)
    ensures Trimmed(TrimSpace(s))
  {
    TrimLeftShape(s);
    TrimRightShape(TrimLeft(s));
  }

  lemma TrimSpaceFixes(s: string)
    requires Trimmed(s)
    ensures TrimSpace(s) == s
  {
  }

  lemma TrimSpaceIdempotent(s: string)
    ensures TrimSpace(TrimSpace(s)) == TrimSpace(s)
  {
    TrimSpaceIsTrimmed(s);
    TrimSpaceFixes(TrimSpace(s));
  }

  lemma {:induction false} TrimSpaceDropsPadding(pad: string, s: string)
    requires AllSpace(pad) && Trimmed(s)
    ensures TrimSpace(pad + s) == s
  {
    if pad == [] {
      assert pad + s == s;
      TrimSpaceFixes(s);
    } else {
      assert (pad + s)[1..] == pad[1..] + s;
      TrimSpaceDropsPadding(pad[1..], s);
    }
  }

  lemma {:induction false} TrimRightDropsPadding(s: string, pad: string)
    requires AllSpace(pad) && s != "" && !IsSpace(s[|s|-1])
    ensures TrimRight(s + pad) == s
  {
    if pad == [] {
      assert s + pad == s;
    } else {
      assert (s + pad)[..|s + pad|-1] == s + pad[..|pad|-1];
      TrimRightDropsPadding(s, pad[..|pad|-1]);
    }
  }

  lemma {:induction false} TrimLeftDropsPadding(pad: string, s: string)
    requires AllSpace(pad) && (s != "" ==> !IsSpace(s[0]))
    ensures TrimLeft(pad + s) == s
  {
    if pad == [] {
      assert pad + s == s;
    } else {
      assert (pad + s)[1..] == pad[1..] + s;
      TrimLeftDropsPadding(pad[1..], s);
    }
  }

  /** Whatever white space stands around a text without any at its ends, trimming leaves the text. */
  lemma TrimSpaceDropsBoth(front: string, s: string, back: string)
    requires AllSpace(front) && Trimmed(s) && AllSpace(back)
    ensures TrimSpace(front + s + back) == s
  {
    if s == "" {
      assert front + s + back == front + back + "";
      TrimLeftDropsPadding(front + back, "");
    } else {
      assert front + s + back == front + (s + back);
      TrimLeftDropsPadding(front, s + back);
      TrimRightDropsPadding(s, back);
    }
  }

  predicate OccursAt(s: string, t: string, i: int) {
    0 <= i && i + |t| <= |s| && s[i..i + |t|] == t
  }

  /** strings.Contains. */
  predicate Contains(s: string, t: string) {
    Index(s, t) != -1
  }

  /** strings.Index: the first occurrence, or -1. */
  function Index(s: string, t: string): (r: int)
    ensures r == -1 || OccursAt(s, t, r)
    ensures forall i :: 0 <= i && (r == -1 || i < r) ==> !OccursAt(s, t, i)
  {
    IndexFrom(s, t, 0)
  }

  function IndexFrom(s: string, t: string, from: nat): (r: int)
    requires from <= |s|
    ensures r == -1 || (from <= r && OccursAt(s, t, r))
    ensures forall i :: from <= i && (r == -1 || i < r) ==> !OccursAt(s, t, i)
    decreases |s| - from
  {
    if OccursAt(s, t, from) then from
    else if from == |s| then -1
    else IndexFrom(s, t, from + 1)
  }

  /** An occurrence before which there is none is the one Index finds. */
  lemma IndexIs(s: string, t: string, i: int)
    requires OccursAt(s, t, i)
    requires forall j :: 0 <= j < i ==> !OccursAt(s, t, j)
    ensures Index(s, t) == i
  {
  }

  /** strings.Split on a one-character separator: always at least one piece. */
  function Split(s: string, sep: char): (r: seq<string>)
    ensures |r| >= 1
  {
    if s == [] then [[]]
    else
      var rest := Split(s[1..], sep);
      if s[0] == sep then [[]] + rest else [[s[0]] + rest[0]] + rest[1..]
  }

  /** strings.Join with a one-character separator. */
  function Join(pieces: seq<string>, sep: char): string {
    if |pieces| == 0 then []
    else if |pieces| == 1 then pieces[0]
    else pieces[0] + [sep] + Join(pieces[1..], sep)
  }

  lemma {:induction false} SplitPiecesHaveNoSep(s: string, sep: char)
    ensures forall p :: p in Split(s, sep) ==> sep !in p
  {
    if s != [] {
      SplitPiecesHaveNoSep(s[1..], sep);
      var rest := Split(s[1..], sep);
      forall p | p in Split(s, sep) ensures sep !in p {
        if s[0] != sep && p == [s[0]] + rest[0] {
          assert rest[0] in rest;
        }
      }
    }
  }

  lemma {:induction false} SplitWithoutSep(s: string, sep: char)
    requires sep !in s
    ensures Split(s, sep) == [s]
  {
    if s != [] {
      SplitWithoutSep(s[1..], sep);
      assert [s[0]] + s[1..] == s;
    }
  }

  /** Two lists of pieces set side by side, the last of one running on into the first of the other. */
  function Glue(sa: seq<string>, sb: seq<string>): (r: seq<string>)
    requires |sa| >= 1 && |sb| >= 1
    ensures |r| == |sa| + |sb| - 1
  {
    sa[..|sa|-1] + [sa[|sa|-1] + sb[0]] + sb[1..]
  }

  lemma GlueTail(sa: seq<string>, sb: seq<string>)
    requires |sa| > 1 && |sb| >= 1
    ensures Glue(sa, sb) == [sa[0]] + Glue(sa[1..], sb)
  {
  }

  /** Splitting a concatenation. */
  lemma {:induction false} SplitConcat(a: string, b: string, sep: char)
    ensures Split(a + b, sep) == Glue(Split(a, sep), Split(b, sep))
  {
    var sa, sb := Split(a, sep), Split(b, sep);
    if a == [] {
      assert a + b == b;
      assert [] + sb[0] == sb[0];
      assert sb == [sb[0]] + sb[1..];
    } else {
      var ra := Split(a[1..], sep);
      SplitConcat(a[1..], b, sep);
      assert (a + b)[1..] == a[1..] + b;
      if a[0] == sep {
        assert sa[1..] == ra;
        GlueTail(sa, sb);
      } else {
        SplitConcatSameLine(a[0], ra, sb);
      }
    }
  }

  lemma SplitConcatSameLine(c: char, ra: seq<string>, sb: seq<string>)
    requires |ra| >= 1 && |sb| >= 1
    ensures Glue([[c] + ra[0]] + ra[1..], sb) == [[c] + Glue(ra, sb)[0]] + Glue(ra, sb)[1..]
  {
    if |ra| == 1 {
      assert [c] + (ra[0] + sb[0]) == ([c] + ra[0]) + sb[0];
    } else {
      GlueTail(ra, sb);
      GlueTail([[c] + ra[0]] + ra[1..], sb);
      assert ([[c] + ra[0]] + ra[1..])[1..] == ra[1..];
    }
  }

  /** Split undoes Join on pieces free of the separator. */
  lemma {:induction false} SplitJoin(pieces: seq<string>, sep: char)
    requires |pieces| >= 1
    requires forall p :: p in pieces ==> sep !in p
    ensures Split(Join(pieces, sep), sep) == pieces
  {
    SplitWithoutSep(pieces[0], sep);
    if |pieces| == 1 {
      assert Join(pieces, sep) == pieces[0];
    } else {
      var rest := Join(pieces[1..], sep);
      SplitJoin(pieces[1..], sep);
      SplitConcat(pieces[0], [sep] + rest, sep);
      assert ([sep] + rest)[1..] == rest;
      assert pieces[0] + [sep] + rest == pieces[0] + ([sep] + rest);
      GlueToSeparator(pieces);
    }
  }

  lemma GlueToSeparator(pieces: seq<string>)
    requires pieces != []
    ensures Glue([pieces[0]], [[]] + pieces[1..]) == pieces
  {
    assert pieces[0] + [] == pieces[0];
    assert pieces == [pieces[0]] + pieces[1..];
  }

  lemma JoinPrependsChar(c: char, pieces: seq<string>, sep: char)
    requires pieces != []
    ensures Join([[c] + pieces[0]] + pieces[1..], sep) == [c] + Join(pieces, sep)
    ensures Join([[]] + pieces, sep) == [sep] + Join(pieces, sep)
  {
    var more := [[c] + pieces[0]] + pieces[1..];
    assert more[1..] == pieces[1..];
    if |pieces| > 1 {
      assert ([c] + pieces[0]) + [sep] + Join(pieces[1..], sep) == [c] + (pieces[0] + [sep] + Join(pieces[1..], sep));
    }
    assert ([[]] + pieces)[1..] == pieces;
    assert [] + [sep] + Join(pieces, sep) == [sep] + Join(pieces, sep);
  }

  /** Join undoes Split. */
  lemma {:induction false} JoinSplit(s: string, sep: char)
    ensures Join(Split(s, sep), sep) == s
  {
    if s != [] {
      JoinSplit(s[1..], sep);
      JoinPrependsChar(s[0], Split(s[1..], sep), sep);
      assert s == [s[0]] + s[1..];
    }
  }

  lemma {:induction false} JoinConcat(a: seq<string>, b: seq<string>, sep: char)
    requires a != [] && b != []
    ensures Join(a + b, sep) == Join(a, sep) + [sep] + Join(b, sep)
  {
    assert (a + b)[1..] == a[1..] + b;
    if |a| == 1 {
      assert a[1..] + b == b;
    } else {
      JoinConcat(a[1..], b, sep);
      assert a[0] + [sep] + (Join(a[1..], sep) + [sep] + Join(b, sep))
          == (a[0] + [sep] + Join(a[1..], sep)) + [sep] + Join(b, sep);
    }
  }

  /** strings.IndexByte. */
  function IndexByte(s: string, c: char): (r: int)
    ensures r == -1 <==> c !in s
    ensures r != -1 ==> 0 <= r < |s| && s[r] == c && c !in s[..r]
  {
    if s == [] then -1
    else if s[0] == c then 0
    else
      var r := IndexByte(s[1..], c);
      assert s == [s[0]] + s[1..];
      assert r != -1 ==> s[..r+1] == [s[0]] + s[1..][..r];
      if r == -1 then -1 else r + 1
  }

  lemma SplitAtFirst(s: string, sep: char)
    requires sep in s
    ensures Split(s, sep) == [s[..IndexByte(s, sep)]] + Split(s[IndexByte(s, sep)+1..], sep)
  {
    var i := IndexByte(s, sep);
    var line, rest := s[..i], s[i+1..];
    assert s == line + ([sep] + rest);
    SplitWithoutSep(line, sep);
    assert ([sep] + rest)[1..] == rest;
    SplitConcat(line, [sep] + rest, sep);
    assert line + [] == line;
  }

  /** Joining with a separator is injective where the front part does not contain it. */
  lemma FirstSeparatorUnique(a: string, b: string, restA: string, restB: string, sep: char)
    requires sep !in a && sep !in b
    requires a + [sep] + restA == b + [sep] + restB
    ensures a == b && restA == restB
  {
    var whole := a + [sep] + restA;
    assert whole[|a|] == sep && whole[|b|] == sep;
    assert forall i :: 0 <= i < |a| ==> whole[i] in a;
    assert forall i :: 0 <= i < |b| ==> whole[i] in b;
    assert |a| == |b|;
    assert a == whole[..|a|] && b == whole[..|b|];
    assert restA == whole[|a| + 1..] && restB == whole[|b| + 1..];
  }

  /** strings.TrimSuffix(line, "\r"). */
  function DropCR(line: string): string {
    if line != "" && line[|line|-1] == '\r' then line[..|line|-1] else line
  }

  function DropCRs(lines: seq<string>): (r: seq<string>)
    ensures |r| == |lines|
  {
    if lines == [] then [] else DropCRs(lines[..|lines|-1]) + [DropCR(lines[|lines|-1])]
  }

  lemma DropCRsSnoc(lines: seq<string>, line: string)
    ensures DropCRs(lines + [line]) == DropCRs(lines) + [DropCR(line)]
  {
    assert (lines + [line])[..|lines|] == lines;
  }

  lemma {:induction false} DropCRsConcat(a: seq<string>, b: seq<string>)
    ensures DropCRs(a + b) == DropCRs(a) + DropCRs(b)
  {
    if b == [] {
      assert a + b == a;
      assert DropCRs(a) + [] == DropCRs(a);
    } else {
      var front, last := b[..|b|-1], b[|b|-1];
      assert b == front + [last] && a + b == (a + front) + [last];
      DropCRsConcat(a, front);
      DropCRsSnoc(front, last);
      DropCRsSnoc(a + front, last);
      assert (DropCRs(a) + DropCRs(front)) + [DropCR(last)] == DropCRs(a) + (DropCRs(front) + [DropCR(last)]);
    }
  }
}
