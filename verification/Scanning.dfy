/** Reading lines one by one with a state, output at each line, and output at the end; and attempts
    that stop at the first failure. */
module Scanning {

  /** So many attempts were made in order, the first with this number, stopping behind the first that
      fails: `ok` says that none did. */
  ghost predicate StopsAtFailure(count: nat, ok: bool, succeeds: nat -> bool, from: nat) {
    && (forall k: nat :: from <= k < from + count - 1 ==> succeeds(k))
    && ok == (count == 0 || succeeds(from + count - 1))
  }

  lemma OneMoreAttempt(count: nat, ok: bool, succeeds: nat -> bool, from: nat)
    requires StopsAtFailure(count, true, succeeds, from) && ok == succeeds(from + count)
    ensures StopsAtFailure(count + 1, ok, succeeds, from)
  {
  }

  /** Make one more attempt, if there is one. */
  method Attempt<T>(before: seq<T>, more: seq<T>, succeeds: nat -> bool, from: nat) returns (made: seq<T>, ok: bool)
    requires |more| <= 1 && StopsAtFailure(|before|, true, succeeds, from)
    ensures made == before + more && StopsAtFailure(|made|, ok, succeeds, from)
  {
    OneMoreAttempt(|before|, succeeds(from + |before|), succeeds, from);
    made := before + more;
    ok := more == [] || succeeds(from + |before|);
  }

  function StateAfter<S, L>(step: (S, L) -> S, s: S, lines: seq<L>): S {
    if lines == [] then s else step(StateAfter(step, s, lines[..|lines|-1]), lines[|lines|-1])
  }

  function OutputDuring<S, L, C>(step: (S, L) -> S, emit: (S, L) -> seq<C>, s: S, lines: seq<L>): seq<C> {
    if lines == [] then []
    else
      var front := lines[..|lines|-1];
      OutputDuring(step, emit, s, front) + emit(StateAfter(step, s, front), lines[|lines|-1])
  }

  function OutputToTheEnd<S, L, C>(step: (S, L) -> S, emit: (S, L) -> seq<C>, final: S -> seq<C>, s: S,
                                   lines: seq<L>): seq<C> {
    OutputDuring(step, emit, s, lines) + final(StateAfter(step, s, lines))
  }

  lemma OneMoreLine<S, L, C>(step: (S, L) -> S, emit: (S, L) -> seq<C>, s: S, lines: seq<L>, line: L)
    ensures StateAfter(step, s, lines + [line]) == step(StateAfter(step, s, lines), line)
    ensures OutputDuring(step, emit, s, lines + [line])
         == OutputDuring(step, emit, s, lines) + emit(StateAfter(step, s, lines), line)
  {
    assert (lines + [line])[..|lines|] == lines;
  }

  /** Reading goes on behind some lines in the state they left. */
  lemma {:induction false} MoreLines<S, L, C>(step: (S, L) -> S, emit: (S, L) -> seq<C>, s: S, a: seq<L>, b: seq<L>)
    ensures StateAfter(step, s, a + b) == StateAfter(step, StateAfter(step, s, a), b)
    ensures OutputDuring(step, emit, s, a + b)
         == OutputDuring(step, emit, s, a) + OutputDuring(step, emit, StateAfter(step, s, a), b)
  {
    if b == [] {
      assert a + b == a;
    } else {
      var front, last := b[..|b|-1], b[|b|-1];
      MoreLines(step, emit, s, a, front);
      assert a + b == (a + front) + [last];
      OneMoreLine(step, emit, s, a + front, last);
    }
  }

  lemma MoreLinesToTheEnd<S, L, C>(step: (S, L) -> S, emit: (S, L) -> seq<C>, final: S -> seq<C>, s: S, a: seq<L>,
                                   b: seq<L>)
    ensures OutputToTheEnd(step, emit, final, s, a + b)
         == OutputDuring(step, emit, s, a) + OutputToTheEnd(step, emit, final, StateAfter(step, s, a), b)
  {
    MoreLines(step, emit, s, a, b);
  }

  function Copies<L>(line: L, n: nat): seq<L> {
    if n == 0 then [] else Copies(line, n - 1) + [line]
  }

  /** A line that resets the state has its effect once, however often it is repeated. */
  lemma {:induction false} ResettingLine<S, L, C>(step: (S, L) -> S, emit: (S, L) -> seq<C>, s: S, reset: S, line: L,
                                                  n: nat)
    requires step(s, line) == reset && step(reset, line) == reset && emit(reset, line) == []
    ensures StateAfter(step, s, Copies(line, n)) == (if n == 0 then s else reset)
    ensures OutputDuring(step, emit, s, Copies(line, n)) == (if n == 0 then [] else emit(s, line))
  {
    if n > 0 {
      ResettingLine(step, emit, s, reset, line, n - 1);
      OneMoreLine(step, emit, s, Copies(line, n - 1), line);
    }
  }

  /** Lines that change neither state nor output may be left out. */
  function Without<L>(lines: seq<L>, silent: L -> bool): seq<L> {
    if lines == [] then []
    else
      var last := lines[|lines|-1];
      Without(lines[..|lines|-1], silent) + (if silent(last) then [] else [last])
  }

  lemma {:induction false} SilentLines<S(!new), L(!new), C>(step: (S, L) -> S, emit: (S, L) -> seq<C>,
                                                            silent: L -> bool, s: S, lines: seq<L>)
    requires forall x, l :: silent(l) ==> step(x, l) == x && emit(x, l) == []
    ensures StateAfter(step, s, lines) == StateAfter(step, s, Without(lines, silent))
    ensures OutputDuring(step, emit, s, lines) == OutputDuring(step, emit, s, Without(lines, silent))
  {
    if lines != [] {
      var front, last := lines[..|lines|-1], lines[|lines|-1];
      SilentLines(step, emit, silent, s, front);
      OneMoreLine(step, emit, s, front, last);
      assert lines == front + [last];
      if silent(last) {
        assert Without(lines, silent) == Without(front, silent);
      } else {
        OneMoreLine(step, emit, s, Without(front, silent), last);
      }
    }
  }
}
