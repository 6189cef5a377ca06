// Runs of a step function: the schedules of the two hand-offs and of the start gate.
module Schedules {
  function Run<S, T>(apply: (S, T) -> S, s: S, schedule: seq<T>): S
    decreases |schedule|
  {
    if schedule == [] then s else Run(apply, apply(s, schedule[0]), schedule[1..])
  }

  lemma {:induction false} RunAppend<S, T>(apply: (S, T) -> S, s: S, first: seq<T>, second: seq<T>)
    ensures Run(apply, s, first + second) == Run(apply, Run(apply, s, first), second)
    decreases |first|
  {
    if first == [] {
      assert first + second == second;
    } else {
      assert (first + second)[1..] == first[1..] + second;
      RunAppend(apply, apply(s, first[0]), first[1..], second);
    }
  }

  lemma RunOne<S, T>(apply: (S, T) -> S, s: S, step: T, rest: seq<T>)
    ensures Run(apply, s, [step] + rest) == Run(apply, apply(s, step), rest)
  {
    assert ([step] + rest)[1..] == rest;
  }

  lemma RunLast<S, T>(apply: (S, T) -> S, s: S, step: T)
    ensures Run(apply, s, [step]) == apply(s, step)
  {
    assert [step][1..] == [];
  }

  lemma RunTwo<S, T>(apply: (S, T) -> S, s: S, a: T, b: T)
    ensures Run(apply, s, [a, b]) == apply(apply(s, a), b)
  {
    assert [a, b] == [a] + [b];
    RunOne(apply, s, a, [b]);
    RunLast(apply, apply(s, a), b);
  }

  lemma RunFour<S, T>(apply: (S, T) -> S, s: S, a: T, b: T, c: T, d: T)
    ensures Run(apply, s, [a, b, c, d]) == apply(apply(apply(apply(s, a), b), c), d)
  {
    hide Run;
    assert [a, b, c, d] == [a, b] + [c, d];
    RunAppend(apply, s, [a, b], [c, d]);
    RunTwo(apply, s, a, b);
    RunTwo(apply, Run(apply, s, [a, b]), c, d);
  }
}
