// Runs of a state machine, and the induction principles shared by every store's theorems.

module Runs {

  ghost predicate Any<A>(a: A) { true }

  ghost function Run<S, A>(step: (S, A) -> S, start: S, actions: seq<A>): S
    decreases |actions|
  {
    if actions == [] then start
    else step(Run(step, start, actions[..|actions| - 1]), actions[|actions| - 1])
  }

  // Actions outside `fair` do not occur in the runs considered.
  ghost predicate Inductive<S(!new), A(!new)>(step: (S, A) -> S, fair: A -> bool, holds: S -> bool) {
    forall s, a {:trigger step(s, a)} :: holds(s) && fair(a) ==> holds(step(s, a))
  }

  ghost predicate Progress<S(!new), A(!new)>(step: (S, A) -> S, fair: A -> bool, holds: S -> bool,
                                             upTo: (S, S) -> bool)
  {
    && (forall s :: upTo(s, s))
    && (forall a, b, c {:trigger upTo(a, b), upTo(b, c)} :: upTo(a, b) && upTo(b, c) ==> upTo(a, c))
    && (forall s, a {:trigger step(s, a)} :: holds(s) && fair(a) ==> upTo(s, step(s, a)))
  }

  lemma {:induction false} Always<S(!new), A(!new)>(step: (S, A) -> S, fair: A -> bool, holds: S -> bool,
                                                    start: S, actions: seq<A>)
    requires holds(start) && Inductive(step, fair, holds) && (forall a | a in actions :: fair(a))
    ensures holds(Run(step, start, actions))
    decreases |actions|
  {
    if actions != [] {
      Always(step, fair, holds, start, actions[..|actions| - 1]);
    }
  }

  // Any two moments of a run are related as consecutive ones are.
  lemma {:induction false} Onward<S(!new), A(!new)>(step: (S, A) -> S, fair: A -> bool, holds: S -> bool,
                                                    upTo: (S, S) -> bool, start: S, actions: seq<A>, i: nat)
    requires holds(start) && Inductive(step, fair, holds) && Progress(step, fair, holds, upTo)
    requires (forall a | a in actions :: fair(a)) && i <= |actions|
    ensures upTo(Run(step, start, actions[..i]), Run(step, start, actions))
    decreases |actions|
  {
    if i == |actions| {
      assert actions[..i] == actions;
    } else {
      var n := |actions| - 1;
      assert actions[..n][..i] == actions[..i];
      Onward(step, fair, holds, upTo, start, actions[..n], i);
      Always(step, fair, holds, start, actions[..n]);
      assert upTo(Run(step, start, actions[..n]), Run(step, start, actions));
    }
  }

  lemma One<S, A>(step: (S, A) -> S, start: S, a: A)
    ensures Run(step, start, [a]) == step(start, a)
  {
    assert [a][..0] == [];
  }

  lemma Two<S, A>(step: (S, A) -> S, start: S, a: A, b: A)
    ensures Run(step, start, [a, b]) == step(step(start, a), b)
  {
    assert [a, b][..1] == [a];
    One(step, start, a);
  }

  lemma Three<S, A>(step: (S, A) -> S, start: S, a: A, b: A, c: A)
    ensures Run(step, start, [a, b, c]) == step(step(step(start, a), b), c)
  {
    assert [a, b, c][..2] == [a, b];
    Two(step, start, a, b);
  }

  lemma {:induction false} Splits<S, A>(step: (S, A) -> S, start: S, first: seq<A>, second: seq<A>)
    ensures Run(step, start, first + second) == Run(step, Run(step, start, first), second)
    decreases |second|
  {
    if second == [] {
      assert first + second == first;
    } else {
      var n := |second| - 1;
      Splits(step, start, first, second[..n]);
      assert (first + second)[..|first| + n] == first + second[..n];
    }
  }
}
