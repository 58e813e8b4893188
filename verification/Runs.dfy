/** Runs of a machine given by its next-state function: what they reach and what they keep. */
module Runs {
  import opened Common

  /** The state that the steps lead to, if each of them can be taken. */
  function Run<S, T>(next: (S, T) -> Option<S>, s: S, steps: seq<T>): Option<S>
    decreases |steps|
  {
    if steps == [] then Some(s)
    else
      match next(s, steps[0])
      case None => None
      case Some(s') => Run(next, s', steps[1..])
  }

  lemma {:induction false} RunConcat<S, T>(next: (S, T) -> Option<S>, s: S, a: seq<T>, b: seq<T>)
    requires Run(next, s, a).Some?
    ensures Run(next, s, a + b) == Run(next, Run(next, s, a).value, b)
    decreases |a|
  {
    if a == [] {
      assert a + b == b;
    } else {
      assert (a + b)[1..] == a[1..] + b;
      RunConcat(next, next(s, a[0]).value, a[1..], b);
    }
  }

  /** What starts a run is a run. */
  lemma {:induction false} RunPrefix<S, T>(next: (S, T) -> Option<S>, s: S, a: seq<T>, b: seq<T>)
    requires Run(next, s, a + b).Some?
    ensures Run(next, s, a).Some?
    decreases |a|
  {
    if a != [] {
      assert (a + b)[1..] == a[1..] + b;
      RunPrefix(next, next(s, a[0]).value, a[1..], b);
    }
  }

  /** A run that ends with a step is a run before it, and that step. */
  lemma RunSnoc<S, T>(next: (S, T) -> Option<S>, s: S, steps: seq<T>, step: T)
    requires Run(next, s, steps + [step]).Some?
    ensures Run(next, s, steps).Some? && Run(next, s, steps + [step]) == next(Run(next, s, steps).value, step)
  {
    RunPrefix(next, s, steps, [step]);
    RunConcat(next, s, steps, [step]);
    assert [step][1..] == [];
  }

  ghost predicate Leads<S, T(!new)>(next: (S, T) -> Option<S>, s: S, t: S) {
    exists steps: seq<T> :: Run(next, s, steps) == Some(t)
  }

  lemma LeadsNowhere<S, T(!new)>(next: (S, T) -> Option<S>, s: S)
    ensures Leads(next, s, s)
  {
    assert Run(next, s, []) == Some(s);
  }

  lemma LeadsOn<S, T(!new)>(next: (S, T) -> Option<S>, s: S, t: S, step: T)
    requires Leads(next, s, t) && next(t, step).Some?
    ensures Leads(next, s, next(t, step).value)
  {
    var steps: seq<T> :| Run(next, s, steps) == Some(t);
    RunConcat(next, s, steps, [step]);
    assert [step][1..] == [];
    assert Run(next, s, steps + [step]) == Some(next(t, step).value);
  }

  /** What every step keeps holds at the end of every run. */
  lemma {:induction false} RunKeeps<S(!new), T(!new)>(next: (S, T) -> Option<S>, inv: S -> bool, s: S, steps: seq<T>)
    requires inv(s)
    requires forall x, step :: inv(x) && next(x, step).Some? ==> inv(next(x, step).value)
    ensures Run(next, s, steps).Some? ==> inv(Run(next, s, steps).value)
    decreases |steps|
  {
    if steps != [] && next(s, steps[0]).Some? {
      RunKeeps(next, inv, next(s, steps[0]).value, steps[1..]);
    }
  }

  lemma LeadsKeeps<S(!new), T(!new)>(next: (S, T) -> Option<S>, inv: S -> bool, s: S, t: S)
    requires inv(s) && Leads(next, s, t)
    requires forall x, step :: inv(x) && next(x, step).Some? ==> inv(next(x, step).value)
    ensures inv(t)
  {
    var steps: seq<T> :| Run(next, s, steps) == Some(t);
    RunKeeps(next, inv, s, steps);
  }
}
