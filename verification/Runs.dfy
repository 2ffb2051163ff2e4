/** Runs of a loop whose passes are given by a function of the state and the environment. */
module Runs {
  import opened Bytes

  /** What one or several passes lead to: the next state, the visible actions, and why the loop ended, if it did. */
  datatype Outcome<S, A, H> = Outcome(next: S, actions: seq<A>, stop: Option<H>)

  function Then<S, A, H>(o: Outcome<S, A, H>, r: Outcome<S, A, H>): Outcome<S, A, H> {
    if o.stop.Some? then o else Outcome(r.next, o.actions + r.actions, r.stop)
  }

  /** The loop runs until it stops or the environment provides no further pass. */
  function Run<S, E, A, H>(step: (S, E) -> Outcome<S, A, H>, s: S, envs: seq<E>): Outcome<S, A, H>
    decreases |envs|
  {
    if envs == [] then Outcome(s, [], None)
    else
      var o := step(s, envs[0]);
      if o.stop.Some? then o else Then(o, Run(step, o.next, envs[1..]))
  }

  /** A run over `x + y` is a run over `x` and then, unless that stopped, one over `y`. */
  lemma {:induction false} RunSplit<S, E, A, H>(step: (S, E) -> Outcome<S, A, H>, s: S, x: seq<E>, y: seq<E>)
    ensures Run(step, s, x + y) == Then(Run(step, s, x), Run(step, Run(step, s, x).next, y))
    decreases |x|
  {
    if x == [] {
      assert x + y == y;
      assert [] + Run(step, s, y).actions == Run(step, s, y).actions;
    } else {
      assert (x + y)[1..] == x[1..] + y;
      var o := step(s, x[0]);
      if o.stop == None {
        RunSplit(step, o.next, x[1..], y);
        var r := Run(step, o.next, x[1..]);
        assert o.actions + (r.actions + Run(step, r.next, y).actions) == o.actions + r.actions + Run(step, r.next, y).actions;
      }
    }
  }

  lemma RunStep<S, E, A, H>(step: (S, E) -> Outcome<S, A, H>, s: S, x: seq<E>, env: E)
    ensures Run(step, s, x + [env]) == Then(Run(step, s, x), step(Run(step, s, x).next, env))
  {
    RunSplit(step, s, x, [env]);
    var o := step(Run(step, s, x).next, env);
    assert o.actions + [] == o.actions;
  }

  lemma RunTwo<S, E, A, H>(step: (S, E) -> Outcome<S, A, H>, s: S, x: E, y: E)
    ensures var o := step(s, x);
            Run(step, s, [x, y]) == if o.stop.Some? then o else Then(o, step(o.next, y))
  {
    RunStep(step, s, [x], y);
    assert [x] + [y] == [x, y] && [x][1..] == [];
    var o := step(s, x);
    assert o.actions + [] == o.actions;
  }

  lemma RunPrefix<S, E, A, H>(step: (S, E) -> Outcome<S, A, H>, s: S, envs: seq<E>, i: nat)
    requires i < |envs|
    ensures Run(step, s, envs[..i + 1]) == Then(Run(step, s, envs[..i]), step(Run(step, s, envs[..i]).next, envs[i]))
  {
    RunStep(step, s, envs[..i], envs[i]);
    assert envs[..i + 1] == envs[..i] + [envs[i]];
  }

  lemma RunRest<S, E, A, H>(step: (S, E) -> Outcome<S, A, H>, s: S, envs: seq<E>, i: nat)
    requires i <= |envs| && Run(step, s, envs[..i]).stop.Some?
    ensures Run(step, s, envs[..i]) == Run(step, s, envs)
  {
    RunSplit(step, s, envs[..i], envs[i..]);
    assert envs == envs[..i] + envs[i..];
  }

  /** Every pass that starts where `inv` holds of the state and the past leads to `inv` again, or stops where `fin` holds. */
  ghost predicate Keeps<S(!new), E(!new), A(!new), H>(
    step: (S, E) -> Outcome<S, A, H>, inv: (S, seq<A>) -> bool, fin: (S, seq<A>) -> bool)
  {
    forall s, past, env :: inv(s, past) ==> Kept(step(s, env), past, inv, fin)
  }

  ghost predicate Kept<S, A, H>(
    o: Outcome<S, A, H>, past: seq<A>, inv: (S, seq<A>) -> bool, fin: (S, seq<A>) -> bool)
  {
    if o.stop == None then inv(o.next, past + o.actions) else fin(o.next, past + o.actions)
  }

  lemma {:induction false} RunKeeps<S(!new), E(!new), A(!new), H>(
    step: (S, E) -> Outcome<S, A, H>, inv: (S, seq<A>) -> bool, fin: (S, seq<A>) -> bool, s: S, past: seq<A>, envs: seq<E>)
    requires Keeps(step, inv, fin) && inv(s, past)
    ensures Kept(Run(step, s, envs), past, inv, fin)
    decreases |envs|
  {
    if envs == [] {
      assert past + [] == past;
    } else {
      var o := step(s, envs[0]);
      assert Kept(o, past, inv, fin);
      if o.stop == None {
        RunKeeps(step, inv, fin, o.next, past + o.actions, envs[1..]);
        var r := Run(step, o.next, envs[1..]);
        assert past + o.actions + r.actions == past + (o.actions + r.actions);
      }
    }
  }

  // ------------------------------------------- reading a trace with an automaton

  function Fold<T, A>(f: (T, A) -> T, t: T, xs: seq<A>): T
    decreases |xs|
  {
    if xs == [] then t else Fold(f, f(t, xs[0]), xs[1..])
  }

  lemma {:induction false} FoldConcat<T, A>(f: (T, A) -> T, t: T, xs: seq<A>, ys: seq<A>)
    ensures Fold(f, t, xs + ys) == Fold(f, Fold(f, t, xs), ys)
    decreases |xs|
  {
    if xs == [] {
      assert xs + ys == ys;
    } else {
      assert (xs + ys)[1..] == xs[1..] + ys;
      FoldConcat(f, f(t, xs[0]), xs[1..], ys);
    }
  }

  lemma FoldLast<T, A>(f: (T, A) -> T, t: T, xs: seq<A>)
    requires xs != []
    ensures Fold(f, t, xs) == f(Fold(f, t, xs[..|xs| - 1]), xs[|xs| - 1])
  {
    FoldConcat(f, t, xs[..|xs| - 1], [xs[|xs| - 1]]);
    assert xs == xs[..|xs| - 1] + [xs[|xs| - 1]];
  }

  /** The automaton reads lists of up to three actions one by one. */
  lemma FoldFew<T, A>(f: (T, A) -> T, t: T, xs: seq<A>)
    ensures |xs| == 0 ==> Fold(f, t, xs) == t
    ensures |xs| == 1 ==> Fold(f, t, xs) == f(t, xs[0])
    ensures |xs| == 2 ==> Fold(f, t, xs) == f(f(t, xs[0]), xs[1])
    ensures |xs| == 3 ==> Fold(f, t, xs) == f(f(f(t, xs[0]), xs[1]), xs[2])
  {
    if 0 < |xs| <= 3 {
      FoldLast(f, t, xs);
      if 1 < |xs| {
        FoldLast(f, t, xs[..|xs| - 1]);
        assert xs[..|xs| - 1][..|xs| - 2] == xs[..|xs| - 2];
        if 2 < |xs| {
          FoldLast(f, t, xs[..|xs| - 2]);
        }
      }
    }
  }
}
