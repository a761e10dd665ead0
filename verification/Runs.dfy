/** Iterated state changes: composition of runs and relations kept along them. */
module Runs {

  /** n applications of a state change. */
  function Iterate<S>(f: S -> S, s: S, n: nat): S {
    if n == 0 then s else f(Iterate(f, s, n - 1))
  }

  /** Every state the run leaves from is fit to be left. */
  ghost predicate Throughout<S>(fit: S -> bool, f: S -> S, s: S, n: nat) {
    forall k :: 0 <= k < n ==> fit(Iterate(f, s, k))
  }

  lemma {:induction false} IterateSplit<S>(f: S -> S, s: S, m: nat, n: nat)
    ensures Iterate(f, s, m + n) == Iterate(f, Iterate(f, s, m), n)
  {
    if n > 0 {
      IterateSplit(f, s, m, n - 1);
    }
  }

  /** A run is its first step and the run from there. */
  lemma OneThenMore<S>(fit: S -> bool, f: S -> S, s: S, n: nat)
    requires fit(s) && Throughout(fit, f, f(s), n)
    ensures Throughout(fit, f, s, n + 1) && Iterate(f, s, n + 1) == Iterate(f, f(s), n)
  {
    assert Iterate(f, s, 1) == f(Iterate(f, s, 0));
    RunsCompose(fit, f, s, 1, n);
  }

  lemma FourSteps<S>(fit: S -> bool, f: S -> S, s: S)
    requires fit(s) && fit(f(s)) && fit(f(f(s))) && fit(f(f(f(s))))
    ensures Throughout(fit, f, s, 4) && Iterate(f, s, 4) == f(f(f(f(s))))
  {
    assert Iterate(f, s, 1) == f(Iterate(f, s, 0));
    assert Iterate(f, s, 2) == f(Iterate(f, s, 1));
    assert Iterate(f, s, 3) == f(Iterate(f, s, 2));
  }

  lemma RunsCompose<S>(fit: S -> bool, f: S -> S, s: S, m: nat, n: nat)
    requires Throughout(fit, f, s, m) && Throughout(fit, f, Iterate(f, s, m), n)
    ensures Throughout(fit, f, s, m + n)
    ensures Iterate(f, s, m + n) == Iterate(f, Iterate(f, s, m), n)
  {
    IterateSplit(f, s, m, n);
    forall k | 0 <= k < m + n
      ensures fit(Iterate(f, s, k))
    {
      if k >= m {
        IterateSplit(f, s, m, k - m);
        assert Iterate(f, s, k) == Iterate(f, Iterate(f, s, m), k - m);
      }
    }
  }

  /** A reflexive and transitive relation that each step respects holds along every run. */
  lemma {:induction false} RelationKept<S(!new)>(rel: (S, S) -> bool, fit: S -> bool, f: S -> S, s: S, n: nat)
    requires Throughout(fit, f, s, n)
    requires forall x :: rel(x, x)
    requires forall x, y, z :: rel(x, y) && rel(y, z) ==> rel(x, z)
    requires forall x :: fit(x) ==> rel(x, f(x))
    ensures rel(s, Iterate(f, s, n))
  {
    if n > 0 {
      RelationKept(rel, fit, f, s, n - 1);
      var t := Iterate(f, s, n - 1);
      assert fit(t) && rel(s, t) && rel(t, f(t));
    }
  }

  /** The step from x keeps inv, lowers value by one modulo bound, and sets more accordingly. */
  ghost predicate LowersAt<S>(value: S -> nat, more: S -> bool, inv: S -> bool, bound: nat, f: S -> S, x: S) {
    inv(x) ==>
      inv(f(x)) && value(f(x)) == (if value(x) == 0 then bound else value(x)) - 1
      && (more(f(x)) <==> value(f(x)) != 0)
  }

  /**
    A value that each step lowers by one modulo a bound counts the steps of the run,
    and a test of the value against zero tells how many are left.
   */
  lemma {:induction false} CountsDown<S(!new)>(
      value: S -> nat, more: S -> bool, inv: S -> bool, bound: nat, f: S -> S, s: S, k: nat)
    requires inv(s) && value(s) < bound && 1 <= k <= if value(s) == 0 then bound else value(s)
    requires forall x :: LowersAt(value, more, inv, bound, f, x)
    ensures var t := Iterate(f, s, k);
            inv(t) && value(t) == (if value(s) == 0 then bound else value(s)) - k && (more(t) <==> value(t) != 0)
  {
    if k > 1 {
      CountsDown(value, more, inv, bound, f, s, k - 1);
    }
    assert LowersAt(value, more, inv, bound, f, Iterate(f, s, k - 1));
  }

  /** The step from x keeps inv and the value, and sets more by a test of the value. */
  ghost predicate StaysAt<S>(value: S -> nat, more: S -> bool, inv: S -> bool, test: nat -> bool, f: S -> S, x: S) {
    inv(x) ==> inv(f(x)) && value(f(x)) == value(x) && (more(f(x)) <==> test(value(x)))
  }

  /** A value that no step changes decides alone whether a run goes on. */
  lemma {:induction false} NeverMoves<S(!new)>(
      value: S -> nat, more: S -> bool, inv: S -> bool, test: nat -> bool, f: S -> S, s: S, k: nat)
    requires inv(s) && 1 <= k
    requires forall x :: StaysAt(value, more, inv, test, f, x)
    ensures var t := Iterate(f, s, k);
            inv(t) && value(t) == value(s) && (more(t) <==> test(value(s)))
  {
    if k > 1 {
      NeverMoves(value, more, inv, test, f, s, k - 1);
    }
    assert StaysAt(value, more, inv, test, f, Iterate(f, s, k - 1));
  }

  /** Four steps from a loop head with k rounds to go lead to one with a round less. */
  ghost predicate LeadsOn<S>(head: (S, nat) -> bool, fit: S -> bool, f: S -> S, x: S, k: nat) {
    0 < k && head(x, k) ==> Throughout(fit, f, x, 4) && head(Iterate(f, x, 4), k - 1)
  }

  lemma {:induction false} RoundsOfFour<S(!new)>(
      head: (S, nat) -> bool, fit: S -> bool, f: S -> S, s: S, n: nat)
    requires head(s, n)
    requires forall x, k: nat :: LeadsOn(head, fit, f, x, k)
    ensures Throughout(fit, f, s, 4 * n) && head(Iterate(f, s, 4 * n), 0)
    decreases n
  {
    if n > 0 {
      assert LeadsOn(head, fit, f, s, n);
      RoundsOfFour(head, fit, f, Iterate(f, s, 4), n - 1);
      RunsCompose(fit, f, s, 4, 4 * (n - 1));
    }
  }
}
