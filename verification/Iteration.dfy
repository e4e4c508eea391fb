/** Applying a function a number of times, and what carries over from one application to all of them. */
module Iteration {

  function Iterate<T>(f: T -> T, x: T, n: nat): T {
    if n == 0 then x else f(Iterate(f, x, n - 1))
  }

  lemma {:induction false} Invariant<T(!new)>(f: T -> T, inv: T -> bool, x: T, n: nat)
    requires inv(x) && forall y :: inv(y) ==> inv(f(y))
    ensures inv(Iterate(f, x, n))
  {
    if n != 0 {
      Invariant(f, inv, x, n - 1);
    }
  }

  /** `f` on the left looks, through `view`, like `g` on the right. */
  lemma {:induction false} Simulates<S(!new), T>(f: S -> S, g: T -> T, view: S -> T, inv: S -> bool, x: S, n: nat)
    requires inv(x) && forall y :: inv(y) ==> inv(f(y)) && view(f(y)) == g(view(y))
    ensures view(Iterate(f, x, n)) == Iterate(g, view(x), n)
  {
    if n != 0 {
      Simulates(f, g, view, inv, x, n - 1);
      Invariant(f, inv, x, n - 1);
    }
  }

  /** A measure that every application lowers by `step`, or to zero. */
  lemma {:induction false} Lowers<T(!new)>(f: T -> T, inv: T -> bool, measure: T -> nat, step: nat, x: T, n: nat)
    requires inv(x) && forall y :: inv(y) ==> inv(f(y)) && (measure(f(y)) == 0 || measure(f(y)) + step <= measure(y))
    ensures measure(Iterate(f, x, n)) == 0 || measure(Iterate(f, x, n)) + step * n <= measure(x)
  {
    if n != 0 {
      Lowers(f, inv, measure, step, x, n - 1);
      Invariant(f, inv, x, n - 1);
      assert step * n == step * (n - 1) + step;
    }
  }
}
