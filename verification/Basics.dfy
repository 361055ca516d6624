/** Types and arithmetic that several components share. */
module Basics {
  datatype Option<T> = None | Some(value: T)
  datatype Result<T, E> = Ok(value: T) | Err(error: E)

  /** Why the admission policy, or the fairness of the hostcall queue, gives up. */
  datatype FallbackReason = SignalQualityInsufficient | FairnessInstability

  function Min(a: nat, b: nat): nat { if a < b then a else b }
  function Max(a: nat, b: nat): nat { if a < b then b else a }

  /** The next count, for a counter that sticks at `max`. */
  function Saturating(n: nat, max: nat): nat { if n < max then n + 1 else n }

  lemma MulSteps(n: nat, q: nat, p: nat)
    requires q < p
    ensures n * q + n <= n * p
  {
    assert n * p == n * (q + 1) + n * (p - q - 1);
  }

  lemma DivModUnique(a: nat, n: nat, q: nat, r: nat)
    requires n > 0 && r < n && a == n * q + r
    ensures a / n == q && a % n == r
  {
    var p, t := a / n, a % n;
    assert a == n * p + t;
    if q < p {
      MulSteps(n, q, p);
    } else if p < q {
      MulSteps(n, p, q);
    }
  }
}
