/**
 Arithmetic on a cycle of `n` positions 0..n-1: the remainder the ranking
 rule takes, and `Advance`, the step "d places further round the cycle" in
 terms of which the rule's meaning is stated.
 */
module Cyclic {

  /**
   The remainder of a non-negative `x` by `n`, taking off whole laps. On
   non-negative operands JavaScript's `%` and Dafny's `%` agree with it
   (`ModIsRemainder`).
   */
  function Mod(x: nat, n: nat): (r: nat)
    requires n > 0
    ensures r < n
    decreases x
  {
    if x < n then x else Mod(x - n, n)
  }

  /** The position reached from `i` by moving `d` places forward on a cycle of length `n`. */
  function Advance(n: nat, i: nat, d: nat): (j: nat)
    requires n > 0
    ensures j < n
  {
    Mod(i + d, n)
  }

  /** Quotient and remainder are unique: any decomposition `y == q * n + r` with `r` in [0, n) is Dafny's. */
  lemma ModUnique(y: int, q: int, r: int, n: int)
    requires n > 0 && 0 <= r < n && y == q * n + r
    ensures y % n == r && y / n == q
  {
    var q', r' := y / n, y % n;
    assert y == q' * n + r';
    var k := q - q';
    assert k * n == r' - r by {
      assert q * n - q' * n == (q - q') * n;
    }
    if k > 0 {
      AtLeastOneLap(k, n);
    } else if k < 0 {
      AtLeastOneLap(-k, n);
    }
  }

  lemma AtLeastOneLap(k: int, n: int)
    requires k >= 1 && n > 0
    ensures k * n >= n
  {
    assert k * n == (k - 1) * n + n;
  }

  /** Taking off laps one at a time leaves the remainder of Euclidean division. */
  lemma {:induction false} ModIsRemainder(x: nat, n: nat)
    requires n > 0
    ensures Mod(x, n) == x % n
    decreases x
  {
    if x < n {
      ModUnique(x, 0, x, n);
    } else {
      ModIsRemainder(x - n, n);
      ModUnique(x, (x - n) / n + 1, (x - n) % n, n);
    }
  }

  /** On a cycle, moving `d` from `i` is the same as stepping `i + d` with no wrap or exactly one wrap. */
  lemma AdvanceCases(n: nat, i: nat, d: nat)
    requires i < n && d < n
    ensures i + d < n ==> Advance(n, i, d) == i + d
    ensures i + d >= n ==> Advance(n, i, d) == i + d - n
  {
    if i + d >= n {
      assert Mod(i + d, n) == Mod(i + d - n, n);
    }
  }

  /** From a fixed start, distinct distances below `n` reach distinct positions. */
  lemma AdvanceInjective(n: nat, i: nat, d1: nat, d2: nat)
    requires i < n && d1 < n && d2 < n
    requires Advance(n, i, d1) == Advance(n, i, d2)
    ensures d1 == d2
  {
    AdvanceCases(n, i, d1);
    AdvanceCases(n, i, d2);
  }

  /** Reducing before adding more does not change where one ends up. */
  lemma {:induction false} ModAdd(x: nat, b: nat, n: nat)
    requires n > 0
    ensures Mod(Mod(x, n) + b, n) == Mod(x + b, n)
    decreases x
  {
    if x >= n {
      ModAdd(x - n, b, n);
      assert Mod(x + b, n) == Mod(x - n + b, n);
    }
  }

  /** Two successive moves compose: advancing by `a` and then by `b` is advancing by `a + b`. */
  lemma AdvanceAdvance(n: nat, i: nat, a: nat, b: nat)
    requires n > 0
    ensures Advance(n, Advance(n, i, a), b) == Advance(n, i, a + b)
  {
    ModAdd(i + a, b, n);
  }

  /** Advancing is commutative in the two distances. */
  lemma AdvanceSwap(n: nat, i: nat, a: nat, b: nat)
    requires n > 0
    ensures Advance(n, Advance(n, i, a), b) == Advance(n, Advance(n, i, b), a)
  {
    AdvanceAdvance(n, i, a, b);
    AdvanceAdvance(n, i, b, a);
  }
}
