/**
  The mathematical sequences the engine computes: the Fibonacci numbers, and
  the same recurrence started from arbitrary seeds.
 */
module Recurrence {

  /** Fib(0) = 0, Fib(1) = 1, Fib(n) = Fib(n - 1) + Fib(n - 2). */
  function Fib(n: nat): nat {
    if n < 2 then n else Fib(n - 1) + Fib(n - 2)
  }

  /** The Fibonacci recurrence seeded with `s0` at index 0 and `s1` at index 1. */
  function Gen(s0: nat, s1: nat, n: nat): nat {
    if n == 0 then s0
    else if n == 1 then s1
    else Gen(s0, s1, n - 1) + Gen(s0, s1, n - 2)
  }

  /** Seeds 0 and 1 give the Fibonacci numbers. */
  lemma {:induction false} GenZeroOne(n: nat)
    ensures Gen(0, 1, n) == Fib(n)
  {
    if n >= 2 {
      GenZeroOne(n - 1);
      GenZeroOne(n - 2);
    }
  }

  /** Seeds 1 and 1 give the Fibonacci numbers shifted by one place. */
  lemma {:induction false} GenOneOne(n: nat)
    ensures Gen(1, 1, n) == Fib(n + 1)
  {
    if n >= 2 {
      GenOneOne(n - 1);
      GenOneOne(n - 2);
    }
  }

  lemma {:induction false} FibMonotone(i: nat, j: nat)
    requires i <= j
    ensures Fib(i) <= Fib(j)
  {
    if i < j {
      FibMonotone(i, j - 1);
    }
  }

  /** The sequence grows without bound: Fib(n + 1) is at least n. */
  lemma {:induction false} FibGrows(n: nat)
    ensures n <= Fib(n + 1)
  {
    if n == 2 {
      assert Fib(3) == 2;
    } else if n > 2 {
      FibGrows(n - 1);
      FibGrows(n - 2);
    }
  }
}
