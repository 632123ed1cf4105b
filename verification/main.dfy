/**
  The recursive evaluator of src/main.rs and the seed table it runs against.
  Its body is the same as that of `fibonacci_at_memo` in src/lib.rs, so it is
  modelled by the one evaluator; only the seeds differ: {0 -> 1, 1 -> 1}, which
  makes the memo hold the Fibonacci numbers shifted by one place.
 */
module FibonacciMain {
  import opened Numeric
  import opened Recurrence
  import opened FibonacciLib

  /** A memo holding the shifted sequence: memo[k] == Fib(k + 1) for every key. */
  ghost predicate ShiftedMemo(cap: Capacity, m: map<nat, nat>) {
    0 in m && 1 in m &&
    forall k | k in m :: m[k] == Fib(k + 1) && Fits(cap, m[k])
  }

  lemma ShiftedMemoIsConsistent(cap: Capacity, m: map<nat, nat>)
    ensures ShiftedMemo(cap, m) <==> Consistent(cap, m) && m[0] == 1 && m[1] == 1
  {
    assert Fib(2) == 1;
    forall k: nat {
      GenOneOne(k);
    }
  }

  /** The table `main` seeds before its first call: both base cases are one. */
  function MainSeedMemo(): (memo: map<nat, nat>)
    ensures memo.Keys == {0, 1}
    ensures forall k | k in memo :: memo[k] == Fib(k + 1)
    ensures forall cap: Capacity :: ShiftedMemo(cap, memo)
  {
    map[0 := 1, 1 := 1]
  }

  /**
    Looks `currentFib` up in `fibMemo`; on a miss evaluates the two previous
    indices, adds them with checked addition and caches the sum on success.
   */
  method Fibonacci(cap: Capacity, currentFib: nat, fibMemo: map<nat, nat>)
    returns (r: Option<nat>, fibMemo': map<nat, nat>)
    requires 0 in fibMemo && 1 in fibMemo
    ensures Extends(fibMemo, fibMemo')
    ensures forall k | k in fibMemo' && k !in fibMemo :: k <= currentFib
    ensures currentFib in fibMemo ==> r == Some(fibMemo[currentFib]) && fibMemo' == fibMemo
    ensures r.Some? <==> currentFib in fibMemo'
    ensures r.Some? ==> fibMemo'[currentFib] == r.value
    ensures ShiftedMemo(cap, fibMemo) ==>
              ShiftedMemo(cap, fibMemo') && r == Checked(cap, Fib(currentFib + 1))
  {
    ShiftedMemoIsConsistent(cap, fibMemo);
    r, fibMemo' := FibonacciAtMemo(cap, currentFib, fibMemo);
    ShiftedMemoIsConsistent(cap, fibMemo');
    GenOneOne(currentFib);
  }
}
