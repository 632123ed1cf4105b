/**
  The memoised Fibonacci engine of src/lib.rs: the seed table, the top-down
  evaluator over a caller-owned memo, the single-shot lookup, the bottom-up
  loop, and the lazy iterator that owns a memo and a cursor.

  A `HashMap<usize, I>` borrowed as `&mut` is modelled as a `map<nat, nat>`
  passed in and handed back: the exclusive borrow rules out any aliasing.
 */
module FibonacciLib {
  import opened Numeric
  import opened Recurrence

  // ---------------------------------------------------------------------------
  // Memo invariants

  /** Every entry of `m` is still present, with the same value, in `m'`. */
  ghost predicate Extends(m: map<nat, nat>, m': map<nat, nat>) {
    forall k | k in m :: k in m' && m'[k] == m[k]
  }

  /** The keys of `m` form an initial segment of the naturals. */
  ghost predicate Closed(m: map<nat, nat>) {
    forall j: nat, k: nat | k in m && j <= k :: j in m
  }

  /**
    The evaluator's precondition, for whatever seeds the memo carries: both
    base cases are present, every entry follows the recurrence from them, and
    every entry is a value of the numeric type.
   */
  ghost predicate Consistent(cap: Capacity, m: map<nat, nat>) {
    0 in m && 1 in m &&
    forall k | k in m :: m[k] == Gen(m[0], m[1], k) && Fits(cap, m[k])
  }

  /** A memo holding Fibonacci numbers only: memo[k] == Fib(k) for every key. */
  ghost predicate FibMemo(cap: Capacity, m: map<nat, nat>) {
    0 in m && 1 in m &&
    forall k | k in m :: m[k] == Fib(k) && Fits(cap, m[k])
  }

  lemma FibMemoIsConsistent(cap: Capacity, m: map<nat, nat>)
    ensures FibMemo(cap, m) <==> Consistent(cap, m) && m[0] == 0 && m[1] == 1
  {
    forall k: nat {
      GenZeroOne(k);
    }
  }

  /**
    Evaluating `n` against `m` would change nothing: `n` is cached, or both
    predecessors are settled and, when both are cached, their sum overflows.
   */
  ghost predicate Settled(cap: Capacity, m: map<nat, nat>, n: nat)
    decreases n
  {
    n in m ||
    (n >= 2 && Settled(cap, m, n - 1) && Settled(cap, m, n - 2) &&
     (n - 1 in m && n - 2 in m ==> CheckedAdd(cap, m[n - 1], m[n - 2]) == None))
  }

  // ---------------------------------------------------------------------------
  // fibonacci_construct_memo

  /** The seed table {0 -> zero, 1 -> one}. */
  function FibonacciConstructMemo(): (memo: map<nat, nat>)
    ensures memo.Keys == {0, 1}
    ensures forall k | k in memo :: memo[k] == Fib(k)
    ensures Closed(memo)
    ensures forall cap: Capacity :: FibMemo(cap, memo)
  {
    map[0 := 0, 1 := 1]
  }

  // ---------------------------------------------------------------------------
  // fibonacci_at_memo

  /**
    Looks `n` up in `memo`; on a miss evaluates `n - 1` and then `n - 2`
    against the same memo, adds the two with checked addition and caches the
    sum only when the addition succeeds.
   */
  method FibonacciAtMemo(cap: Capacity, n: nat, memo: map<nat, nat>)
    returns (r: Option<nat>, memo': map<nat, nat>)
    requires 0 in memo && 1 in memo
    decreases n
    ensures Extends(memo, memo')
    ensures forall k | k in memo' && k !in memo :: k <= n
    ensures n in memo ==> r == Some(memo[n]) && memo' == memo
    ensures r.Some? <==> n in memo'
    ensures r.Some? ==> memo'[n] == r.value
    ensures Consistent(cap, memo) ==>
              Consistent(cap, memo') && r == Checked(cap, Gen(memo[0], memo[1], n))
    ensures Consistent(cap, memo) && Closed(memo) ==>
              Closed(memo') &&
              forall k: nat | k <= n && Fits(cap, Gen(memo[0], memo[1], k)) :: k in memo'
    ensures Settled(cap, memo', n)
    ensures Settled(cap, memo, n) ==>
              memo' == memo && r == (if n in memo then Some(memo[n]) else None)
  {
    if n in memo {
      return Some(memo[n]), memo;
    }
    var fibn1, memo1 := FibonacciAtMemo(cap, n - 1, memo);
    var fibn2, memo2 := FibonacciAtMemo(cap, n - 2, memo1);
    ExtendsTransitive(memo, memo1, memo2);
    ghost var s0, s1 := memo[0], memo[1];
    assert memo1[0] == s0 && memo1[1] == s1 && memo2[0] == s0 && memo2[1] == s1;
    assert Gen(s0, s1, n) == Gen(s0, s1, n - 1) + Gen(s0, s1, n - 2);
    var sum := if fibn1.Some? && fibn2.Some? then CheckedAdd(cap, fibn1.value, fibn2.value) else None;
    if sum.Some? {
      r, memo' := sum, memo2[n := sum.value];
      CachedSum(cap, memo, memo2, n, sum.value);
    } else {
      r, memo' := None, memo2;
      SettledAfterMiss(cap, memo1, memo2, n);
    }
  }

  lemma ExtendsTransitive(m1: map<nat, nat>, m2: map<nat, nat>, m3: map<nat, nat>)
    requires Extends(m1, m2) && Extends(m2, m3)
    ensures Extends(m1, m3)
  {
  }

  /** Caching the sum at a missed index keeps the invariants the evaluator promises. */
  lemma CachedSum(cap: Capacity, m: map<nat, nat>, m2: map<nat, nat>, n: nat, v: nat)
    requires 0 in m && 1 in m && n !in m2 && n - 1 in m2
    requires Extends(m, m2)
    requires Consistent(cap, m) ==>
               Consistent(cap, m2) && v == Gen(m[0], m[1], n) && Fits(cap, v)
    requires Consistent(cap, m) && Closed(m) ==> Closed(m2)
    ensures Extends(m, m2[n := v])
    ensures Consistent(cap, m) ==> Consistent(cap, m2[n := v])
    ensures Consistent(cap, m) && Closed(m) ==> Closed(m2[n := v])
  {
  }

  /** After a miss that caches nothing, the memo is settled at the missed index. */
  lemma SettledAfterMiss(cap: Capacity, m1: map<nat, nat>, m2: map<nat, nat>, n: nat)
    requires n >= 2
    requires Settled(cap, m1, n - 1) && Settled(cap, m2, n - 2)
    requires n - 1 in m2 ==> n - 1 in m1
    requires Extends(m1, m2)
    requires Settled(cap, m1, n - 2) ==> m2 == m1
    requires n - 1 in m2 && n - 2 in m2 ==> CheckedAdd(cap, m2[n - 1], m2[n - 2]) == None
    ensures Settled(cap, m2, n)
  {
  }

  /**
    Two evaluations of the same index in a row: the second returns what the
    first did and leaves the memo as the first left it, whatever the memo.
   */
  method FibonacciAtMemoTwice(cap: Capacity, n: nat, memo: map<nat, nat>)
    returns (first: Option<nat>, second: Option<nat>, after1: map<nat, nat>, after2: map<nat, nat>)
    requires 0 in memo && 1 in memo
    ensures second == first && after2 == after1
    ensures Consistent(cap, memo) ==> first == Checked(cap, Gen(memo[0], memo[1], n))
  {
    first, after1 := FibonacciAtMemo(cap, n, memo);
    second, after2 := FibonacciAtMemo(cap, n, after1);
  }

  // ---------------------------------------------------------------------------
  // fibonacci_at

  /** Evaluates `n` against a fresh seed memo and reads the answer back from the memo. */
  method FibonacciAt(cap: Capacity, n: nat) returns (r: Option<nat>)
    ensures r == Checked(cap, Fib(n))
  {
    var memo := FibonacciConstructMemo();
    assert FibMemo(cap, memo);
    FibMemoIsConsistent(cap, memo);
    var ignored, filled := FibonacciAtMemo(cap, n, memo);
    r := if n in filled then Some(filled[n]) else None;
    GenZeroOne(n);
  }

  // ---------------------------------------------------------------------------
  // fibonacci_at_fast

  /**
    The bottom-up loop as written: `for _ in 2..n` runs n - 2 times, so for
    n >= 2 the result is Fib(n - 1), or None when an intermediate sum overflows.
   */
  method FibonacciAtFast(cap: Capacity, n: nat) returns (r: Option<nat>)
    ensures n == 0 ==> r == Some(0)
    ensures n == 1 ==> r == Some(1)
    ensures n >= 2 ==> r == Checked(cap, Fib(n - 1))
  {
    var a, b := 0, 1;
    if n == 0 {
      return Some(a);
    }
    var i := 2;
    while i < n
      invariant 2 <= i <= if n < 2 then 2 else n
      invariant a == Fib(i - 2) && b == Fib(i - 1)
      invariant Fits(cap, b)
    {
      var c := CheckedAdd(cap, b, a);
      if c.None? {
        FibMonotone(i, n - 1);
        return None;
      }
      a, b := b, c.value;
      i := i + 1;
    }
    return Some(b);
  }

  /**
    The loop with the bound that makes it agree with `FibonacciAt`:
    `for _ in 1..n` runs n - 1 times and leaves Fib(n) in `b`.
   */
  method FibonacciAtFastFixed(cap: Capacity, n: nat) returns (r: Option<nat>)
    ensures r == Checked(cap, Fib(n))
  {
    var a, b := 0, 1;
    if n == 0 {
      return Some(a);
    }
    var i := 1;
    while i < n
      invariant 1 <= i <= n
      invariant a == Fib(i - 1) && b == Fib(i)
      invariant Fits(cap, b)
    {
      var c := CheckedAdd(cap, b, a);
      if c.None? {
        FibMonotone(i + 1, n);
        return None;
      }
      a, b := b, c.value;
      i := i + 1;
    }
    return Some(b);
  }

  /** The example of the fast loop's documentation: the value 5 at index 6. */
  method FastDocExample() returns (r: Option<nat>)
    ensures r == Some(5)
  {
    r := FibonacciAtFast(U16, 6);
  }

  /** At index 3 the loop as written and the memoised lookup give different answers. */
  method FastDisagreesAtThree() returns (fast: Option<nat>, memoised: Option<nat>)
    ensures fast == Some(1) && memoised == Some(2)
  {
    fast := FibonacciAtFast(U16, 3);
    memoised := FibonacciAt(U16, 3);
  }

  // ---------------------------------------------------------------------------
  // Exhaustion

  /** Once a Fibonacci number overflows the type, every later one does too. */
  lemma {:induction false} ExhaustionIsPermanent(cap: Capacity, i: nat, j: nat)
    requires i <= j && Checked(cap, Fib(i)) == None
    ensures Checked(cap, Fib(j)) == None
  {
    FibMonotone(i, j);
  }

  /** A fixed-width type has a first index whose Fibonacci number overflows. */
  lemma FirstOverflow(cap: Capacity)
    requires cap.Bounded?
    ensures exists n: nat :: 1 <= n && Fits(cap, Fib(n - 1)) && !Fits(cap, Fib(n))
  {
    FibGrows(cap.max + 1);
    FindOverflow(cap, 0, cap.max + 2);
  }

  lemma {:induction false} FindOverflow(cap: Capacity, lo: nat, hi: nat)
    requires lo < hi && Fits(cap, Fib(lo)) && !Fits(cap, Fib(hi))
    ensures exists n: nat :: 1 <= n && Fits(cap, Fib(n - 1)) && !Fits(cap, Fib(n))
    decreases hi - lo
  {
    if Fits(cap, Fib(lo + 1)) {
      FindOverflow(cap, lo + 1, hi);
    } else {
      assert 1 <= lo + 1 && Fits(cap, Fib(lo + 1 - 1)) && !Fits(cap, Fib(lo + 1));
    }
  }

  // ---------------------------------------------------------------------------
  // FibonacciIterator

  /** A lazy Fibonacci sequence that owns its memo and the index it produces next. */
  class FibonacciIterator {
    var memo: map<nat, nat>
    var current: nat
    /** The numeric type `I` the iterator is instantiated with. */
    const cap: Capacity

    /**
      The memo holds Fibonacci numbers only, its keys form an initial segment,
      and every index below the cursor whose value fits has been cached.
     */
    ghost predicate Valid()
      reads this
    {
      FibMemo(cap, memo) && Closed(memo) &&
      forall k: nat | k < current && Fits(cap, Fib(k)) :: k in memo
    }

    /** An iterator at index 0 over the seed memo. */
    constructor New(cap: Capacity)
      ensures Valid() && this.cap == cap
      ensures memo == FibonacciConstructMemo() && current == 0
    {
      this.cap := cap;
      memo := FibonacciConstructMemo();
      current := 0;
    }

    /** An iterator at index `n` whose memo already holds every value up to `n` that fits. */
    constructor NewAt(cap: Capacity, n: nat)
      ensures Valid() && this.cap == cap && current == n
      ensures forall k: nat :: k in memo <==> k <= 1 || (k <= n && Fits(cap, Fib(k)))
    {
      var seed := FibonacciConstructMemo();
      assert FibMemo(cap, seed);
      FibMemoIsConsistent(cap, seed);
      var ignored, filled := FibonacciAtMemo(cap, n, seed);
      FibMemoIsConsistent(cap, filled);
      forall k: nat
        ensures k in filled <==> k <= 1 || (k <= n && Fits(cap, Fib(k)))
      {
        GenZeroOne(k);
      }
      this.cap := cap;
      memo := filled;
      current := n;
    }

    /** Hands the memo back to the caller. */
    function IntoMemo(): (m: map<nat, nat>)
      reads this
      requires Valid()
      ensures forall k | k in m :: m[k] == Fib(k) && Fits(cap, m[k])
      ensures forall k: nat | k < current && Fits(cap, Fib(k)) :: k in m
    {
      memo
    }

    /**
      Evaluates the cursor's index against the memo, then advances the cursor
      whether or not the evaluation overflowed.
     */
    method Next() returns (r: Option<nat>)
      requires Valid()
      modifies this
      ensures Valid()
      ensures current == old(current) + 1
      ensures r == Checked(cap, Fib(old(current)))
      ensures forall k: nat :: k in memo <==> k in old(memo) || (k <= old(current) && Fits(cap, Fib(k)))
    {
      FibMemoIsConsistent(cap, memo);
      var fib, filled := FibonacciAtMemo(cap, current, memo);
      FibMemoIsConsistent(cap, filled);
      GenZeroOne(current);
      forall k: nat
        ensures k in filled <==> k in memo || (k <= current && Fits(cap, Fib(k)))
      {
        GenZeroOne(k);
      }
      memo := filled;
      current := current + 1;
      r := fib;
    }
  }

  /** `fibonacci_n`: an iterator starting at index `n`. */
  method FibonacciN(cap: Capacity, n: nat) returns (it: FibonacciIterator)
    ensures fresh(it) && it.Valid() && it.cap == cap && it.current == n
    ensures forall k: nat :: k in it.memo <==> k <= 1 || (k <= n && Fits(cap, Fib(k)))
  {
    it := new FibonacciIterator.NewAt(cap, n);
  }

  /** `fibonacci`: an iterator starting at index 0. */
  method Fibonacci(cap: Capacity) returns (it: FibonacciIterator)
    ensures fresh(it) && it.Valid() && it.cap == cap && it.current == 0
    ensures it.memo == FibonacciConstructMemo()
  {
    it := new FibonacciIterator.New(cap);
  }

  /**
    Draws n + 1 values from a new iterator. The last one is Fib(n) or None,
    and the memo then holds exactly the base cases and the indices up to n
    whose values fit.
   */
  method DrainFromStart(cap: Capacity, n: nat) returns (it: FibonacciIterator, last: Option<nat>)
    ensures it.Valid() && it.cap == cap && it.current == n + 1
    ensures last == Checked(cap, Fib(n))
    ensures forall k: nat :: k in it.memo <==> k <= 1 || (k <= n && Fits(cap, Fib(k)))
  {
    it := new FibonacciIterator.New(cap);
    var i := 0;
    while i < n
      invariant i <= n
      invariant it.Valid() && it.cap == cap && it.current == i
      invariant forall k: nat :: k in it.memo <==> k <= 1 || (k < i && Fits(cap, Fib(k)))
    {
      var skipped := it.Next();
      i := i + 1;
    }
    last := it.Next();
  }

  /**
    Seeking with `NewAt(n)` and drawing one value, or drawing n + 1 values
    from `New()`, give the same value, Fib(n) or None, and leave iterators in
    the same state, so every later value agrees too.
   */
  method SeekMatchesDrain(cap: Capacity, n: nat)
    returns (sought: Option<nat>, drained: Option<nat>, fromN: FibonacciIterator, fromStart: FibonacciIterator)
    ensures sought == drained == Checked(cap, Fib(n))
    ensures fromN.Valid() && fromStart.Valid() && fromN.cap == fromStart.cap == cap
    ensures fromN.current == fromStart.current == n + 1
    ensures fromN.memo == fromStart.memo
  {
    fromStart, drained := DrainFromStart(cap, n);
    fromN := new FibonacciIterator.NewAt(cap, n);
    sought := fromN.Next();
    assert forall k: nat :: k in fromN.memo <==> k <= 1 || (k <= n && Fits(cap, Fib(k)));
    SameKeysSameFibMemo(cap, fromN.memo, fromStart.memo);
  }

  /** Two memos holding Fibonacci numbers only are equal when they have the same keys. */
  lemma SameKeysSameFibMemo(cap: Capacity, m1: map<nat, nat>, m2: map<nat, nat>)
    requires FibMemo(cap, m1) && FibMemo(cap, m2)
    requires forall k: nat :: k in m1 <==> k in m2
    ensures m1 == m2
  {
  }

  /** Once `Next` has returned None, the following call returns None as well. */
  method ExhaustedStaysExhausted(it: FibonacciIterator) returns (r1: Option<nat>, r2: Option<nat>)
    requires it.Valid()
    modifies it
    ensures r1.None? ==> r2.None?
    ensures r1 == Checked(it.cap, Fib(old(it.current))) && r2 == Checked(it.cap, Fib(old(it.current) + 1))
  {
    r1 := it.Next();
    r2 := it.Next();
    if r1.None? {
      ExhaustionIsPermanent(it.cap, old(it.current), old(it.current) + 1);
    }
  }
}
