# Memoised Fibonacci engine

A Dafny model of the `fibonacci` Rust crate's engine. It covers:

- the seed table `{0 -> 0, 1 -> 1}`;
- the top-down evaluator `fibonacci_at_memo`, which caches results in a memo the caller owns and reports overflow as `None`;
- the single-shot lookup `fibonacci_at`;
- the bottom-up loop `fibonacci_at_fast`;
- the lazy `FibonacciIterator`, which owns a memo and a cursor;
- the copy of the evaluator in the binary, `fibonacci` in `src/main.rs`, which is run against the seeds `{0 -> 1, 1 -> 1}`.

The crate is generic over any type with `zero`, `one`, `clone` and `checked_add`. Here a value is the natural number it denotes. `Numeric.Capacity` says which naturals the chosen type holds: `Bounded(max)` for `u16`, `u32` and `u64`, and `Unbounded` for `BigUint`. `checked_add` is `Numeric.CheckedAdd`: the sum when it fits, `None` otherwise.

A `&mut HashMap<usize, I>` is modelled as a `map<nat, nat>` passed in and handed back. The exclusive borrow rules out aliasing, so nothing is lost. The iterator is a class whose `memo` and `current` fields are updated by `Next`.

Files:

- `numeric.dfy` (module `Numeric`): the numeric capability.
- `recurrence.dfy` (module `Recurrence`): `Fib` and the seed-parametric recurrence `Gen(s0, s1, n)`.
- `lib.dfy` (module `FibonacciLib`): `src/lib.rs`.
- `main.dfy` (module `FibonacciMain`): the evaluator and seed table of `src/main.rs`.

The evaluator's contract is stated once for any seeds through `FibonacciLib.Consistent`. Every entry `m[k]` must equal `Gen(m[0], m[1], k)` and fit the type. With seeds 0 and 1 this is the documented assumption `memo[k] = Fibonacci(k)`. With seeds 1 and 1 it is the shifted sequence `Fib(k + 1)` that `src/main.rs` computes. The two evaluators have the same body, so `FibonacciMain.Fibonacci` runs the one evaluator. It therefore agrees with `fibonacci_at_memo` on every memo by construction.

## Model

| member | source | states |
|---|---|---|
| `Recurrence.GenZeroOne` | src/lib.rs:8-14 | The recurrence started from the seed table's values 0 and 1 is the Fibonacci sequence at every index |
| `Recurrence.GenOneOne` | src/main.rs:10-11 | The recurrence started from the binary's seeds 1 and 1 is the Fibonacci sequence shifted by one: G(n) == Fib(n + 1) |
| `FibonacciLib.FibMemoIsConsistent` | src/lib.rs:124-126 | A memo with memo[k] == Fibonacci(k) for every key (and 0, 1 present) is exactly a memo consistent with the seeds 0 and 1, in both directions |
| `FibonacciLib.FibonacciConstructMemo` | src/lib.rs:8-14 | The seed table has exactly the keys 0 and 1, holds Fib at each, is an initial segment, and satisfies the evaluator's precondition for every numeric type |
| `FibonacciLib.FibonacciAtMemo` | src/lib.rs:124-141 | A hit returns the cached value and leaves the memo alone. A miss never drops or alters an entry, only adds keys up to n, and caches n exactly when it returns Some (overflow leaves n absent). On a consistent memo it returns the recurrence's value at n when that fits and None otherwise, and the memo stays consistent. On a consistent memo whose keys form an initial segment, the keys stay an initial segment and every index up to n whose value fits is cached. Whatever the memo, the result leaves it settled at n: evaluating n again would change nothing. On a memo already settled at n, the call returns the cached entry or None and leaves the memo as it was |
| `FibonacciLib.FibonacciAtMemoTwice` | src/lib.rs:129-131 | For every memo holding keys 0 and 1, a second evaluation of the same index returns what the first did and leaves the memo exactly as the first call left it. This holds after an overflow too. On a consistent memo the shared result is the recurrence's value at n, or None when it overflows |
| `FibonacciLib.FibonacciAt` | src/lib.rs:88-101 | Evaluating n on a fresh seed memo and reading key n back gives Some(Fib(n)) when it fits the type and None otherwise |
| `FibonacciLib.FibonacciAtFast` | src/lib.rs:103-122 | The loop as written returns Some(0) at 0 and Some(1) at 1. For n >= 2 it returns Fib(n - 1) when that fits, or None as soon as a checked sum overflows |
| `FibonacciLib.FastDocExample` | src/lib.rs:105-111 | The documented example, read as `Some(5)`: the fast loop gives 5 at index 6 |
| `FibonacciLib.FastDisagreesAtThree` | src/lib.rs:97-122 | At index 3 the fast loop gives Some(1) while the memoised lookup gives Some(2) |
| `FibonacciLib.FibonacciAtFastFixed` | src/lib.rs:112-122 | With the loop bound 1..n the bottom-up loop returns Some(Fib(n)) when it fits and None otherwise, the same answer as the memoised lookup for every n and every type |
| `FibonacciLib.ExhaustionIsPermanent` | src/lib.rs:50-56 | If the value at index i overflows the type, the value at every later index overflows too, so an iterator that has returned None returns None from then on |
| `FibonacciLib.FirstOverflow` | src/lib.rs:88-89 | A fixed-width type has a first index whose Fibonacci number overflows while the one before it fits |
| `FibonacciLib.FibonacciIterator.New` | src/lib.rs:33-36 | A new iterator has cursor 0 and the seed memo, and satisfies the iterator invariant |
| `FibonacciLib.FibonacciIterator.NewAt` | src/lib.rs:38-44 | An iterator built at n has cursor n and a memo holding exactly the base cases and every index up to n whose value fits, so all of 0..n when Fib(n) fits |
| `FibonacciLib.FibonacciIterator.IntoMemo` | src/lib.rs:46-47 | The returned memo holds Fib(k) at every key, and every index below the cursor whose value fits |
| `FibonacciLib.FibonacciIterator.Next` | src/lib.rs:50-56 | Returns Fib(current) when it fits and None otherwise, advances the cursor by exactly one even on None, keeps the invariant, and adds to the memo exactly the indices up to the old cursor whose value fits |
| `FibonacciLib.FibonacciN` | src/lib.rs:59-72 | Returns a fresh iterator at index n whose memo is filled as `NewAt` fills it |
| `FibonacciLib.Fibonacci` | src/lib.rs:74-86 | Returns a fresh iterator at index 0 over the seed memo |
| `FibonacciLib.DrainFromStart` | src/lib.rs:33-56 | Drawing n + 1 values from a new iterator leaves the cursor at n + 1, makes the last value Fib(n) or None, and leaves a memo holding exactly the base cases and every index up to n whose value fits |
| `FibonacciLib.SeekMatchesDrain` | src/lib.rs:38-44 | An iterator built at n and a new iterator that has already produced n values then produce the same next value, Fib(n) or None. Afterwards the two have equal cursors and equal memos, so every later value agrees too |
| `FibonacciLib.ExhaustedStaysExhausted` | src/lib.rs:50-56 | Two calls of `next` in a row return Fib(current) and Fib(current + 1), or None where they overflow. If the first returns None, so does the second |
| `FibonacciMain.MainSeedMemo` | src/main.rs:8-11 | The binary's seed table has exactly the keys 0 and 1, holds Fib(k + 1) at each, and satisfies the shifted invariant for every numeric type |
| `FibonacciMain.ShiftedMemoIsConsistent` | src/main.rs:8-11 | A memo with memo[k] == Fib(k + 1) for every key is exactly a memo consistent with the seeds 1 and 1 |
| `FibonacciMain.Fibonacci` | src/main.rs:21-33 | The same hit, caching and failure rules as the library evaluator. On a memo holding Fib(k + 1) at every key, it returns Some(Fib(n + 1)) when that fits and None otherwise, and the memo keeps that invariant |

## Left out

- `main` in src/main.rs:6-19 and the programs under `examples/`: they wait for keypresses, print and format error strings. This is I/O around the engine.
- `BigUint` arithmetic and `HashMap` hashing: values are naturals and the memo is a `map`. `BigUint` is the `Unbounded` capacity, for which `Numeric.Checked` never gives `None`.
- `Clone`: values are immutable here, so cloning is the identity.
- `usize` limits: the wrap-around of `current += 1` and the recursion depth of the evaluator are resource concerns. Indices are unbounded naturals.
- `FibonacciLib.FibonacciAtMemo`: the evaluator subtracts 1 and 2 from a missing index, so it underflows once the recursion reaches a missing index below 2. A hit returns without subtracting, and a memo such as {3 -> 2, 4 -> 3} evaluated at 5 never reaches index 1 or 0. Every caller seeds both keys (src/lib.rs:35, 41, 98; src/main.rs:10-11), so the model requires 0 and 1 to be present.
- `FibonacciLib.FibonacciAtMemo` and `FibonacciMain.Fibonacci`: the in-place insertion into the borrowed `HashMap` is modelled as a map passed in and a new map handed back. The order of updates is kept: the call on n - 1, then the call on n - 2, then the insertion at n. What is not captured is an update in place through a shared reference, but the exclusive `&mut` borrow allows no other view of the map during the call.
- `FibonacciLib.FibonacciAtMemo`: on a memo that breaks the documented assumption (src/lib.rs:126), the contract states only the structural facts (entries kept, hits returned, which key gets cached), not the returned value.
- `FibonacciLib.FibonacciIterator.IntoMemo`: `into_memo` consumes the iterator. Dafny has no moves, so the model returns the memo and leaves the object in place.
- An exhausted iterator does not remember that it is exhausted: each later `next` evaluates again and overflows again. `ExhaustionIsPermanent` is why every such call returns `None`.
- The doc examples at src/lib.rs:64-68, 93-95 and 107-111 are faulty. The first calls `fibonacci_n` without importing it. The other two compare an `Option` with a number. The one at line 95 also asserts `fibonacci_at(6) == 5`, where the code gives `Some(8)`. The code is followed. `FibonacciLib.FastDocExample` reads line 110 as `Some(5)`, which is what the code returns. The example at src/lib.rs:78-82 only prints the values of `fibonacci::<u16>()` and promises nothing beyond what `FibonacciLib.Fibonacci` and `FibonacciLib.FibonacciIterator.Next` state.

## Findings

| source | as written | input that shows it | evidently intended | confidence | as-written member | corrected member |
|---|---|---|---|---|---|---|
| src/lib.rs:116 | `for _ in 2..n` runs n - 2 times, so `fibonacci_at_fast(n)` is Fib(n - 1) for n >= 2, although both it and `fibonacci_at` are documented as "Calculates Fibonacci(n)" (src/lib.rs:88, 103) | n = 3: `fibonacci_at_fast` gives Some(1), `fibonacci_at` gives Some(2). The two also disagree on the first index that overflows | `for _ in 1..n`, so that the loop returns Fib(n) and agrees with `fibonacci_at` | medium, not executed (the doc example at src/lib.rs:110 matches the code as written) | `FibonacciLib.FastDisagreesAtThree` | `FibonacciLib.FibonacciAtFastFixed` |
