# Trial-division primality test

This project models `IsPrime` of package `packer`, a trial-division primality
test over Go's `int`. The function tries every divisor `i` from 2 up to the
integer square root of `num`. It returns `false` at the first `i` that divides
`num`, and otherwise returns `num > 1`.

The Dafny model lives in `prime.dfy`, module `Packer`:

- `Packer.IsPrime` is the loop itself, a `method` with a `while` loop. The loop
  condition is the exact integer form `i * i <= num` of the source's
  floating-point bound `i <= int(math.Sqrt(float64(num)))`.
- `Packer.IsPrimeSpec` is the textbook definition of a prime: greater than one,
  and no divisor strictly between one and itself. The method is proved equal to it.
- `Packer.TrialPrime` is what trial division checks: no divisor `i` with
  `i * i <= n`. `Packer.TrialPrimeIffPrime` proves it equivalent to
  `IsPrimeSpec`, by the square-root factor lemma `Packer.CompositeHasSmallFactor`.
- `Packer.ISqrt` is the integer square root, the source's loop bound.
  `Packer.ISqrtBound` proves that `i * i <= n` is the same as `i <= ISqrt(n)`.

Go's `%` truncates toward zero and Dafny's is Euclidean. The source only ever
compares the remainder with zero, and a zero remainder means the same under
both. So `Packer.Divides` uses Dafny's `%` without changing what is modelled.

## Model

| member | source | states |
|---|---|---|
| `Packer.IsPrime` | packer/prime.go:5-13 | the result is true exactly when `num > 1` and no `d` with `1 < d < num` divides `num`; in particular every `num <= 1` (0, 1, negatives) gives false |
| `Packer.ExhaustedLoopDecides` | packer/prime.go:6-12 | when the loop stops with `i * i > num` and no divisor in `[2, i)`, the final answer `num > 1` is exactly primality |
| `Packer.DivisorInBoundNotPrime` | packer/prime.go:6-8 | a divisor `i` with `2 <= i` and `i * i <= num` makes `num` not prime, so the early `return false` is right |
| `Packer.TrialPrimeIffPrime` | packer/prime.go:6-12 | having no divisor `i` with `2 <= i` and `i * i <= n` (and `n > 1`) holds if and only if `n` is prime |
| `Packer.CompositeHasSmallFactor` | packer/prime.go:6 | a number with a proper divisor `d` has a divisor `e` with `2 <= e <= d` and `e * e <= n` |
| `Packer.ISqrt` | packer/prime.go:6 | the loop bound: the result `r` satisfies `r * r <= n < (r + 1) * (r + 1)` |
| `Packer.ISqrtBound` | packer/prime.go:6 | `i * i <= n` holds if and only if `i <= ISqrt(n)`, so the integer loop condition runs the same counters as the square-root bound |
| `Packer.ISqrtUnique` | packer/prime.go:6 | any `r` with `r * r <= n < (r + 1) * (r + 1)` is `ISqrt(n)` |
| `Packer.PrimeHasNoFactorUpToISqrt` | packer/prime.go:6-12 | a prime has no divisor `i` in `[2, ISqrt(num)]`, so a true result means every trial failed |
| `Packer.TwoAndThreeArePrime` | packer/prime.go:6-12 | for 2 and 3 the bound `ISqrt` is 1, the loop body never runs, and both are prime |
| `Packer.PrimeSquareNotPrime` | packer/prime.go:6-8 | for a prime `p`, `ISqrt(p * p) == p`, the inclusive bound reaches the trial `i == p`, which divides, so `p * p` is not prime |
| `Packer.SmallPrimeSquaresNotPrime` | packer/prime.go:6-8 | 4, 9 and 25 have square roots 2, 3 and 5 and are not prime |

## Left out

- `Packer.IsPrime`: the floating-point bound `int(math.Sqrt(float64(num)))` is replaced by the exact integer condition `i * i <= num`; float rounding for `num` beyond about 2^53 is not modelled.
- `Packer.IsPrime`: for negative `num` the source converts a NaN square root to `int`, which is implementation-defined; the model only keeps the observable result, false.
- `Packer.IsPrime`: integers are unbounded, so 64-bit `int` wrap-around is not modelled.
- routines/routine.go: goroutines, the package-level `sync.WaitGroup`, the unguarded shared `counter`, the unused `sync.RWMutex` and the channel hand-offs are concurrency demonstrations and are not modelled.
- main.go: it only declares literal values and prints them; there is no behaviour to state.
- Console output (`fmt.Printf`) anywhere in the repository is not modelled.
