/**
 * A model of the trial-division primality test of package `packer`.
 *
 * `IsPrime` tries every candidate divisor `i` from 2 upwards while `i` does
 * not exceed the integer square root of `num`, answers `false` at the first
 * divisor it meets, and otherwise answers `num > 1`. The model states the
 * square-root bound exactly, as `i * i <= num` over unbounded integers, and
 * proves the method against `IsPrimeSpec`, the textbook definition of a prime.
 */
module Packer {

  /** `d` divides `n`: a non-zero `d` leaves no remainder. A zero remainder
      means the same under truncating and under Euclidean division, so this
      agrees with the source's `%` for every sign of `n`. */
  predicate Divides(d: int, n: int) {
    d != 0 && n % d == 0
  }

  /** The definition of a prime: greater than one, and no divisor strictly
      between one and itself. */
  predicate IsPrimeSpec(n: int) {
    n > 1 && forall d :: 1 < d < n ==> !Divides(d, n)
  }

  /** What trial division up to the square root checks: greater than one, and
      no divisor `i` with `2 <= i` and `i * i <= n`. */
  ghost predicate TrialPrime(n: int) {
    n > 1 && forall i :: 2 <= i && i * i <= n ==> !Divides(i, n)
  }

  // ---------------------------------------------------------------------
  // Arithmetic helpers
  // ---------------------------------------------------------------------

  /** Squaring is monotone on the naturals. */
  lemma SquareMonotone(a: int, b: int)
    requires 0 <= a <= b
    ensures a * a <= b * b
  {
    assert a * a <= a * b by { MulLeftMonotone(a, a, b); }
    assert a * b <= b * b by { MulLeftMonotone(b, a, b); }
  }

  /** Multiplying by a non-negative factor keeps an inequality. */
  lemma MulLeftMonotone(k: int, a: int, b: int)
    requires 0 <= k && a <= b
    ensures k * a <= k * b
  {
    assert k * b - k * a == k * (b - a);
  }

  /** A multiple of `q` leaves no remainder when divided by `q`. */
  lemma MultipleDivides(q: int, d: int)
    requires q > 0
    ensures Divides(q, q * d)
  {
    var n := q * d;
    var k, m := n / q, n % q;
    assert n == q * k + m && 0 <= m < q;
    assert q * (d - k) == m;
    if d - k >= 1 {
      MulLeftMonotone(q, 1, d - k);
      assert false;
    } else if d - k <= -1 {
      MulLeftMonotone(q, d - k, -1);
      assert false;
    }
  }

  /** A divisor `i` with `2 <= i` and `i * i <= n` is a proper divisor: it
      lies strictly between one and `n`. */
  lemma SmallDivisorIsProper(n: int, i: int)
    requires 2 <= i && i * i <= n
    ensures 1 < i < n
  {
    MulLeftMonotone(i, 2, i);
  }

  // ---------------------------------------------------------------------
  // The integer square root (the loop bound `int(math.Sqrt(float64(num)))`)
  // ---------------------------------------------------------------------

  /** The integer square root, the largest `r` whose square does not exceed `n`. */
  function ISqrt(n: nat): (r: nat)
    ensures r * r <= n < (r + 1) * (r + 1)
  {
    if n == 0 then 0
    else
      var s := ISqrt(n - 1);
      if (s + 1) * (s + 1) <= n then
        assert n == (s + 1) * (s + 1);
        assert (s + 2) * (s + 2) == (s + 1) * (s + 1) + 2 * s + 3;
        s + 1
      else s
  }

  /** The loop condition `i * i <= num` is the source's bound `i <= isqrt(num)`. */
  lemma {:induction false} ISqrtBound(n: nat, i: nat)
    ensures i * i <= n <==> i <= ISqrt(n)
  {
    var r := ISqrt(n);
    if i <= r {
      SquareMonotone(i, r);
    } else {
      SquareMonotone(r + 1, i);
    }
  }

  /** The square-root bounds determine the integer square root. */
  lemma {:induction false} ISqrtUnique(n: nat, r: nat)
    requires r * r <= n < (r + 1) * (r + 1)
    ensures ISqrt(n) == r
  {
    var s := ISqrt(n);
    if s < r {
      SquareMonotone(s + 1, r);
    } else if s > r {
      SquareMonotone(r + 1, s);
    }
  }

  // ---------------------------------------------------------------------
  // The square-root factor lemma
  // ---------------------------------------------------------------------

  /** A composite number has a divisor no larger than its square root:
      of `d` and `n / d`, the smaller one will do. */
  lemma {:induction false} CompositeHasSmallFactor(n: int, d: int) returns (e: int)
    requires 1 < d < n && Divides(d, n)
    ensures 2 <= e <= d && e * e <= n && Divides(e, n)
  {
    var q := n / d;
    assert n == d * q;
    if q <= 1 {
      MulLeftMonotone(d, q, 1);
      assert false;
    }
    if d * d <= n {
      e := d;
    } else {
      if q >= d {
        MulLeftMonotone(d, d, q);
        assert false;
      }
      MulLeftMonotone(q, q, d);
      MultipleDivides(q, d);
      e := q;
    }
  }

  /** Trial division up to the square root decides primality: checking the
      divisors whose square does not exceed `n` is as good as checking all of
      them, in both directions. */
  lemma TrialPrimeIffPrime(n: int)
    ensures TrialPrime(n) <==> IsPrimeSpec(n)
  {
    if TrialPrime(n) {
      forall d | 1 < d < n ensures !Divides(d, n) {
        if Divides(d, n) {
          var e := CompositeHasSmallFactor(n, d);
          assert false;
        }
      }
    }
    if IsPrimeSpec(n) {
      forall i | 2 <= i && i * i <= n ensures !Divides(i, n) {
        SmallDivisorIsProper(n, i);
      }
    }
  }

  // ---------------------------------------------------------------------
  // The primality test
  // ---------------------------------------------------------------------

  /** Trial division with the square-root bound and the early exit. */
  method IsPrime(num: int) returns (r: bool)
    ensures r <==> IsPrimeSpec(num)
    ensures num <= 1 ==> !r
  {
    var i := 2;
    while i * i <= num
      invariant 2 <= i
      invariant forall j :: 2 <= j < i ==> !Divides(j, num)
      decreases num - i
    {
      SmallDivisorIsProper(num, i);
      if num % i == 0 {
        DivisorInBoundNotPrime(num, i);
        return false;
      }
      i := i + 1;
    }
    ExhaustedLoopDecides(num, i);
    return num > 1;
  }

  /** When trial division stops with `i * i > num` and no divisor in
      `[2, i)`, the answer `num > 1` is the right one. */
  lemma ExhaustedLoopDecides(num: int, i: int)
    requires 2 <= i && num < i * i
    requires forall j :: 2 <= j < i ==> !Divides(j, num)
    ensures IsPrimeSpec(num) <==> num > 1
  {
    if num > 1 {
      forall j | 2 <= j && j * j <= num ensures !Divides(j, num) {
        if j >= i {
          SquareMonotone(i, j);
        }
      }
      TrialPrimeIffPrime(num);
    }
  }

  /** The early exit is right: a divisor `i` with `2 <= i` and `i * i <= num`
      makes `num` not prime. */
  lemma DivisorInBoundNotPrime(num: int, i: int)
    requires 2 <= i && i * i <= num && Divides(i, num)
    ensures !IsPrimeSpec(num)
  {
    SmallDivisorIsProper(num, i);
  }

  /** A prime has no divisor in `[2, isqrt(num)]`, so every trial that the
      loop performs on it fails and it reaches the final `num > 1`. */
  lemma PrimeHasNoFactorUpToISqrt(num: int, i: int)
    requires IsPrimeSpec(num) && 2 <= i <= ISqrt(num)
    ensures !Divides(i, num)
  {
    ISqrtBound(num, i);
    SmallDivisorIsProper(num, i);
  }

  /** For 2 and 3 the bound `isqrt(num)` is 1, so the loop body never runs,
      and both are prime. */
  lemma TwoAndThreeArePrime()
    ensures ISqrt(2) == 1 && ISqrt(3) == 1
    ensures 2 * 2 > 3
    ensures IsPrimeSpec(2) && IsPrimeSpec(3)
  {
    ISqrtUnique(2, 1);
    ISqrtUnique(3, 1);
  }

  /** The square of a prime `p` has integer square root `p`; since the bound
      is inclusive, the trial `i == p` is made and finds the divisor, so the
      square is not prime. */
  lemma PrimeSquareNotPrime(p: int)
    requires IsPrimeSpec(p)
    ensures p * p >= 0 && ISqrt(p * p) == p
    ensures Divides(p, p * p) && !IsPrimeSpec(p * p)
  {
    assert (p + 1) * (p + 1) == p * p + 2 * p + 1;
    ISqrtUnique(p * p, p);
    MultipleDivides(p, p);
    DivisorInBoundNotPrime(p * p, p);
  }

  /** 4, 9 and 25, the squares of 2, 3 and 5, are not prime. */
  lemma SmallPrimeSquaresNotPrime()
    ensures ISqrt(4) == 2 && ISqrt(9) == 3 && ISqrt(25) == 5
    ensures !IsPrimeSpec(4) && !IsPrimeSpec(9) && !IsPrimeSpec(25)
  {
    TwoAndThreeArePrime();
    assert IsPrimeSpec(5) by {
      forall d | 1 < d < 5 ensures !Divides(d, 5) {
        assert d == 2 || d == 3 || d == 4;
      }
    }
    PrimeSquareNotPrime(2);
    PrimeSquareNotPrime(3);
    PrimeSquareNotPrime(5);
  }
}
