/** The Park-Miller generator of programs/grind/grind.c:17-39. */
module Rand {
  const M: int := 0x7fffffff
  const A: int := 16807
  const INVERSE: int := 1407677000

  /** The code promises to compute within 31 bits and a sign. */
  newtype int32 = x: int | -0x8000_0000 <= x < 0x8000_0000

  type Seed = x: nat | x < 0x1_0000_0000_0000_0000

  /** A state as a number from 1 to M - 1. */
  function Residue(ctx: Seed): int {
    ctx % 0x7ffffffe + 1
  }

  /** The next state: multiplication by A modulo M. */
  function Next(ctx: Seed): Seed {
    NotZero(Residue(ctx));
    A * Residue(ctx) % M - 1
  }

  function Back(ctx: Seed): Seed
    requires InRange(ctx)
  {
    BackNotZero(ctx + 1);
    INVERSE * (ctx + 1) % M - 1
  }

  predicate InRange(ctx: Seed) {
    ctx <= 0x7ffffffd
  }

  lemma Remainder(n: int, q: int, r: int)
    requires n == M * q + r && 0 <= r < M
    ensures n % M == r
  {
  }

  /** INVERSE undoes A, and A undoes INVERSE. */
  lemma Inverts(t: int)
    requires 0 <= t < M
    ensures INVERSE * (A * t % M) % M == t && A * (INVERSE * t % M) % M == t
  {
    var n, m := A * t, INVERSE * t;
    Remainder(INVERSE * (n % M), 11017 * t - INVERSE * (n / M), t);
    Remainder(A * (m % M), 11017 * t - A * (m / M), t);
  }

  lemma NotZero(t: int)
    requires 0 < t < M
    ensures A * t % M != 0
  {
    Inverts(t);
  }

  lemma BackNotZero(t: int)
    requires 0 < t < M
    ensures INVERSE * t % M != 0
  {
    Inverts(t);
  }

  /** On the range of its results the step can be undone and every state is reached: it is a permutation. */
  lemma StepIsPermutation(ctx: Seed)
    requires InRange(ctx)
    ensures InRange(Next(ctx)) && Back(Next(ctx)) == ctx
    ensures InRange(Back(ctx)) && Next(Back(ctx)) == ctx
  {
    var t := ctx + 1;
    Inverts(t);
    NotZero(t);
    BackNotZero(t);
    assert Residue(ctx) == t;
    var n, b := A * t % M, INVERSE * t % M;
    assert Next(ctx) == n - 1 && Back(ctx) == b - 1;
    assert Residue(n - 1) == n && Residue(b - 1) == b;
  }

  lemma StepIsInjective(a: Seed, b: Seed)
    requires InRange(a) && InRange(b) && Next(a) == Next(b)
    ensures a == b
  {
    StepIsPermutation(a);
    StepIsPermutation(b);
  }

  function Run(ctx: Seed, n: nat): Seed {
    if n == 0 then ctx else Next(Run(ctx, n - 1))
  }

  function Power(n: nat): nat {
    if n == 0 then 1 else A * Power(n - 1)
  }

  /** After `n` calls the state is the first one times the `n`th power of A. */
  lemma {:induction false} RunIsPower(ctx: Seed, n: nat)
    requires InRange(ctx)
    ensures InRange(Run(ctx, n)) && Run(ctx, n) + 1 == Power(n) * (ctx + 1) % M
  {
    if n > 0 {
      RunIsPower(ctx, n - 1);
      StepIsPermutation(Run(ctx, n - 1));
      NextIsProduct(Run(ctx, n - 1));
      TimesA(Power(n - 1) * (ctx + 1));
      Regroup(Power(n - 1), ctx + 1);
    }
  }

  lemma NextIsProduct(ctx: Seed)
    requires InRange(ctx)
    ensures Next(ctx) + 1 == A * (ctx + 1) % M
  {
  }

  lemma TimesA(p: int)
    ensures A * (p % M) % M == A * p % M
  {
    var r := A * (p % M);
    Remainder(A * p, A * (p / M) + r / M, r % M);
  }

  lemma Regroup(p: int, c: int)
    ensures A * p * c == A * (p * c)
  {
  }

  class Generator {
    var ctx: Seed

    /** Every intermediate result fits 31 bits and a sign. */
    method DoRand() returns (r: int)
      modifies this
      ensures ctx == Next(old(ctx)) && r == ctx && InRange(ctx)
    {
      var x := (ctx % 0x7ffffffe + 1) as int32;
      var hi, lo := x / 127773, x % 127773;
      Schrage(x as int, hi as int, lo as int);
      x := 16807 * lo - 2836 * hi;
      if x < 0 {
        x := x + 0x7fffffff;
      }
      x := x - 1;
      ctx := x as int;
      r := x as int;
    }
  }

  /** Schrage's method: the difference is the product less a multiple of M, and within M of zero. */
  lemma Schrage(t: int, hi: int, lo: int)
    requires 0 < t < M && hi == t / 127773 && lo == t % 127773
    ensures 0 <= 16807 * lo < 0x8000_0000 && 0 <= 2836 * hi < 0x8000_0000
    ensures var x := 16807 * lo - 2836 * hi;
      -M < x < M && A * t % M == (if x < 0 then x + M else x) && A * t % M != 0
  {
    var x := 16807 * lo - 2836 * hi;
    assert A * t == M * hi + x;
    if x < 0 {
      Remainder(A * t, hi - 1, x + M);
    } else {
      Remainder(A * t, hi, x);
    }
    NotZero(t);
  }
}
