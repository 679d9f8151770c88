/** Exponential backoff with deterministic jitter, over the reals. */
module Backoff {
  import opened Wrappers

  /** `multiplier` is the hash-derived factor: any function of the seed into the jitter band. */
  datatype ExponentialBackoff<!Seed> = ExponentialBackoff(base: real, max: real, jitter: real, multiplier: Seed -> real)

  /** What the constructor accepts; a refusal is a ValueError. */
  predicate Accepted(base: real, max: real, jitter: real) {
    0.0 <= jitter < 1.0 && 0.0 <= base <= max
  }

  ghost predicate Valid<Seed(!new)>(b: ExponentialBackoff<Seed>) {
    && Accepted(b.base, b.max, b.jitter)
    && forall s: Seed :: 1.0 - b.jitter <= b.multiplier(s) <= 1.0 + b.jitter
  }

  function Pow2(n: nat): (p: real)
    ensures p >= 1.0
  {
    if n == 0 then 1.0 else 2.0 * Pow2(n - 1)
  }

  function Least(a: real, b: real): real {
    if b < a then b else a
  }

  /** 2.0 ** 1024 is more than a float holds. */
  const MAX_EXPONENT: nat := 1023

  function Exponent(attempts: int): nat {
    if attempts - 1 > 0 then attempts - 1 else 0
  }

  function BaseDelay<Seed>(b: ExponentialBackoff<Seed>, attempts: int): real {
    Least(b.base * Pow2(Exponent(attempts)), b.max)
  }

  function Jittered(base: real, factor: real, max: real): real {
    Least(base * factor, max)
  }

  /** None where the code raises: a seed missing under jitter, or an exponent past the float range. */
  function Delay<Seed>(b: ExponentialBackoff<Seed>, attempts: int, seed: Option<Seed>): Option<real> {
    if b.jitter > 0.0 && seed.None? then None
    else if Exponent(attempts) > MAX_EXPONENT then None
    else if b.jitter == 0.0 || seed.None? then Some(BaseDelay(b, attempts))
    else Some(Jittered(BaseDelay(b, attempts), b.multiplier(seed.value), b.max))
  }

  lemma {:induction false} Pow2Monotone(m: nat, n: nat)
    requires m <= n
    ensures Pow2(m) <= Pow2(n)
  {
    if m < n {
      Pow2Monotone(m, n - 1);
    }
  }

  lemma Scaled(c: real, x: real, y: real)
    requires c >= 0.0 && x <= y
    ensures c * x <= c * y
  {
  }

  lemma BaseDelayMonotone<Seed>(b: ExponentialBackoff<Seed>, m: int, n: int)
    requires Accepted(b.base, b.max, b.jitter) && m <= n
    ensures b.base <= BaseDelay(b, m) <= BaseDelay(b, n) <= b.max
  {
    Pow2Monotone(Exponent(m), Exponent(n));
    CappedMonotone(b.base, b.max, Pow2(Exponent(m)), Pow2(Exponent(n)));
  }

  lemma CappedMonotone(base: real, max: real, p: real, q: real)
    requires 0.0 <= base <= max && 1.0 <= p <= q
    ensures base <= Least(base * p, max) <= Least(base * q, max) <= max
  {
    Scaled(base, 1.0, p);
    Scaled(base, p, q);
    assert base * 1.0 == base;
    LeastMonotone(base * p, base * q, max);
  }

  lemma LeastMonotone(x: real, y: real, max: real)
    requires x <= y
    ensures Least(x, max) <= Least(y, max) <= max
  {
  }

  /** The edges of the jitter band. */
  function Low(base: real, jitter: real): real {
    base * (1.0 - jitter)
  }

  function High(base: real, jitter: real): real {
    base * (1.0 + jitter)
  }

  lemma LowMonotone(x: real, y: real, jitter: real)
    requires x <= y && jitter < 1.0
    ensures Low(x, jitter) <= Low(y, jitter)
  {
    ScaledLeft(x, y, 1.0 - jitter);
  }

  lemma ScaledLeft(x: real, y: real, c: real)
    requires c >= 0.0 && x <= y
    ensures x * c <= y * c
  {
  }

  lemma Between(low: real, base: real, jittered: real, high: real, max: real)
    requires low <= base <= max && low <= jittered <= high
    ensures low <= Least(jittered, max) <= max && Least(jittered, max) <= high
  {
  }

  lemma JitterBand(base: real, max: real, jitter: real, factor: real)
    requires Accepted(base, max, jitter) && 1.0 - jitter <= factor <= 1.0 + jitter
    ensures Low(base, jitter) <= Jittered(base, factor, max) <= max && Jittered(base, factor, max) <= High(base, jitter)
    ensures Low(base, jitter) <= base <= High(base, jitter)
  {
    Scaled(base, 1.0 - jitter, factor);
    Scaled(base, factor, 1.0 + jitter);
    Scaled(base, 1.0 - jitter, 1.0);
    Scaled(base, 1.0, 1.0 + jitter);
    assert base * 1.0 == base;
    Between(base * (1.0 - jitter), base, base * factor, base * (1.0 + jitter), max);
  }

  /**
    Whatever the seed, the delay stays inside the jitter band and under the ceiling: never below (1 - jitter) * base.
    */
  lemma DelayBounds<Seed(!new)>(b: ExponentialBackoff<Seed>, attempts: int, seed: Option<Seed>)
    requires Valid(b) && Delay(b, attempts, seed).Some?
    ensures var d := Delay(b, attempts, seed).value;
            && Low(b.base, b.jitter) <= Low(BaseDelay(b, attempts), b.jitter) <= d <= b.max
            && d <= High(BaseDelay(b, attempts), b.jitter)
  {
    BaseDelayMonotone(b, attempts, attempts);
    LowMonotone(b.base, BaseDelay(b, attempts), b.jitter);
    JitterBand(BaseDelay(b, attempts), b.max, b.jitter, if seed.Some? then b.multiplier(seed.value) else 1.0);
  }

  /** It raises exactly without the seed that its jitter needs, or past the exponents a float can hold. */
  lemma RaisesExactly<Seed>(b: ExponentialBackoff<Seed>, attempts: int, seed: Option<Seed>)
    ensures Delay(b, attempts, seed).None? <==> (b.jitter > 0.0 && seed.None?) || attempts > 1024
  {
  }

  /** The curve doubles until it meets the ceiling, and then stays there. */
  lemma DoublesThenCaps<Seed>(b: ExponentialBackoff<Seed>, attempts: int)
    requires Accepted(b.base, b.max, b.jitter) && attempts >= 1
    ensures BaseDelay(b, attempts + 1) == Least(2.0 * BaseDelay(b, attempts), b.max)
  {
  }
}
