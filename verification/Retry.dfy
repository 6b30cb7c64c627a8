/** Backoff arithmetic and the retry loop of indexing/src/retry.rs. */
module Retry {
  import opened Basics

  /** `std::time::Duration` in nanoseconds. */
  const DURATION_MAX := U64_MAX * 1_000_000_000 + 999_999_999
  type Duration = x: int | 0 <= x <= DURATION_MAX

  datatype RetryPolicy = RetryPolicy(
    max_attempts: U32,
    initial_backoff: Duration,
    backoff_multiplier: U32,
    max_backoff: Duration)

  datatype AdapterError = AdapterError(retryable: bool, message: string)

  /** What one call of the operation gives. */
  type Attempt<T> = Result<T, AdapterError>

  /** How `with_retry` ends; with `max_attempts` 0 its final `expect` panics. */
  datatype Settled<T> = Returned(result: Attempt<T>) | Panicked

  function Pow(b: nat, e: nat): (r: nat) {
    if e == 0 then 1 else b * Pow(b, e - 1)
  }

  /** `u32::saturating_pow`, multiplying step by step. */
  function SaturatingPow(b: U32, e: nat): (r: U32) {
    if e == 0 then 1
    else
      ProductNonNegative(b, SaturatingPow(b, e - 1));
      Min(b * SaturatingPow(b, e - 1), U32_MAX)
  }

  lemma ProductNonNegative(a: nat, b: nat)
    ensures a * b >= 0
  {
  }

  function SaturatingMul(d: Duration, n: U32): (r: Duration) {
    ProductNonNegative(d, n);
    Min(d * n, DURATION_MAX)
  }

  function BackoffFor(p: RetryPolicy, attempt: U32): (r: Duration) {
    var exp := SaturatingPow(p.backoff_multiplier, if attempt == 0 then 0 else attempt - 1);
    Min(SaturatingMul(p.initial_backoff, exp), p.max_backoff)
  }

  // ---- arithmetic ----

  /** Saturating at every step is the same as saturating the true power once. */
  lemma {:induction false} SaturatingPowIsMin(b: U32, e: nat)
    ensures SaturatingPow(b, e) == Min(Pow(b, e), U32_MAX)
  {
    if e > 0 {
      SaturatingPowIsMin(b, e - 1);
      var exact, capped := Pow(b, e - 1), SaturatingPow(b, e - 1);
      if exact > U32_MAX && b > 0 {
        assert b * capped >= U32_MAX by { MulMonotone(b, 1, U32_MAX); }
        assert b * exact >= U32_MAX by { MulMonotone(b, 1, exact); }
      }
    }
  }

  lemma MulMonotone(a: nat, b: nat, c: nat)
    requires a >= b
    ensures a * c >= b * c && c * a >= c * b
  {
    assert a * c == b * c + (a - b) * c && (a - b) * c >= 0;
    assert c * a == a * c && c * b == b * c;
  }

  /** The delay in closed form, over exact integers. */
  lemma BackoffClosedForm(p: RetryPolicy, attempt: U32)
    ensures var exponent := if attempt == 0 then 0 else attempt - 1;
            BackoffFor(p, attempt)
            == Min(p.initial_backoff * Min(Pow(p.backoff_multiplier, exponent), 4_294_967_295), Min(DURATION_MAX, p.max_backoff))
    ensures DURATION_MAX == 18_446_744_073_709_551_615_999_999_999
  {
    SaturatingPowIsMin(p.backoff_multiplier, if attempt == 0 then 0 else attempt - 1);
  }

  lemma {:induction false} PowGrows(b: nat, e: nat, f: nat)
    requires b >= 1 && e <= f
    ensures 1 <= Pow(b, e) <= Pow(b, f)
    decreases f
  {
    if f == e {
      if e > 0 {
        PowGrows(b, e - 1, e - 1);
        MulMonotone(b, 1, Pow(b, e - 1));
      }
    } else {
      PowGrows(b, e, f - 1);
      MulMonotone(b, 1, Pow(b, f - 1));
    }
  }

  lemma BackoffGrows(p: RetryPolicy, a: U32, b: U32)
    requires p.backoff_multiplier >= 1 && 1 <= a <= b
    ensures BackoffFor(p, a) <= BackoffFor(p, b)
  {
    hide BackoffFor, Pow;
    BackoffClosedForm(p, a);
    BackoffClosedForm(p, b);
    PowGrows(p.backoff_multiplier, a - 1, b - 1);
    MulMonotone(Min(Pow(p.backoff_multiplier, b - 1), U32_MAX), Min(Pow(p.backoff_multiplier, a - 1), U32_MAX), p.initial_backoff);
  }

  /** Once the ceiling is reached it is never left. */
  lemma CeilingIsFinal(p: RetryPolicy, a: U32, b: U32)
    requires p.backoff_multiplier >= 1 && 1 <= a <= b && BackoffFor(p, a) == p.max_backoff
    ensures BackoffFor(p, b) == p.max_backoff
  {
    BackoffGrows(p, a, b);
  }

  ghost predicate NeverShrinks(p: RetryPolicy) {
    forall a: U32, b: U32 :: 1 <= a <= b ==> BackoffFor(p, a) <= BackoffFor(p, b)
  }

  /** A multiplier of 0 is the only way delays can shrink, unless there is no delay at all. */
  lemma NeverShrinksExactly(p: RetryPolicy)
    ensures NeverShrinks(p) <==> p.backoff_multiplier >= 1 || p.initial_backoff == 0 || p.max_backoff == 0
  {
    if p.backoff_multiplier >= 1 {
      forall a: U32, b: U32 | 1 <= a <= b ensures BackoffFor(p, a) <= BackoffFor(p, b) {
        BackoffGrows(p, a, b);
      }
    } else {
      assert Pow(0, 0) == 1 && Pow(0, 1) == 0;
      BackoffClosedForm(p, 1);
      BackoffClosedForm(p, 2);
      forall a: U32 | 1 <= a ensures BackoffFor(p, a) == if a == 1 then Min(p.initial_backoff, p.max_backoff) else 0 {
        BackoffClosedForm(p, a);
      }
      assert BackoffFor(p, 1) == Min(p.initial_backoff, p.max_backoff) && BackoffFor(p, 2) == 0;
    }
  }

  // ---- the loop ----

  predicate Retryable<T>(a: Attempt<T>) {
    a.Err? && a.error.retryable
  }

  /** The attempt after which the loop stops: the first that is not a retryable error, or the last allowed. */
  function StopsAt<T>(op: nat -> Attempt<T>, attempt: nat, max: nat): (k: nat)
    requires attempt <= max
    ensures attempt <= k <= max
    decreases max - attempt
  {
    if attempt == max || !Retryable(op(attempt)) then attempt else StopsAt(op, attempt + 1, max)
  }

  function Settle<T>(p: RetryPolicy, op: nat -> Attempt<T>): (r: Settled<T>) {
    if p.max_attempts == 0 then Panicked else Returned(op(StopsAt(op, 1, p.max_attempts)))
  }

  /** `k` is where the loop stops exactly when everything before it failed retryably and it either did not or was the last. */
  lemma {:induction false} StopsAtMeaning<T>(op: nat -> Attempt<T>, attempt: nat, max: nat, k: nat)
    requires attempt <= max
    ensures k == StopsAt(op, attempt, max) <==>
              && attempt <= k <= max
              && (forall j :: attempt <= j < k ==> Retryable(op(j)))
              && (k == max || !Retryable(op(k)))
    decreases max - attempt
  {
    if attempt < max && Retryable(op(attempt)) {
      StopsAtMeaning(op, attempt + 1, max, k);
    }
  }

  /** The delays before attempts 2 .. n+1. */
  function Backoffs(p: RetryPolicy, n: U32): (r: seq<Duration>)
    ensures |r| == n
  {
    seq(n, i requires 0 <= i < n => BackoffFor(p, i + 1))
  }

  method WithRetry<T>(policy: RetryPolicy, op: nat -> Attempt<T>) returns (settled: Settled<T>, calls: nat, sleeps: seq<Duration>)
    ensures settled == Settle(policy, op)
    ensures calls == if policy.max_attempts == 0 then 0 else StopsAt(op, 1, policy.max_attempts)
    ensures sleeps == Backoffs(policy, if calls == 0 then 0 else calls - 1)
  {
    var lastErr: Option<AdapterError> := None;
    calls, sleeps := 0, [];
    for attempt := 1 to policy.max_attempts + 1
      invariant calls == attempt - 1
      invariant forall j :: 1 <= j < attempt ==> Retryable(op(j))
      invariant attempt == 1 ==> lastErr.None?
      invariant attempt > 1 ==> lastErr.Some? && op(attempt - 1) == Err(lastErr.value)
      invariant sleeps == Backoffs(policy, Min(attempt - 1, if policy.max_attempts == 0 then 0 else policy.max_attempts - 1))
    {
      var outcome := op(attempt);
      calls := calls + 1;
      StopsAtMeaning(op, 1, policy.max_attempts, attempt);
      if outcome.Ok? || !outcome.error.retryable {
        return Returned(outcome), calls, sleeps;
      }
      lastErr := Some(outcome.error);
      if attempt < policy.max_attempts {
        sleeps := sleeps + [BackoffFor(policy, attempt)];
      }
    }
    if lastErr.None? {
      return Panicked, calls, sleeps;
    }
    StopsAtMeaning(op, 1, policy.max_attempts, policy.max_attempts);
    settled := Returned(Err(lastErr.value));
  }

  /** Attempt `k` is allowed, gives this value, and everything before it failed in a way worth retrying. */
  ghost predicate Succeeds<T(!new)>(p: RetryPolicy, op: nat -> Attempt<T>, k: nat, v: T) {
    1 <= k <= p.max_attempts && op(k) == Ok(v) && forall j :: 1 <= j < k ==> op(j).Err? && op(j).error.retryable
  }

  /** Attempt `k` fails like this and is the last: either the last allowed, or not worth retrying. */
  ghost predicate Fails<T(!new)>(p: RetryPolicy, op: nat -> Attempt<T>, k: nat, e: AdapterError) {
    && 1 <= k <= p.max_attempts && op(k) == Err(e) && (k == p.max_attempts || !e.retryable)
    && forall j :: 1 <= j < k ==> op(j).Err? && op(j).error.retryable
  }

  lemma SettledBy<T>(p: RetryPolicy, op: nat -> Attempt<T>, k: nat)
    requires 1 <= k <= p.max_attempts && (k == p.max_attempts || !Retryable(op(k)))
    requires forall j :: 1 <= j < k ==> Retryable(op(j))
    ensures Settle(p, op) == Returned(op(k))
  {
    StopsAtMeaning(op, 1, p.max_attempts, k);
    hide StopsAt;
  }

  /** How the loop ends, attempt by attempt. */
  lemma SettlesExactly<T(!new)>(p: RetryPolicy, op: nat -> Attempt<T>)
    ensures forall v :: Settle(p, op) == Returned(Ok(v)) <==> exists k: nat :: Succeeds(p, op, k, v)
    ensures forall e :: Settle(p, op) == Returned(Err(e)) <==> exists k: nat :: Fails(p, op, k, e)
    ensures Settle(p, op).Panicked? <==> p.max_attempts == 0
  {
    if p.max_attempts > 0 {
      var k := StopsAt(op, 1, p.max_attempts);
      StopsAtMeaning(op, 1, p.max_attempts, k);
      hide StopsAt;
      forall v | op(k) == Ok(v) ensures Succeeds(p, op, k, v) {
      }
      forall e | op(k) == Err(e) ensures Fails(p, op, k, e) {
      }
    }
    hide Settle, StopsAt;
    forall v, k: nat | Succeeds(p, op, k, v) ensures Settle(p, op) == Returned(Ok(v)) {
      SettledBy(p, op, k);
    }
    forall e, k: nat | Fails(p, op, k, e) ensures Settle(p, op) == Returned(Err(e)) {
      SettledBy(p, op, k);
    }
  }

  /** The sleep before attempt `i + 2`, in closed form over exact integers. */
  lemma SleptExactly(p: RetryPolicy, n: U32, i: nat)
    requires i < n
    ensures Backoffs(p, n)[i]
         == Min(p.initial_backoff * Min(Pow(p.backoff_multiplier, i), U32_MAX), Min(DURATION_MAX, p.max_backoff))
  {
    BackoffClosedForm(p, i + 1);
  }

  // ---- how long it can sleep in all ----

  function Total(p: RetryPolicy, n: U32): (r: nat) {
    if n == 0 then 0 else Total(p, n - 1) + BackoffFor(p, n)
  }

  /** `Total` is the sum of the delays. */
  function Sum(s: seq<Duration>): (r: nat) {
    if s == [] then 0 else Sum(s[..|s| - 1]) + s[|s| - 1]
  }

  lemma {:induction false} TotalIsSum(p: RetryPolicy, n: U32)
    ensures Sum(Backoffs(p, n)) == Total(p, n)
  {
    if n > 0 {
      TotalIsSum(p, n - 1);
      assert Backoffs(p, n)[..n - 1] == Backoffs(p, n - 1);
    }
  }

  lemma {:induction false} TotalUnderCeiling(p: RetryPolicy, n: U32)
    ensures Total(p, n) <= n * p.max_backoff
  {
    if n > 0 {
      var b, t := BackoffFor(p, n), Total(p, n - 1);
      assert b <= p.max_backoff && Total(p, n) == t + b;
      TotalUnderCeiling(p, n - 1);
      hide BackoffFor, Total;
      OneMore(t, b, n - 1, p.max_backoff);
    }
  }

  lemma OneMore(t: nat, b: nat, k: nat, most: nat)
    requires t <= k * most && b <= most
    ensures t + b <= (k + 1) * most
  {
    assert (k + 1) * most == k * most + most;
  }

  lemma {:induction false} TotalUnderGeometric(p: RetryPolicy, n: U32)
    requires p.backoff_multiplier > 1
    ensures Total(p, n) * (p.backoff_multiplier - 1) <= p.initial_backoff * (Pow(p.backoff_multiplier, n) - 1)
  {
    if n > 0 {
      var m, d, q := p.backoff_multiplier, p.initial_backoff, Pow(p.backoff_multiplier, n - 1);
      TotalUnderGeometric(p, n - 1);
      BackoffClosedForm(p, n);
      MulMonotone(q, Min(q, U32_MAX), d);
      var b := BackoffFor(p, n);
      assert b <= d * q;
      GeometricStep(Total(p, n - 1), b, d, q, m);
    }
  }

  lemma GeometricStep(t: nat, b: nat, d: nat, q: nat, m: nat)
    requires m > 1 && t * (m - 1) <= d * (q - 1) && b <= d * q
    ensures (t + b) * (m - 1) <= d * (m * q - 1)
  {
    MulMonotone(d * q, b, m - 1);
    assert (t + b) * (m - 1) == t * (m - 1) + b * (m - 1);
    assert d * (q - 1) + d * q * (m - 1) == d * (m * q - 1) by {
      assert d * q * (m - 1) == d * (q * m) - d * q;
      assert d * (m * q - 1) == d * (m * q) - d;
      assert d * (q - 1) == d * q - d;
    }
  }

  /** Over every outcome trace: the total sleep is under the ceiling bound and, when delays multiply, under the geometric one. */
  lemma SleepIsBounded<T>(p: RetryPolicy, op: nat -> Attempt<T>)
    requires p.max_attempts >= 1
    ensures var k := StopsAt(op, 1, p.max_attempts);
            && Sum(Backoffs(p, k - 1)) <= (p.max_attempts - 1) * p.max_backoff
            && (p.backoff_multiplier > 1 ==>
                  Sum(Backoffs(p, k - 1)) * (p.backoff_multiplier - 1) <= p.initial_backoff * (Pow(p.backoff_multiplier, k - 1) - 1))
  {
    var k := StopsAt(op, 1, p.max_attempts);
    TotalIsSum(p, k - 1);
    TotalUnderCeiling(p, k - 1);
    MulMonotone(p.max_attempts - 1, k - 1, p.max_backoff);
    if p.backoff_multiplier > 1 {
      TotalUnderGeometric(p, k - 1);
    }
  }
}
