/** Service errors and the bounded retry policy (download.rs).  Durations are real seconds. */
module RetryPolicies {
  datatype ServiceError =
    | DownloadFailed
    | BackendUnavailable
    | PermissionDenied
    | InvalidArgument
    | NotFound
    | AlreadyExists
    | VerificationFailed
    | MetadataError
    | SourceError
    | DowngradeRejected
    | Internal
    | NotSupported
    | Busy
    | Conflict
    | RollbackFailed
    | PackageError

  datatype RetryPolicy = RetryPolicy(
    maxRetries: nat,
    initialBackoff: real,
    maxBackoff: real,
    backoffFactor: real
  ) {
    /** Durations are never negative. */
    ghost predicate WellFormed() {
      initialBackoff >= 0.0 && maxBackoff >= 0.0
    }

    /** `RetryPolicy::validate`. */
    predicate Valid() {
      maxRetries <= 10 && backoffFactor >= 1.0
    }
  }

  function Power(x: real, n: nat): real {
    if n == 0 then 1.0 else x * Power(x, n - 1)
  }

  function DelayForAttempt(p: RetryPolicy, attempt: nat): real {
    if attempt >= p.maxRetries then 0.0
    else
      var delay := Uncapped(p, attempt);
      if delay < p.maxBackoff then delay else p.maxBackoff
  }

  predicate ShouldRetry(p: RetryPolicy, error: ServiceError) {
    p.maxRetries != 0 && (error.DownloadFailed? || error.BackendUnavailable?)
  }

  // ── Delays ─────────────────────────────────────────────────────

  lemma {:induction false} PowerGrows(x: real, m: nat, n: nat)
    requires x >= 1.0 && m <= n
    ensures 1.0 <= Power(x, m) <= Power(x, n)
    decreases n
  {
    if m < n {
      PowerGrows(x, m, n - 1);
      ScaleUp(x, Power(x, n - 1));
    } else if n > 0 {
      PowerGrows(x, n - 1, n - 1);
      ScaleUp(x, Power(x, n - 1));
    }
  }

  lemma ScaleUp(x: real, y: real)
    requires x >= 1.0 && y >= 0.0
    ensures x * y >= y
  {
    assert x * y - y == (x - 1.0) * y;
  }

  lemma ScaleMonotone(k: real, x: real, y: real)
    requires k >= 0.0 && x <= y
    ensures k * x <= k * y
  {
    assert k * y - k * x == k * (y - x);
  }

  /** What `DelayForAttempt` takes the minimum of. */
  function Uncapped(p: RetryPolicy, attempt: nat): real {
    p.initialBackoff * Power(p.backoffFactor, attempt)
  }

  lemma UncappedGrows(p: RetryPolicy, i: nat, j: nat)
    requires p.WellFormed() && p.Valid() && i <= j
    ensures 0.0 <= Uncapped(p, i) <= Uncapped(p, j)
  {
    PowerGrows(p.backoffFactor, i, j);
    ScaleMonotone(p.initialBackoff, 0.0, Power(p.backoffFactor, i));
    ScaleMonotone(p.initialBackoff, Power(p.backoffFactor, i), Power(p.backoffFactor, j));
  }

  /** A retry waits for the minimum of the cap and the grown delay, and never for nothing. */
  lemma DelayIsMinimum(p: RetryPolicy, attempt: nat)
    requires attempt < p.maxRetries
    ensures var delay, grown := DelayForAttempt(p, attempt), p.initialBackoff * Power(p.backoffFactor, attempt);
            delay <= grown && delay <= p.maxBackoff && delay in {grown, p.maxBackoff}
    ensures p.Valid() && p.initialBackoff > 0.0 && p.maxBackoff > 0.0 ==> DelayForAttempt(p, attempt) > 0.0
  {
    if p.Valid() && p.initialBackoff > 0.0 {
      PowerGrows(p.backoffFactor, 0, attempt);
      ScaleMonotone(p.initialBackoff, 1.0, Power(p.backoffFactor, attempt));
    }
  }

  /** Only two kinds of error are transient. */
  lemma RetriedErrors(p: RetryPolicy, error: ServiceError)
    ensures ShouldRetry(p, error) <==> p.maxRetries > 0 && error in {DownloadFailed, BackendUnavailable}
  {
  }

  /** Later retries never wait less, and no retry waits longer than the cap. */
  lemma DelaysGrowToCap(p: RetryPolicy, i: nat, j: nat)
    requires p.WellFormed() && p.Valid() && i <= j < p.maxRetries
    ensures 0.0 <= DelayForAttempt(p, i) <= DelayForAttempt(p, j) <= p.maxBackoff
    ensures DelayForAttempt(p, i) <= Uncapped(p, i)
  {
    UncappedGrows(p, i, j);
  }

  /** The waits before the first `n` retries. */
  ghost function Delays(p: RetryPolicy, n: nat): (delays: seq<real>)
    ensures |delays| == n
  {
    if n == 0 then [] else Delays(p, n - 1) + [DelayForAttempt(p, n - 1)]
  }

  ghost function Sum(s: seq<real>): real {
    if s == [] then 0.0 else Sum(s[..|s| - 1]) + s[|s| - 1]
  }

  ghost function GeometricSum(x: real, n: nat): real {
    if n == 0 then 0.0 else GeometricSum(x, n - 1) + Power(x, n - 1)
  }

  /** The closed form of the geometric sum. */
  lemma {:induction false} GeometricClosedForm(x: real, n: nat)
    ensures (x - 1.0) * GeometricSum(x, n) == Power(x, n) - 1.0
  {
    if n > 0 {
      GeometricClosedForm(x, n - 1);
      Distribute(x - 1.0, GeometricSum(x, n - 1), Power(x, n - 1));
      OneLess(x, Power(x, n - 1));
    }
  }

  lemma OneLess(x: real, w: real)
    ensures (x - 1.0) * w == x * w - w
  {
  }

  lemma SumOfDelays(p: RetryPolicy, n: nat)
    requires n > 0
    ensures Sum(Delays(p, n)) == Sum(Delays(p, n - 1)) + DelayForAttempt(p, n - 1)
  {
    assert Delays(p, n)[..n - 1] == Delays(p, n - 1);
  }

  lemma Distribute(k: real, x: real, y: real)
    ensures k * (x + y) == k * x + k * y
  {
  }

  /** `n` waits of the longest kind. */
  ghost function Repeated(cap: real, n: nat): real {
    if n == 0 then 0.0 else Repeated(cap, n - 1) + cap
  }

  lemma {:induction false} RepeatedIsProduct(cap: real, n: nat)
    ensures Repeated(cap, n) == cap * n as real
  {
    if n > 0 {
      RepeatedIsProduct(cap, n - 1);
      Distribute(cap, (n - 1) as real, 1.0);
    }
  }

  lemma {:induction false} SumBelowRepeated(delays: seq<real>, cap: real)
    requires forall i | 0 <= i < |delays| :: 0.0 <= delays[i] <= cap
    ensures 0.0 <= Sum(delays) <= Repeated(cap, |delays|)
  {
    if delays != [] {
      SumBelowRepeated(delays[..|delays| - 1], cap);
    }
  }

  lemma {:induction false} DelaysWithinCap(p: RetryPolicy, n: nat)
    requires p.WellFormed() && p.Valid() && n <= p.maxRetries
    ensures forall i | 0 <= i < n :: 0.0 <= Delays(p, n)[i] <= p.maxBackoff
  {
    if n > 0 {
      DelaysWithinCap(p, n - 1);
      DelaysGrowToCap(p, n - 1, n - 1);
    }
  }

  lemma TotalBelowRepeated(p: RetryPolicy, n: nat)
    requires p.WellFormed() && p.Valid() && n <= p.maxRetries
    ensures 0.0 <= Sum(Delays(p, n)) <= Repeated(p.maxBackoff, n)
  {
    DelaysWithinCap(p, n);
    SumBelowRepeated(Delays(p, n), p.maxBackoff);
  }

  /** All waits together stay below the number of retries times the cap. */
  lemma TotalWaitCapped(p: RetryPolicy, n: nat)
    requires p.WellFormed() && p.Valid() && n <= p.maxRetries
    ensures 0.0 <= Sum(Delays(p, n)) <= p.maxBackoff * n as real
  {
    TotalBelowRepeated(p, n);
    RepeatedIsProduct(p.maxBackoff, n);
  }

  /** The uncapped delays, summed. */
  ghost function UncappedSum(p: RetryPolicy, n: nat): real {
    if n == 0 then 0.0 else UncappedSum(p, n - 1) + Uncapped(p, n - 1)
  }

  lemma {:induction false} UncappedSumIsGeometric(p: RetryPolicy, n: nat)
    ensures UncappedSum(p, n) == p.initialBackoff * GeometricSum(p.backoffFactor, n)
  {
    if n > 0 {
      UncappedSumIsGeometric(p, n - 1);
      Distribute(p.initialBackoff, GeometricSum(p.backoffFactor, n - 1), Power(p.backoffFactor, n - 1));
    }
  }

  lemma {:induction false} SumBelowUncapped(p: RetryPolicy, n: nat)
    requires n <= p.maxRetries
    ensures Sum(Delays(p, n)) <= UncappedSum(p, n)
  {
    if n > 0 {
      SumBelowUncapped(p, n - 1);
      SumOfDelays(p, n);
    }
  }

  /** All waits together stay below the geometric sum of the uncapped delays. */
  lemma TotalWaitGeometric(p: RetryPolicy, n: nat)
    requires n <= p.maxRetries
    ensures Sum(Delays(p, n)) <= p.initialBackoff * GeometricSum(p.backoffFactor, n)
  {
    SumBelowUncapped(p, n);
    UncappedSumIsGeometric(p, n);
  }

  /**
   Waits that stay within both bounds for the policy's number of retries: the cap times that
   number (`RepeatedIsProduct`) and the geometric sum (`UncappedSumIsGeometric`).
   */
  ghost predicate WaitsBounded(p: RetryPolicy, waits: seq<real>) {
    && 0.0 <= Sum(waits)
    && Sum(waits) <= Repeated(p.maxBackoff, p.maxRetries)
    && Sum(waits) <= UncappedSum(p, p.maxRetries)
  }

  /** However many of the retries are made, the waits stay within the bounds for all of them. */
  lemma DelaysAreBounded(p: RetryPolicy, n: nat)
    requires p.WellFormed() && p.Valid() && n <= p.maxRetries
    ensures WaitsBounded(p, Delays(p, n))
  {
    SumGrows(p, 0, n);
    SumGrows(p, n, p.maxRetries);
    DelaysWithinCap(p, p.maxRetries);
    SumBelowRepeated(Delays(p, p.maxRetries), p.maxBackoff);
    SumBelowUncapped(p, p.maxRetries);
  }

  /** Fewer waits are a prefix, and sum up to less. */
  lemma SumGrows(p: RetryPolicy, m: nat, n: nat)
    requires p.WellFormed() && p.Valid() && m <= n <= p.maxRetries
    ensures Sum(Delays(p, m)) <= Sum(Delays(p, n))
  {
    DelaysWithinCap(p, n);
    DelaysPrefix(p, m, n);
    PrefixSum(Delays(p, n), m);
  }

  lemma {:induction false} DelaysPrefix(p: RetryPolicy, m: nat, n: nat)
    requires m <= n
    ensures Delays(p, n)[..m] == Delays(p, m)
    decreases n
  {
    if m < n {
      DelaysPrefix(p, m, n - 1);
      assert Delays(p, n)[..n - 1] == Delays(p, n - 1);
      assert Delays(p, n)[..m] == Delays(p, n)[..n - 1][..m];
    } else {
      assert Delays(p, n)[..m] == Delays(p, n);
    }
  }

  lemma {:induction false} PrefixSum(waits: seq<real>, m: nat)
    requires m <= |waits| && forall i | 0 <= i < |waits| :: waits[i] >= 0.0
    ensures Sum(waits[..m]) <= Sum(waits)
  {
    if m < |waits| {
      var init := waits[..|waits| - 1];
      PrefixSum(init, m);
      assert waits[..m] == init[..m];
    } else {
      assert waits[..m] == waits;
    }
  }
}
