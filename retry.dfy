/** The bounded retry helper with doubling back-off (`retry` in watcher.go).
    The sleeps are returned instead of performed, and the operation `f` is
    given by what each of its calls returns: `f(n)` is the outcome of the n-th
    call. */
module Retry {
  import opened Records

  /** What one call of the retried operation returns: nil, an ordinary error,
      or a `stop`, which must not be retried. A `stop` is itself a non-nil
      error, but the error it wraps may be nil (`stop{}`), hence the Option. */
  datatype Outcome<E> = Done | Failed(err: E) | Stopped(inner: Option<E>)

  /** What one run of retry did: the error it returned (None for nil), the
      waits it performed, in order, and how many times it called `f`. */
  datatype Run<E> = Run(result: Option<E>, sleeps: seq<int>, calls: nat)

  const MinInt: int := -0x8000_0000_0000_0000
  const MaxInt: int := 0x7fff_ffff_ffff_ffff

  /** Go's 64-bit `int`. */
  newtype Int64 = x: int | MinInt <= x <= MaxInt

  /** `attempts--`: decrement with two's-complement wrap-around, so the
      smallest int becomes the largest. */
  function Dec(a: Int64): (r: Int64)
    ensures a as int == MinInt ==> r as int == MaxInt
    ensures a as int != MinInt ==> r as int == a as int - 1
  {
    if a as int == MinInt then MaxInt as Int64 else a - 1
  }

  /** How many calls of `f` retry may make: max(attempts, 1), except at the
      smallest int, where the wrapped decrement grants MaxInt more. */
  function Allowed(a: Int64): (r: int) {
    if a as int == MinInt then MaxInt + 1
    else if a > 1 then a as int
    else 1
  }

  /** retry(attempts, sleep, f), where `n` numbers the next call of `f`. */
  function Retry<E>(attempts: Int64, sleep: int, f: nat -> Outcome<E>, n: nat): (r: Run<E>)
    decreases Allowed(attempts)
  {
    match f(n)
    case Done => Run(None, [], 1)
    case Stopped(e) => Run(e, [], 1)
    case Failed(e) =>
      // attempts--; attempts > 0
      var left := Dec(attempts);
      if left > 0 then
        var rest := Retry(left, 2 * sleep, f, n + 1);
        Run(rest.result, [sleep] + rest.sleeps, rest.calls + 1)
      else
        Run(Some(e), [], 1)
  }

  function Pow2(k: nat): (r: nat) {
    if k == 0 then 1 else 2 * Pow2(k - 1)
  }

  /** retry calls `f` at least once and at most `Allowed(attempts)` times
      (max(attempts, 1), or MaxInt + 1 at the smallest int), sleeps
      once between two consecutive calls, and every call but the last failed
      with an ordinary (retryable) error.
      `f` is called with n, n + 1, ... in turn. */
  lemma {:induction false} RetryCalls<E>(attempts: Int64, sleep: int, f: nat -> Outcome<E>, n: nat)
    ensures var r := Retry(attempts, sleep, f, n);
      && 1 <= r.calls <= Allowed(attempts)
      && |r.sleeps| == r.calls - 1
      && forall k :: n <= k < n + r.calls - 1 ==> f(k).Failed?
    decreases Allowed(attempts)
  {
    if f(n).Failed? && Dec(attempts) > 0 {
      RetryCalls(Dec(attempts), 2 * sleep, f, n + 1);
    }
  }

  /** What retry returns is decided by its last call: the wrapped error when
      it was stopped (nil for a `stop` around nil), and its error when it
      failed, which happens only once all attempts are used up. So the result
      is nil exactly when the last call succeeded or was a `stop` around nil.
      A call that succeeds or is stopped is never followed by another. */
  lemma {:induction false} RetryResult<E>(attempts: Int64, sleep: int, f: nat -> Outcome<E>, n: nat)
    ensures var r := Retry(attempts, sleep, f, n);
      var last := f(n + r.calls - 1);
      && r.calls >= 1
      && (r.result.None? <==> last.Done? || (last.Stopped? && last.inner.None?))
      && (last.Stopped? ==> r.result == last.inner)
      && (last.Failed? ==> r.result == Some(last.err) && r.calls == Allowed(attempts))
    decreases Allowed(attempts)
  {
    var r := Retry(attempts, sleep, f, n);
    if f(n).Failed? && Dec(attempts) > 0 {
      RetryResult(Dec(attempts), 2 * sleep, f, n + 1);
      var rest := Retry(Dec(attempts), 2 * sleep, f, n + 1);
      assert r == Run(rest.result, [sleep] + rest.sleeps, rest.calls + 1);
      assert n + r.calls - 1 == (n + 1) + rest.calls - 1;
      AllowedStep(attempts);
    } else if f(n).Failed? {
      assert r.calls == 1;
      AllowedStep(attempts);
    } else {
      assert r.calls == 1;
    }
  }

  /** With `attempts` at the smallest int and an operation that always fails,
      the wrapped decrement makes retry call it MaxInt + 1 times. */
  lemma WrappedAttemptsKeepRetrying<E>(sleep: int, f: nat -> Outcome<E>)
    requires forall k :: f(k).Failed?
    ensures Retry(MinInt as Int64, sleep, f, 0).calls == MaxInt + 1
  {
    RetryResult(MinInt as Int64, sleep, f, 0);
  }

  /** One failed call uses up one allowed call. */
  lemma AllowedStep(a: Int64)
    ensures Dec(a) > 0 ==> Allowed(Dec(a)) + 1 == Allowed(a)
    ensures Dec(a) <= 0 ==> Allowed(a) == 1
  {
  }

  /** The waits double: sleep, 2*sleep, 4*sleep, ... */
  lemma {:induction false} RetrySleeps<E>(attempts: Int64, sleep: int, f: nat -> Outcome<E>, n: nat)
    ensures var r := Retry(attempts, sleep, f, n);
      forall i :: 0 <= i < |r.sleeps| ==> r.sleeps[i] == sleep * Pow2(i)
    decreases Allowed(attempts)
  {
    if f(n).Failed? && Dec(attempts) > 0 {
      RetrySleeps(Dec(attempts), 2 * sleep, f, n + 1);
      var rest := Retry(Dec(attempts), 2 * sleep, f, n + 1);
      var r := Retry(attempts, sleep, f, n);
      forall i | 0 < i < |r.sleeps|
        ensures r.sleeps[i] == sleep * Pow2(i)
      {
        assert r.sleeps[i] == rest.sleeps[i - 1] == (2 * sleep) * Pow2(i - 1);
        assert (2 * sleep) * Pow2(i - 1) == sleep * (2 * Pow2(i - 1));
      }
    }
  }
}
