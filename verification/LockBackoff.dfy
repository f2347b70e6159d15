/**
 The retry loop of `acquire`: SET attempts separated by sleeps of an exponentially growing base
 delay plus jitter, until one succeeds or the deadline has passed.  What Redis answers, the clock
 readings and the jitter are inputs, indexed by attempt.
 */
module LockBackoff {

  const INITIAL_DELAY := 0.02
  const MAX_DELAY := 0.20

  function Min(a: real, b: real): real {
    if a <= b then a else b
  }

  /** The base delay before the n-th sleep. */
  function Delay(n: nat): real {
    if n == 0 then INITIAL_DELAY else Min(Delay(n - 1) * 1.5, MAX_DELAY)
  }

  lemma {:induction false} DelayBounds(n: nat)
    ensures INITIAL_DELAY <= Delay(n) <= MAX_DELAY
    ensures n > 0 ==> Delay(n - 1) <= Delay(n)
    ensures n >= 6 ==> Delay(n) == MAX_DELAY
  {
    if n > 0 { DelayBounds(n - 1); }
    if n == 6 {
      assert Delay(1) == 0.03 && Delay(2) == 0.045 && Delay(3) == 0.0675;
    }
  }

  /** 20 ms, growing by half each time until 200 ms are reached. */
  lemma DelayValues()
    ensures Delay(0) == 0.02 && Delay(1) == 0.03 && Delay(2) == 0.045 && Delay(3) == 0.0675
    ensures Delay(4) == 0.10125 && Delay(5) == 0.151875
  {
    assert Delay(2) == 0.045;
    assert Delay(4) == 0.10125;
  }

  /** The n-th sleep, given the clock reading and jitter drawn just before it. */
  function SleepFor(n: nat, clock: real, jitter: real, deadline: real): real {
    Min(Delay(n) + jitter, deadline - clock)
  }

  /** Clock readings that never run ahead of the sleeps between them. */
  ghost predicate ClockAdvances(clock: nat -> real, jitter: nat -> real, start: real, deadline: real) {
    && clock(0) >= start
    && (forall n :: 0.005 <= jitter(n) <= 0.025)
    && (forall n: nat :: clock(n) < deadline ==> clock(n + 1) >= clock(n) + SleepFor(n, clock(n), jitter(n), deadline))
  }

  function Ceiling(x: real): int {
    -((-x).Floor)
  }

  /** After n sleeps that all began before the deadline, n - 1 of them took at least 25 ms. */
  lemma {:induction false} SleepsAddUp(clock: nat -> real, jitter: nat -> real, start: real, deadline: real, n: nat)
    requires ClockAdvances(clock, jitter, start, deadline)
    requires forall m: nat :: m <= n ==> clock(m) < deadline
    ensures clock(n) >= start + n as real * 0.025
  {
    if n > 0 {
      SleepsAddUp(clock, jitter, start, deadline, n - 1);
      DelayBounds(n - 1);
      assert clock(n - 1) < deadline && clock(n - 1 + 1) < deadline;
    }
  }

  method Acquire(timeout: real, start: real, setSucceeds: nat -> bool, clock: nat -> real, jitter: nat -> real)
    returns (acquired: bool, attempts: nat)
    requires ClockAdvances(clock, jitter, start, start + timeout)
    ensures attempts >= 1 && forall n: nat :: n < attempts - 1 ==> !setSucceeds(n)
    ensures acquired == setSucceeds(attempts - 1)
    ensures !acquired ==> clock(attempts - 1) >= start + timeout
    ensures timeout >= 0.0 ==> attempts <= Ceiling(timeout / 0.025) + 1
    ensures timeout <= 0.0 ==> attempts == 1
  {
    var deadline := start + timeout;
    var retryDelay := INITIAL_DELAY;
    attempts := 0;
    while true
      invariant retryDelay == Delay(attempts)
      invariant forall n: nat :: n < attempts ==> !setSucceeds(n) && clock(n) < deadline
      invariant attempts > 0 ==> timeout > 0.0 && (attempts - 1) as real * 0.025 < timeout
      decreases Ceiling(timeout / 0.025) + 1 - attempts
    {
      AttemptsBound(timeout, attempts);
      attempts := attempts + 1;
      if setSucceeds(attempts - 1) {
        return true, attempts;
      }
      var remaining := deadline - clock(attempts - 1);
      if remaining <= 0.0 {
        return false, attempts;
      }
      SleepsAddUp(clock, jitter, start, deadline, attempts - 1);
      retryDelay := Min(retryDelay * 1.5, MAX_DELAY);
    }
  }

  lemma AttemptsBound(timeout: real, attempts: nat)
    requires attempts > 0 ==> timeout > 0.0 && (attempts - 1) as real * 0.025 < timeout
    ensures timeout >= 0.0 ==> attempts < Ceiling(timeout / 0.025) + 1
  {}
}
