/** The `aiohttp_session` decorator's retry counter: every application of the
    decorator holds one `attempts` counter that all invocations of the
    decorated coroutine share; a timeout is retried while the counter is
    positive, decrementing it, and re-raised once it is not. */
module Retry {
  import opened Common

  /** What one call of the decorated coroutine ends in. */
  datatype Outcome<T> = Timeout | Failure(error: PyError) | Done(value: T)

  /** The outcome of an invocation and the counter and call count after it. */
  datatype Step<T> = Step(outcome: Outcome<T>, attempts: int, calls: nat)

  /** The decorator's default `attempts`. */
  const DefaultAttempts: int := 5

  /** One invocation of `inner`, from counter `attempts`, when `calls` calls
      of the coroutine have been made so far and call number `k` ends in
      `callee(k)`. */
  function Run<T>(callee: nat -> Outcome<T>, attempts: int, calls: nat): Step<T>
    decreases if attempts > 0 then attempts else 0
  {
    var o := callee(calls);
    if o.Timeout? && attempts > 0 then Run(callee, attempts - 1, calls + 1)
    else Step(o, attempts, calls + 1)
  }

  /** The coroutine produced by one application of the decorator. */
  class Decorated<T> {
    /** The outcome of each successive call of the wrapped coroutine. */
    const callee: nat -> Outcome<T>
    /** The `nonlocal attempts` counter. */
    var attempts: int
    /** How many times the wrapped coroutine has been called. */
    var calls: nat

    constructor (callee: nat -> Outcome<T>, attempts: int)
      ensures this.callee == callee && this.attempts == attempts && calls == 0
    {
      this.callee := callee;
      this.attempts := attempts;
      calls := 0;
    }

    /** `inner(self, *args)`: call the coroutine; on a timeout retry by
        recursion while the counter is positive, else re-raise; any other
        outcome is returned as it is. */
    method Invoke() returns (r: Outcome<T>)
      modifies this
      ensures Step(r, attempts, calls) == Run(callee, old(attempts), old(calls))
      decreases if attempts > 0 then attempts else 0
    {
      var o := callee(calls);
      calls := calls + 1;
      if o.Timeout? {
        if attempts > 0 {
          attempts := attempts - 1;
          r := Invoke();
          return;
        }
        return Timeout;
      }
      r := o;
    }
  }

  /** The counter never increases and, from a non-negative start, never goes
      below zero; each retry costs exactly one unit of it, and a negative
      counter allows no retry at all. */
  lemma {:induction false} RunCounter<T>(callee: nat -> Outcome<T>, attempts: int, calls: nat)
    ensures Run(callee, attempts, calls).attempts <= attempts
    ensures attempts >= 0 ==> Run(callee, attempts, calls).attempts >= 0
    ensures attempts >= 0 ==>
      Run(callee, attempts, calls).calls - calls - 1 == attempts - Run(callee, attempts, calls).attempts
    ensures attempts < 0 ==>
      Run(callee, attempts, calls).attempts == attempts && Run(callee, attempts, calls).calls == calls + 1
    decreases if attempts > 0 then attempts else 0
  {
    if callee(calls).Timeout? && attempts > 0 {
      RunCounter(callee, attempts - 1, calls + 1);
    }
  }

  /** Every call but the last timed out, and the invocation ends in the last
      call's outcome. */
  lemma {:induction false} RunOutcome<T>(callee: nat -> Outcome<T>, attempts: int, calls: nat)
    ensures Run(callee, attempts, calls).calls > calls
    ensures forall k :: calls <= k < Run(callee, attempts, calls).calls - 1 ==> callee(k).Timeout?
    ensures Run(callee, attempts, calls).outcome == callee(Run(callee, attempts, calls).calls - 1)
    decreases if attempts > 0 then attempts else 0
  {
    if callee(calls).Timeout? && attempts > 0 {
      RunOutcome(callee, attempts - 1, calls + 1);
    }
  }

  /** A timeout reaches the caller only once the counter is used up. */
  lemma {:induction false} TimeoutReraised<T>(callee: nat -> Outcome<T>, attempts: int, calls: nat)
    ensures Run(callee, attempts, calls).outcome.Timeout? ==> Run(callee, attempts, calls).attempts <= 0
    ensures Run(callee, attempts, calls).outcome.Timeout? && attempts >= 0 ==>
      Run(callee, attempts, calls).attempts == 0
    decreases if attempts > 0 then attempts else 0
  {
    RunCounter(callee, attempts, calls);
    if callee(calls).Timeout? && attempts > 0 {
      TimeoutReraised(callee, attempts - 1, calls + 1);
    }
  }

  /** Any other outcome of the first call, a non-timeout exception included,
      is returned at once: no retry, and the counter is untouched. */
  lemma NotRetried<T>(callee: nat -> Outcome<T>, attempts: int, calls: nat)
    requires !callee(calls).Timeout?
    ensures Run(callee, attempts, calls) == Step(callee(calls), attempts, calls + 1)
  {
  }

  /** `n` invocations in a row, sharing the counter. */
  function Runs<T>(callee: nat -> Outcome<T>, attempts: int, calls: nat, n: nat): (r: (int, nat))
    decreases n
  {
    if n == 0 then (attempts, calls)
    else
      var s := Run(callee, attempts, calls);
      Runs(callee, s.attempts, s.calls, n - 1)
  }

  /** The counter is shared and never reset: across any number of invocations
      no more than the initial `attempts` retries happen in total. */
  lemma {:induction false} RetriesBounded<T>(callee: nat -> Outcome<T>, attempts: int, calls: nat, n: nat)
    requires attempts >= 0
    ensures Runs(callee, attempts, calls, n).0 >= 0
    ensures Runs(callee, attempts, calls, n).1 - calls - n == attempts - Runs(callee, attempts, calls, n).0
    ensures Runs(callee, attempts, calls, n).1 <= calls + n + attempts
    decreases n
  {
    if n > 0 {
      var s := Run(callee, attempts, calls);
      RunCounter(callee, attempts, calls);
      RetriesBounded(callee, s.attempts, s.calls, n - 1);
    }
  }

  /** A coroutine that always times out, under the default counter: the first
      invocation makes six calls and re-raises, and every later one is not
      retried at all, so `n` invocations make `n + 5` calls. */
  lemma AlwaysTimingOut(callee: nat -> Outcome<int>)
    requires forall k :: callee(k) == Timeout
    ensures Run(callee, DefaultAttempts, 0) == Step(Timeout, 0, 6)
    ensures forall c: nat :: Run(callee, 0, c) == Step(Timeout, 0, c + 1)
    ensures forall n: nat :: n >= 1 ==> Runs(callee, DefaultAttempts, 0, n) == (0, n + 5)
  {
    assert Run(callee, 0, 5) == Step(Timeout, 0, 6);
    assert Run(callee, 1, 4) == Step(Timeout, 0, 6);
    assert Run(callee, 2, 3) == Step(Timeout, 0, 6);
    assert Run(callee, 3, 2) == Step(Timeout, 0, 6);
    assert Run(callee, 4, 1) == Step(Timeout, 0, 6);
    forall n: nat | n >= 1
      ensures Runs(callee, DefaultAttempts, 0, n) == (0, n + 5)
    {
      Exhausted(callee, 6, n - 1);
    }
  }

  /** Once the counter is used up, a coroutine that always times out is called
      once per invocation. */
  lemma {:induction false} Exhausted(callee: nat -> Outcome<int>, calls: nat, n: nat)
    requires forall k :: callee(k) == Timeout
    ensures Runs(callee, 0, calls, n) == (0, calls + n)
    decreases n
  {
    if n > 0 {
      assert Run(callee, 0, calls) == Step(Timeout, 0, calls + 1);
      Exhausted(callee, calls + 1, n - 1);
    }
  }
}
