/**
 * `GreetingRepositoryPollyDecorator` and the policy it wraps every call in:
 * retry (3 retries, waiting 200 ms times the retry number) around an
 * optimistic 2 s timeout around a consecutive-count circuit breaker (opens
 * for 10 s after 2 failures in a row). Time is an abstract millisecond clock;
 * calls into the inner repository take no time, and the timeout never fires
 * because the delegates ignore cancellation.
 */
module Resilience {
  import opened Wrappers
  import opened Domain

  const RetryCount: nat := 3
  const FailuresBeforeBreaking: nat := 2
  const BreakMs: int := 10_000

  /** The wait before retry number `retry` (1-based). */
  function Backoff(retry: nat): int {
    200 * retry
  }

  /** The breaker: closed with a count of consecutive failures, open until a
      time, or half-open after that time, letting one trial call through. */
  datatype Breaker = Closed(failures: nat) | Open(blockedTill: int) | HalfOpen(blockedTill: int)

  /** The check before a call: whether it may reach the inner repository, and
      the breaker afterwards. An open breaker whose time has passed becomes
      half-open and lets this call through, blocking others for another break. */
  function Admit(b: Breaker, now: int): (bool, Breaker) {
    match b
    case Closed(_) => (true, b)
    case Open(till) => if now < till then (false, b) else (true, HalfOpen(now + BreakMs))
    case HalfOpen(till) => if now < till then (false, b) else (true, HalfOpen(now + BreakMs))
  }

  /** A success closes a half-open breaker and resets the count of a closed one. */
  function OnSuccess(b: Breaker): Breaker {
    match b
    case Closed(_) => Closed(0)
    case HalfOpen(_) => Closed(0)
    case Open(_) => b
  }

  /** A failure counts against a closed breaker and opens it at the threshold;
      a failed trial re-opens a half-open one. */
  function OnFailure(b: Breaker, now: int): Breaker {
    match b
    case Closed(f) => if f + 1 >= FailuresBeforeBreaking then Open(now + BreakMs) else Closed(f + 1)
    case HalfOpen(_) => Open(now + BreakMs)
    case Open(_) => b
  }

  /** What one call through the policy did: its result, the breaker after it,
      how many times it reached the inner repository, how many retries it
      made, and the time it finished. */
  datatype Execution<T> = Execution(result: Result<T, Error>, breaker: Breaker, invocations: nat, retries: nat, finishedAt: int)

  /** The waits of `retries` retries, in order. */
  function Waits(retries: nat): (w: seq<int>)
    ensures |w| == retries
    ensures forall i :: 0 <= i < retries ==> w[i] == Backoff(i + 1)
  {
    if retries == 0 then [] else Waits(retries - 1) + [Backoff(retries)]
  }

  /** One attempt at time `now`: the breaker is consulted, and only an
      admitted attempt reaches the inner repository, as its `invoked`-th
      invocation; the breaker then records the outcome. */
  datatype Attempt<T> = Attempt(outcome: Result<T, Error>, breaker: Breaker, invoked: nat)

  function TryOnce<T>(b: Breaker, now: int, inner: nat -> Result<T, Error>, invoked: nat): Attempt<T> {
    var (admitted, b1) := Admit(b, now);
    if !admitted then Attempt(Err(BrokenCircuit), b1, invoked)
    else
      var outcome := inner(invoked);
      Attempt(outcome, if outcome.Ok? then OnSuccess(b1) else OnFailure(b1, now), invoked + 1)
  }

  /** The policy from retry number `retries` on, at time `now`, with the
      breaker `b`. `inner(k)` is what the inner repository answers on its
      `k`-th invocation within this call; `invoked` invocations have happened. */
  function Run<T>(b: Breaker, now: int, inner: nat -> Result<T, Error>, retries: nat, invoked: nat): Execution<T>
    requires retries <= RetryCount
    decreases RetryCount - retries
  {
    var a := TryOnce(b, now, inner, invoked);
    if a.outcome.Ok? || retries == RetryCount then Execution(a.outcome, a.breaker, a.invoked, retries, now)
    else Run(a.breaker, now + Backoff(retries + 1), inner, retries + 1, a.invoked)
  }

  /** A whole call: from the first attempt, nothing invoked yet. */
  function Call<T>(b: Breaker, now: int, inner: nat -> Result<T, Error>): Execution<T> {
    Run(b, now, inner, 0, 0)
  }

  /** The policy object, shared by every operation of one decorator. */
  class ResiliencePolicy {
    var breaker: Breaker

    constructor ()
      ensures breaker == Closed(0)
    {
      breaker := Closed(0);
    }

    /** `ExecuteAsync`: attempts the call, waiting and retrying on any failure
        (a rejection by the breaker included) until it succeeds or the retries
        are spent; the last failure is rethrown as it is. */
    method Execute<T>(inner: nat -> Result<T, Error>, start: int) returns (r: Result<T, Error>, invocations: nat, waits: seq<int>)
      modifies this
      ensures r == Call(old(breaker), start, inner).result
      ensures breaker == Call(old(breaker), start, inner).breaker
      ensures invocations == Call(old(breaker), start, inner).invocations
      ensures waits == Waits(Call(old(breaker), start, inner).retries)
    {
      var after, finishedAt;
      r, after, invocations, waits, finishedAt := Retry(breaker, inner, start);
      breaker := after;
    }
  }

  /** The retry loop of `ExecuteAsync` over the breaker `b`: it returns the
      outcome of the last attempt, the breaker, the number of invocations, the
      waits made and the time of the last attempt. */
  method Retry<T>(b: Breaker, inner: nat -> Result<T, Error>, start: int)
    returns (r: Result<T, Error>, after: Breaker, invocations: nat, waits: seq<int>, finishedAt: int)
    ensures var e := Call(b, start, inner);
      r == e.result && after == e.breaker && invocations == e.invocations
      && waits == Waits(e.retries) && finishedAt == e.finishedAt
  {
    after := b;
    var retries := 0;
    finishedAt := start;
    invocations := 0;
    waits := [];
    while true
      invariant retries <= RetryCount && waits == Waits(retries)
      invariant Call(b, start, inner) == Run(after, finishedAt, inner, retries, invocations)
      decreases RetryCount - retries
    {
      var a := TryOnce(after, finishedAt, inner, invocations);
      if a.outcome.Ok? || retries == RetryCount {
        return a.outcome, a.breaker, a.invoked, waits, finishedAt;
      }
      retries := retries + 1;
      after, invocations, waits, finishedAt := a.breaker, a.invoked, waits + [Backoff(retries)], finishedAt + Backoff(retries);
    }
  }

  // ---------------------------------------------------------------------------
  // What the policy promises

  /** One call reaches the inner repository at most once per attempt, there
      is one attempt more than there are retries, and there are at most 3
      retries. */
  lemma {:induction false} RunBounds<T>(b: Breaker, now: int, inner: nat -> Result<T, Error>, retries: nat, invoked: nat)
    requires retries <= RetryCount
    ensures var e := Run(b, now, inner, retries, invoked);
      retries <= e.retries <= RetryCount
      && invoked <= e.invocations <= invoked + (e.retries - retries) + 1
    decreases RetryCount - retries
  {
    var a := TryOnce(b, now, inner, invoked);
    if !(a.outcome.Ok? || retries == RetryCount) {
      RunBounds(a.breaker, now + Backoff(retries + 1), inner, retries + 1, a.invoked);
    }
  }

  /** At most 1 + 3 invocations, and the waits are a prefix of 200, 400, 600 ms. */
  lemma CallBounds<T>(b: Breaker, now: int, inner: nat -> Result<T, Error>)
    ensures Call(b, now, inner).invocations <= 1 + RetryCount
    ensures Waits(Call(b, now, inner).retries) <= [200, 400, 600]
  {
    RunBounds(b, now, inner, 0, 0);
  }

  /** A call the breaker admits and the inner repository answers at once is
      passed through unchanged after one invocation, and leaves the breaker
      closed with no failures counted. */
  lemma FirstSuccessPassesThrough<T>(b: Breaker, now: int, inner: nat -> Result<T, Error>)
    requires Admit(b, now).0 && inner(0).Ok?
    ensures Call(b, now, inner) == Execution(inner(0), Closed(0), 1, 0, now)
  {
  }

  /** A successful call always leaves the breaker closed with a zero count. */
  lemma {:induction false} SuccessClosesBreaker<T>(b: Breaker, now: int, inner: nat -> Result<T, Error>, retries: nat, invoked: nat)
    requires retries <= RetryCount
    ensures Run(b, now, inner, retries, invoked).result.Ok? ==> Run(b, now, inner, retries, invoked).breaker == Closed(0)
    decreases RetryCount - retries
  {
    var a := TryOnce(b, now, inner, invoked);
    if !(a.outcome.Ok? || retries == RetryCount) {
      SuccessClosesBreaker(a.breaker, now + Backoff(retries + 1), inner, retries + 1, a.invoked);
    } else if a.outcome.Ok? {
      assert Admit(b, now).1.Closed? || Admit(b, now).1.HalfOpen?;
    }
  }

  /** While the breaker stays open for the whole call, every attempt is
      rejected: the inner repository is never reached, the breaker is left as
      it was, and the call fails with `BrokenCircuitException` after all 3
      retries. */
  lemma OpenBreakerRejects<T>(till: int, now: int, inner: nat -> Result<T, Error>)
    requires now + Backoff(1) + Backoff(2) + Backoff(3) < till
    ensures Call(Open(till), now, inner) == Execution(Err(BrokenCircuit), Open(till), 0, 3, now + 1200)
  {
  }

  /** From a fresh breaker, an inner repository that always fails is reached
      exactly twice: the second failure opens the breaker, and the third and
      fourth attempts, 600 and 1200 ms after the first, are rejected by it. */
  lemma AlwaysFailingFromFresh<T>(now: int, inner: nat -> Result<T, Error>)
    requires forall k :: inner(k).Err?
    ensures Call(Closed(0), now, inner) == Execution(Err(BrokenCircuit), Open(now + 200 + BreakMs), 2, 3, now + 1200)
  {
    assert inner(0).Err? && inner(1).Err?;
    assert Run(Open(now + 200 + BreakMs), now + 600, inner, 2, 2)
      == Execution(Err(BrokenCircuit), Open(now + 200 + BreakMs), 2, 3, now + 1200);
  }

  /** The breaker is shared: once one operation has failed twice, a different
      operation started while the breaker is open fails with
      `BrokenCircuitException` without reaching its inner call, whatever that
      call would have answered. */
  lemma FailuresCountAcrossOperations<T, U>(now: int, failing: nat -> Result<T, Error>, later: int, other: nat -> Result<U, Error>)
    requires forall k :: failing(k).Err?
    requires now + 1200 <= later && later + 1200 < now + 200 + BreakMs
    ensures var first := Call(Closed(0), now, failing);
      Call(first.breaker, later, other).result == Err(BrokenCircuit)
      && Call(first.breaker, later, other).invocations == 0
  {
    AlwaysFailingFromFresh(now, failing);
    OpenBreakerRejects(now + 200 + BreakMs, later, other);
  }

  // ---------------------------------------------------------------------------
  // The decorator

  /** Each operation runs the corresponding inner call through the one shared
      policy. The inner repository is given by its answers (see `Run`). */
  class GreetingRepositoryPollyDecorator {
    const policy: ResiliencePolicy

    constructor Init()
      ensures fresh(policy) && policy.breaker == Closed(0)
    {
      policy := new ResiliencePolicy();
    }

    /** The public constructor: a null inner repository is rejected. */
    static method New(inner: Option<Injected>) returns (r: Result<GreetingRepositoryPollyDecorator, Error>)
      ensures inner.None? ==> r == Err(ArgumentNull("inner"))
      ensures inner.Some? ==> r.Ok? && fresh(r.value) && fresh(r.value.policy) && r.value.policy.breaker == Closed(0)
    {
      if inner.None? {
        return Err(ArgumentNull("inner"));
      }
      var d := new GreetingRepositoryPollyDecorator.Init();
      r := Ok(d);
    }

    /** `GetLastGreetingAsync` through the policy. */
    method GetLastGreeting(inner: nat -> Result<Option<Greeting>, Error>, now: int) returns (r: Result<Option<Greeting>, Error>)
      modifies policy
      ensures r == Call(old(policy.breaker), now, inner).result
      ensures policy.breaker == Call(old(policy.breaker), now, inner).breaker
    {
      var invocations, waits;
      r, invocations, waits := policy.Execute(inner, now);
    }

    /** `GetGreetingByIdAsync` through the policy; the id reaches the inner
        repository unchanged, so only its answers matter here. */
    method GetGreetingById(id: int, inner: nat -> Result<Option<Greeting>, Error>, now: int) returns (r: Result<Option<Greeting>, Error>)
      modifies policy
      ensures r == Call(old(policy.breaker), now, inner).result
      ensures policy.breaker == Call(old(policy.breaker), now, inner).breaker
    {
      var invocations, waits;
      r, invocations, waits := policy.Execute(inner, now);
    }

    /** `SaveGreetingAsync` through the policy: a failed insert is retried. */
    method SaveGreeting(greeting: Option<Greeting>, inner: nat -> Result<Greeting, Error>, now: int) returns (r: Result<Greeting, Error>)
      modifies policy
      ensures r == Call(old(policy.breaker), now, inner).result
      ensures policy.breaker == Call(old(policy.breaker), now, inner).breaker
    {
      var invocations, waits;
      r, invocations, waits := policy.Execute(inner, now);
    }

    /** `GetGreetingsAsync` through the policy. */
    method GetGreetings(inner: nat -> Result<seq<Greeting>, Error>, now: int) returns (r: Result<seq<Greeting>, Error>)
      modifies policy
      ensures r == Call(old(policy.breaker), now, inner).result
      ensures policy.breaker == Call(old(policy.breaker), now, inner).breaker
    {
      var invocations, waits;
      r, invocations, waits := policy.Execute(inner, now);
    }

    /** `GetAllGreetingsAsync` through the policy. */
    method GetAllGreetings(inner: nat -> Result<seq<Greeting>, Error>, now: int) returns (r: Result<seq<Greeting>, Error>)
      modifies policy
      ensures r == Call(old(policy.breaker), now, inner).result
      ensures policy.breaker == Call(old(policy.breaker), now, inner).breaker
    {
      var invocations, waits;
      r, invocations, waits := policy.Execute(inner, now);
    }
  }

  /** Two operations on one decorator: after the latest-greeting read fails
      twice from a fresh breaker, an all-greetings read started within the
      break is rejected whatever the inner repository would answer. */
  method SharedBreakerScenario(d: GreetingRepositoryPollyDecorator, failing: nat -> Result<Option<Greeting>, Error>,
                               other: nat -> Result<seq<Greeting>, Error>, now: int, later: int)
      returns (first: Result<Option<Greeting>, Error>, second: Result<seq<Greeting>, Error>)
    requires d.policy.breaker == Closed(0) && forall k :: failing(k).Err?
    requires now + 1200 <= later && later + 1200 < now + 200 + BreakMs
    modifies d.policy
    ensures first == Err(BrokenCircuit) && second == Err(BrokenCircuit)
    ensures d.policy.breaker == Open(now + 200 + BreakMs)
  {
    AlwaysFailingFromFresh(now, failing);
    first := d.GetLastGreeting(failing, now);
    OpenBreakerRejects(now + 200 + BreakMs, later, other);
    second := d.GetAllGreetings(other, later);
  }
}
