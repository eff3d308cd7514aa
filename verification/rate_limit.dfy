/** `throttle`: a sliding-window rate limiter over per-key queues of request
    times. The buckets are a map passed in and returned; the clock reading
    `now` is a parameter. */
module RateLimit {
  import opened Wrappers

  /** The request times of one key, oldest first. */
  type Queue = seq<real>

  type Buckets = map<string, Queue>

  /** The outcome of one call: whether the request may proceed and, when it
      may not, how many seconds to wait. */
  datatype Verdict = Verdict(allowed: bool, retryAfter: int)

  datatype Throttled = Throttled(buckets: Buckets, verdict: Verdict)

  /** Python's `int(x)`: truncation toward zero. */
  function Trunc(x: real): (r: int)
    ensures x >= 0.0 ==> r as real <= x < r as real + 1.0
    ensures x < 0.0 ==> r as real - 1.0 < x <= r as real
  {
    if x >= 0.0 then x.Floor else -((-x).Floor)
  }

  /** Times in non-decreasing order. */
  predicate Ascending(q: Queue) {
    forall i, j :: 0 <= i < j < |q| ==> q[i] <= q[j]
  }

  /** Drops times from the front while the oldest is before `cutoff`. */
  function Evict(q: Queue, cutoff: real): (r: Queue)
    ensures |r| <= |q| && forall i :: 0 <= i < |r| ==> r[i] == q[|q| - |r| + i]
    ensures |r| > 0 ==> r[0] >= cutoff
    ensures forall i :: 0 <= i < |q| - |r| ==> q[i] < cutoff
    decreases |q|
  {
    if |q| > 0 && q[0] < cutoff then
      var r := Evict(q[1..], cutoff);
      assert forall i :: 1 <= i < |q| ==> q[i] == q[1..][i - 1];
      r
    else q
  }

  /** The key's queue with the times before the window dropped; a key
      without a queue starts from an empty one. */
  function Current(b: Buckets, key: string, window: int, now: real): Queue {
    Evict(Lookup(b, key), now - window as real)
  }

  function Lookup(b: Buckets, key: string): Queue {
    if key in b then b[key] else []
  }

  /** `wait` is the whole number of seconds in `until`, but at least one. */
  predicate WaitFits(wait: int, until: real) {
    wait == 1 || wait as real <= until < wait as real + 1.0
  }

  /** The key's queue and the verdict after one call. */
  datatype Step = Step(queue: Queue, verdict: Verdict)

  /** The decision on the evicted queue `q`: let the request through while
      fewer than `limit` times remain, recording it, or refuse it and say
      when the oldest time leaves the window, at least one second ahead.
      None when `q` is empty and the limit is not positive, where the
      source's `q[0]` raises. */
  function Admit(q: Queue, limit: int, window: int, now: real): (r: Option<Step>)
    ensures r.None? <==> limit <= 0 && |q| == 0
    ensures r.Some? ==> (r.value.verdict.allowed <==> |q| < limit)
    ensures r.Some? && r.value.verdict.allowed ==> r.value.queue == q + [now] && r.value.verdict.retryAfter == 0
    ensures r.Some? && !r.value.verdict.allowed ==> r.value.queue == q && r.value.verdict.retryAfter >= 1
  {
    if |q| >= limit then
      if |q| == 0 then None
      else
        var wait := Trunc(q[0] + window as real - now);
        Some(Step(q, Verdict(false, if wait > 1 then wait else 1)))
    else Some(Step(q + [now], Verdict(true, 0)))
  }

  /** A refusal names the whole seconds until the oldest time leaves the
      window, or one second when that is sooner. */
  lemma RetryAfterMeaning(q: Queue, limit: int, window: int, now: real)
    requires Admit(q, limit, window, now).Some? && !Admit(q, limit, window, now).value.verdict.allowed
    ensures |q| > 0 && WaitFits(Admit(q, limit, window, now).value.verdict.retryAfter, q[0] + window as real - now)
  {
  }

  /** `throttle(key, limit=limit, window_sec=window)` at time `now`: the
      key's queue is replaced by its new queue, created when missing, and
      every other key keeps its queue. */
  function Throttle(b: Buckets, key: string, limit: int, window: int, now: real): (r: Option<Throttled>)
    ensures r.None? <==> Admit(Current(b, key, window, now), limit, window, now).None?
    ensures r.Some? ==>
      && (forall k :: k in r.value.buckets <==> k in b || k == key)
      && r.value.buckets[key] == Admit(Current(b, key, window, now), limit, window, now).value.queue
      && r.value.verdict == Admit(Current(b, key, window, now), limit, window, now).value.verdict
      && (forall k :: k in b && k != key ==> r.value.buckets[k] == b[k])
  {
    var step := Admit(Current(b, key, window, now), limit, window, now);
    if step.None? then None else Some(Throttled(b[key := step.value.queue], step.value.verdict))
  }

  /** Evicting an ascending queue leaves only times at or after the cutoff. */
  lemma EvictAscending(q: Queue, cutoff: real)
    requires Ascending(q)
    ensures Ascending(Evict(q, cutoff))
    ensures forall i :: 0 <= i < |Evict(q, cutoff)| ==> Evict(q, cutoff)[i] >= cutoff
  {
    var r := Evict(q, cutoff);
    var d := |q| - |r|;
    assert forall i :: 0 <= i < |r| ==> r[i] == q[d + i];
  }

  /** A positive limit never makes the call fail. */
  lemma PositiveLimitSucceeds(b: Buckets, key: string, limit: int, window: int, now: real)
    requires limit >= 1
    ensures Throttle(b, key, limit, window, now).Some?
  {
  }

  /** No time in `q` lies before `cutoff`. */
  predicate NotBefore(q: Queue, cutoff: real) {
    forall i :: 0 <= i < |q| ==> q[i] >= cutoff
  }

  /** The queue invariant: ascending, no time after the clock, and no
      longer than the limit. */
  predicate ValidQueue(q: Queue, limit: int, now: real) {
    Ascending(q) && |q| <= limit && forall i :: 0 <= i < |q| ==> q[i] <= now
  }

  predicate Valid(b: Buckets, limit: int, now: real) {
    forall k :: k in b ==> ValidQueue(b[k], limit, now)
  }

  /** Evicting keeps the queue's invariant. */
  lemma EvictValid(q0: Queue, limit: int, now: real, cutoff: real)
    requires ValidQueue(q0, limit, now)
    ensures ValidQueue(Evict(q0, cutoff), limit, now) && NotBefore(Evict(q0, cutoff), cutoff)
  {
    EvictAscending(q0, cutoff);
    SuffixNotAfter(q0, Evict(q0, cutoff), now);
  }

  /** A suffix of a queue with no time after the clock has none either. */
  lemma SuffixNotAfter(q0: Queue, q: Queue, now: real)
    requires |q| <= |q0| && forall i :: 0 <= i < |q| ==> q[i] == q0[|q0| - |q| + i]
    requires forall i :: 0 <= i < |q0| ==> q0[i] <= now
    ensures forall i :: 0 <= i < |q| ==> q[i] <= now
  {
    forall i | 0 <= i < |q|
      ensures q[i] <= now
    {
      assert q[i] == q0[|q0| - |q| + i];
    }
  }

  /** Appending the current time to a queue within the limit keeps the
      invariant. */
  lemma AppendValid(q: Queue, limit: int, now: real, cutoff: real)
    requires ValidQueue(q, limit, now) && NotBefore(q, cutoff) && |q| < limit && cutoff <= now
    ensures ValidQueue(q + [now], limit, now) && NotBefore(q + [now], cutoff)
  {
    var q1 := q + [now];
    assert forall i :: 0 <= i < |q| ==> q1[i] == q[i];
    assert q1[|q|] == now;
  }

  lemma ValidLater(q: Queue, limit: int, before: real, now: real)
    requires ValidQueue(q, limit, before) && before <= now
    ensures ValidQueue(q, limit, now)
  {
  }

  /** The key's new queue keeps the invariant and holds nothing older than
      the window, whether the request is let through or not. */
  lemma QueueStep(q0: Queue, limit: int, window: int, before: real, now: real, cutoff: real)
    requires before <= now && cutoff <= now && limit >= 1
    requires ValidQueue(q0, limit, before)
    ensures Admit(Evict(q0, cutoff), limit, window, now).Some?
    ensures ValidQueue(Admit(Evict(q0, cutoff), limit, window, now).value.queue, limit, now)
    ensures NotBefore(Admit(Evict(q0, cutoff), limit, window, now).value.queue, cutoff)
  {
    ValidLater(q0, limit, before, now);
    EvictValid(q0, limit, now, cutoff);
    if |Evict(q0, cutoff)| < limit {
      AppendValid(Evict(q0, cutoff), limit, now, cutoff);
    }
  }

  /** A call keeps the invariant for a fixed positive limit, a window that
      is not negative and a clock that does not run backwards; afterwards
      the key's queue holds no time older than the window. */
  lemma ThrottleKeepsValid(b: Buckets, key: string, limit: int, window: int, before: real, now: real)
    requires limit >= 1 && window >= 0 && before <= now
    requires Valid(b, limit, before)
    ensures Throttle(b, key, limit, window, now).Some?
    ensures Valid(Throttle(b, key, limit, window, now).value.buckets, limit, now)
    ensures NotBefore(Throttle(b, key, limit, window, now).value.buckets[key], now - window as real)
  {
    var q0 := Lookup(b, key);
    assert ValidQueue(q0, limit, before);
    var cutoff := now - window as real;
    QueueStep(q0, limit, window, before, now, cutoff);
    var q := Current(b, key, window, now);
    assert q == Evict(q0, cutoff);
    var st := Admit(q, limit, window, now).value;
    assert ValidQueue(st.queue, limit, now) && NotBefore(st.queue, cutoff);
    var r := Throttle(b, key, limit, window, now).value;
    assert r.buckets[key] == st.queue;
    forall k | k in r.buckets ensures ValidQueue(r.buckets[k], limit, now) {
      if k != key {
        ValidLater(b[k], limit, before, now);
      }
    }
  }
}
