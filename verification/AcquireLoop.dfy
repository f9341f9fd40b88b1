/** The retry loop of DocumentLock.acquire (realtime-service/src/utils/DocumentLock.js). */
module AcquireLoop {

  /** Redis answers SET NX with OK when it created the entry, with nil otherwise. */
  datatype Reply = Created | Refused | Failed
  datatype Outcome = Resolved | TimedOut | Rejected

  lemma {:induction false} Scaled(a: int, b: int, w: int)
    requires a <= b && 0 < w
    ensures a * w <= b * w
  {}

  lemma {:induction false} AttemptBound(attempts: int, timeout: int, waitTime: int, waited: int)
    requires 0 < waitTime && waited == (attempts - 1) * waitTime && waited < timeout
    ensures attempts <= (timeout + waitTime - 1) / waitTime
  {
    var q := (timeout + waitTime - 1) / waitTime;
    assert timeout + waitTime - 1 == q * waitTime + (timeout + waitTime - 1) % waitTime;
    if q <= attempts - 1 {
      Scaled(q, attempts - 1, waitTime);
    }
  }

  lemma {:induction false} OneMore(k: int, w: int)
    ensures (k + 1) * w == k * w + w
  {}

  /** Attempt k (from 1) gets reply(k); clock(0) is read before the first attempt and
      clock(k) after the delay that follows attempt k. */
  method Acquire(timeout: int, waitTime: int, clock: nat -> int, reply: nat -> Reply)
    returns (outcome: Outcome, attempts: nat)
    requires 0 < waitTime
    requires forall k: nat :: clock(k) + waitTime <= clock(k + 1)
    ensures 1 <= attempts
    ensures attempts == 1 || attempts <= (timeout + waitTime - 1) / waitTime
    ensures forall k | 1 <= k < attempts :: reply(k) == Refused && clock(k) < clock(0) + timeout
    ensures outcome == Resolved <==> exists k | 1 <= k <= attempts :: reply(k) == Created
    ensures outcome == Rejected <==> reply(attempts) == Failed
    ensures outcome == TimedOut ==> clock(0) + timeout <= clock(attempts)
  {
    var stopTime := clock(0) + timeout;
    attempts := 0;
    ghost var waited := 0;
    while true
      invariant forall k | 1 <= k <= attempts :: reply(k) == Refused && clock(k) < stopTime
      invariant waited == attempts * waitTime && clock(0) + waited <= clock(attempts)
      decreases stopTime - clock(attempts), attempts == 0
    {
      if attempts > 0 {
        AttemptBound(attempts + 1, timeout, waitTime, waited);
      }
      OneMore(attempts, waitTime);
      assert clock(attempts) + waitTime <= clock(attempts + 1);
      attempts, waited := attempts + 1, waited + waitTime;
      var response := reply(attempts);
      if response == Created {
        return Resolved, attempts;
      }
      if response == Failed {
        return Rejected, attempts;
      }
      if stopTime <= clock(attempts) {
        return TimedOut, attempts;
      }
    }
  }
}
