/** The retry loop and the absolute wait time of libfmq/EventFlag.cpp. */
module WaitTimes {
  import opened Wrappers

  datatype Status = NO_ERROR | EAGAIN | EINTR | ETIMEDOUT | OTHER_ERROR

  predicate Spurious(s: Status) {
    s == EAGAIN || s == EINTR
  }

  /** One turn of the loop: the clock reading, and what waitHelper returns if it is called. */
  datatype Turn = Turn(clock: int, result: Status)

  /** The timeout that is left at a clock reading; zero stands for none at all. */
  function Left(timeout: int, start: int, clock: int): int {
    if timeout == 0 then 0 else timeout - (clock - start)
  }

  /**
   wait with retry, over the turns that have happened so far; no status means that
   it is still waiting.  The timeouts passed to waitHelper are the original one minus
   the time elapsed, and never zero for a timed wait.
   */
  method WaitRetry(timeout: int, start: int, turns: seq<Turn>) returns (status: Option<Status>, passed: seq<int>)
    ensures |passed| <= |turns|
    ensures forall i | 0 <= i < |passed| :: passed[i] == if timeout == 0 then 0 else timeout - (turns[i].clock - start)
    ensures timeout != 0 ==> forall i | 0 <= i < |passed| :: passed[i] > 0
    ensures forall i | 0 <= i < |passed| - 1 :: turns[i].result in {EAGAIN, EINTR}
    ensures status.Some? ==> status.value !in {EAGAIN, EINTR}
    ensures match status
            case None => |passed| == |turns| && (passed != [] ==> Spurious(turns[|turns| - 1].result))
            case Some(s) =>
              && !Spurious(s)
              && (|| (passed != [] && s == turns[|passed| - 1].result)
                  || (&& s == ETIMEDOUT && timeout != 0 && |passed| < |turns|
                      && turns[|passed|].clock - start >= timeout
                      && (passed != [] ==> Spurious(turns[|passed| - 1].result))))
  {
    passed := [];
    var shouldTimeOut := timeout != 0;
    var left, previous := timeout, start;
    while |passed| < |turns|
      invariant |passed| <= |turns|
      invariant forall i | 0 <= i < |passed| :: passed[i] == Left(timeout, start, turns[i].clock)
      invariant shouldTimeOut ==> left == timeout - (previous - start) && forall i | 0 <= i < |passed| :: passed[i] > 0
      invariant !shouldTimeOut ==> left == 0
      invariant forall i | 0 <= i < |passed| :: Spurious(turns[i].result)
    {
      var turn := turns[|passed|];
      if shouldTimeOut {
        left := left - (turn.clock - previous);
        previous := turn.clock;
        if left <= 0 {
          return Some(ETIMEDOUT), passed;
        }
      }
      passed := passed + [left];
      if !Spurious(turn.result) {
        return Some(turn.result), passed;
      }
    }
    return None, passed;
  }

  const NANOS_PER_SECOND: int := 1_000_000_000

  datatype Timespec = Timespec(sec: int, nsec: int)

  predicate Normal(t: Timespec) {
    0 <= t.nsec < NANOS_PER_SECOND
  }

  function Nanos(t: Timespec): int {
    t.sec * NANOS_PER_SECOND + t.nsec
  }

  /** Division and remainder that truncate toward zero. */
  function TruncDiv(a: int, b: int): int
    requires b > 0
  {
    if a >= 0 then a / b else -(-a / b)
  }

  function TruncMod(a: int, b: int): int
    requires b > 0
  {
    a - b * TruncDiv(a, b)
  }

  /** The time that addNanosecondsToCurrentTime makes of a clock reading. */
  function Later(now: Timespec, ns: int): Timespec {
    var t := Timespec(now.sec + TruncDiv(ns, NANOS_PER_SECOND), now.nsec + TruncMod(ns, NANOS_PER_SECOND));
    if t.nsec >= NANOS_PER_SECOND then Timespec(t.sec + 1, t.nsec - NANOS_PER_SECOND) else t
  }

  /** addNanosecondsToCurrentTime: always the right instant. */
  method AddNanosecondsToCurrentTime(now: Timespec, ns: int) returns (wait: Timespec)
    requires Normal(now)
    ensures wait == Later(now, ns) && Nanos(wait) == Nanos(now) + ns
    ensures Normal(wait) <==> now.nsec + TruncMod(ns, NANOS_PER_SECOND) >= 0
    ensures ns >= 0 ==> Normal(wait)
  {
    wait := Timespec(now.sec + TruncDiv(ns, NANOS_PER_SECOND), now.nsec + TruncMod(ns, NANOS_PER_SECOND));
    if wait.nsec >= NANOS_PER_SECOND {
      wait := Timespec(wait.sec + 1, wait.nsec - NANOS_PER_SECOND);
    }
  }

  /**
   A timeout gives a valid time at every clock reading if and only if it is not
   negative, or is a whole number of seconds.
   */
  lemma NormalAtAnyTime(ns: int)
    ensures (forall now | Normal(now) :: Normal(Later(now, ns))) <==> ns >= 0 || TruncMod(ns, NANOS_PER_SECOND) == 0
  {
    if ns < 0 && TruncMod(ns, NANOS_PER_SECOND) != 0 {
      var now := Timespec(0, 0);
      assert Normal(now) && !Normal(Later(now, ns));
    }
  }

  /** A timeout of minus one nanosecond, which only a wait without retry passes on, on a full second. */
  lemma NegativeTimeout()
    ensures Normal(Timespec(5, 0)) && Later(Timespec(5, 0), -1) == Timespec(5, -1) && !Normal(Later(Timespec(5, 0), -1))
  {
    assert TruncDiv(-1, NANOS_PER_SECOND) == 0;
  }
}
