/** What throttling guarantees over every run of failing password checks. */
module GatekeeperRuns {
  import opened Basics
  import opened Bytes
  import opened Gatekeeper

  /** Any run of failing Verify and Enroll requests on one record. */
  ghost predicate AnyRun(records: seq<Record>, requests: seq<Request>) {
    && |records| == |requests| + 1 && records[0] == CLEARED
    && forall i | 0 <= i < |requests| ::
         !requests[i].matches && requests[i].time < U64 && records[i + 1] == Serve(records[i], requests[i]).record
  }

  /** The clock does not go back between two requests. */
  ghost predicate ClockRuns(requests: seq<Request>, from: nat, to: nat)
    requires to <= |requests|
  {
    forall i, j | from <= i < j < to :: requests[i].time <= requests[j].time
  }

  /** A run whose clock never goes back. */
  ghost predicate Run(records: seq<Record>, requests: seq<Request>) {
    AnyRun(records, requests) && ClockRuns(requests, 0, |requests|)
  }

  /** The end of a timeout that starts in the run is a 64-bit time. */
  ghost predicate NoWrap(requests: seq<Request>) {
    forall i | 0 <= i < |requests| :: requests[i].time + DAY_IN_MS < U64
  }

  ghost predicate Checked(records: seq<Record>, requests: seq<Request>, i: nat)
    requires AnyRun(records, requests) && i < |requests|
  {
    Serve(records[i], requests[i]).checked
  }

  /** The number of passwords checked in the first n requests. */
  ghost function Attempts(records: seq<Record>, requests: seq<Request>, n: nat): nat
    requires AnyRun(records, requests) && n <= |requests|
  {
    if n == 0 then 0 else Attempts(records, requests, n - 1) + if Checked(records, requests, n - 1) then 1 else 0
  }

  /** When the first and the last of them were checked. */
  ghost function FirstTime(records: seq<Record>, requests: seq<Request>, n: nat): nat
    requires Run(records, requests) && n <= |requests| && Attempts(records, requests, n) > 0
  {
    if Attempts(records, requests, n - 1) > 0 then FirstTime(records, requests, n - 1) else requests[n - 1].time
  }

  ghost function LastTime(records: seq<Record>, requests: seq<Request>, n: nat): nat
    requires Run(records, requests) && n <= |requests| && Attempts(records, requests, n) > 0
  {
    if Checked(records, requests, n - 1) then requests[n - 1].time else LastTime(records, requests, n - 1)
  }

  /** The timeouts after each of the first m failures but the last; the counter has 32 bits. */
  function TotalTimeout(m: nat): nat {
    if m <= 1 then 0 else TotalTimeout(m - 1) + ComputeRetryTimeout((m - 1) % U32)
  }

  /** A password is checked only when the timeout since the last check is over. */
  lemma CheckedLate(r: Record, q: Request)
    requires RecordOk(r) && r.lastChecked <= q.time && q.time + DAY_IN_MS < U64 && Serve(r, q).checked
    ensures q.time - r.lastChecked >= ComputeRetryTimeout(r.counter)
  {
    var timeout := ComputeRetryTimeout(r.counter);
    AtMostADay(r.counter);
    EndOfTimeout(r.lastChecked, timeout);
  }

  lemma NextCounter(a: nat)
    ensures (a % U32 + 1) % U32 == (a + 1) % U32
  {
  }

  /** What one request does to the counter. */
  lemma CounterAfter(r: Record, q: Request)
    requires !q.matches
    ensures var o := Serve(r, q);
            o.record.counter == if o.checked then (r.counter + 1) % U32 else r.counter
    ensures RecordOk(r) && q.time < U64 ==> RecordOk(Serve(r, q).record)
  {
    hide ComputeRetryTimeout;
  }

  /** What one request does to the time on record, unless the clock went back. */
  lemma TimeAfter(r: Record, q: Request)
    requires !q.matches && r.lastChecked <= q.time
    ensures var o := Serve(r, q);
            o.record.lastChecked == if o.checked then q.time else r.lastChecked
  {
    hide ComputeRetryTimeout;
  }

  /**
   Whatever the clock does, the counter is the number of passwords checked, each
   charged before it was checked.
   */
  lemma {:induction false} AttemptsAreCounted(records: seq<Record>, requests: seq<Request>, n: nat)
    requires AnyRun(records, requests) && n <= |requests|
    ensures RecordOk(records[n]) && records[n].counter == Attempts(records, requests, n) % U32
  {
    hide Serve, ComputeRetryTimeout;
    if n > 0 {
      AttemptsAreCounted(records, requests, n - 1);
      CounterAfter(records[n - 1], requests[n - 1]);
      NextCounter(Attempts(records, requests, n - 1));
    }
  }

  /** The time on record is that of the last check. */
  lemma {:induction false} LastIsOnRecord(records: seq<Record>, requests: seq<Request>, n: nat)
    requires Run(records, requests) && n <= |requests|
    ensures records[n].lastChecked == if Attempts(records, requests, n) == 0 then 0 else LastTime(records, requests, n)
    ensures n > 0 ==> records[n].lastChecked <= requests[n - 1].time
  {
    hide Serve, ComputeRetryTimeout;
    if n > 0 {
      LastIsOnRecord(records, requests, n - 1);
      TimeAfter(records[n - 1], requests[n - 1]);
    }
  }

  /** The clock of this request was at or before the last check while a timeout was pending. */
  ghost predicate Restarts(records: seq<Record>, requests: seq<Request>, i: nat)
    requires AnyRun(records, requests) && i < |requests|
  {
    requests[i].readOk && requests[i].writeOk && Throttle(records[i], requests[i].time).Restart?
  }

  /** Until the next check the record says when the timeout was restarted. */
  lemma {:induction false} RestartIsOnRecord(records: seq<Record>, requests: seq<Request>, i: nat, j: nat)
    requires AnyRun(records, requests) && i < j <= |requests| && Restarts(records, requests, i)
    requires ClockRuns(requests, i, j)
    requires forall k | i < k < j :: !Checked(records, requests, k)
    ensures records[j].counter == records[i].counter && records[j].lastChecked == requests[i].time
  {
    hide ComputeRetryTimeout;
    if j > i + 1 {
      RestartIsOnRecord(records, requests, i, j - 1);
      assert !Checked(records, requests, j - 1) && requests[i].time <= requests[j - 1].time;
      CounterAfter(records[j - 1], requests[j - 1]);
      TimeAfter(records[j - 1], requests[j - 1]);
    }
  }

  /**
   A clock that went back restarts the whole timeout: the counter stays, and the next
   password is checked no earlier than the restarted timeout ends.
   */
  lemma RestartHolds(records: seq<Record>, requests: seq<Request>, i: nat, j: nat)
    requires AnyRun(records, requests) && NoWrap(requests) && i < j < |requests| && Restarts(records, requests, i)
    requires ClockRuns(requests, i, j + 1)
    requires Checked(records, requests, j) && forall k | i < k < j :: !Checked(records, requests, k)
    ensures records[j].counter == records[i].counter
    ensures requests[j].time - requests[i].time >= ComputeRetryTimeout(records[i].counter) > 0
  {
    hide Serve, ComputeRetryTimeout;
    RestartIsOnRecord(records, requests, i, j);
    AttemptsAreCounted(records, requests, j);
    CheckedLate(records[j], requests[j]);
  }

  /** The last password was checked at least the sum of all timeouts after the first. */
  lemma {:induction false} AttemptsAreThrottled(records: seq<Record>, requests: seq<Request>, n: nat)
    requires Run(records, requests) && NoWrap(requests) && n <= |requests| && Attempts(records, requests, n) > 0
    ensures LastTime(records, requests, n) - FirstTime(records, requests, n) >=
            TotalTimeout(Attempts(records, requests, n))
  {
    hide Serve, ComputeRetryTimeout;
    if Attempts(records, requests, n - 1) > 0 {
      AttemptsAreThrottled(records, requests, n - 1);
      AttemptsAreCounted(records, requests, n - 1);
      LastIsOnRecord(records, requests, n - 1);
      if Checked(records, requests, n - 1) {
        CheckedLate(records[n - 1], requests[n - 1]);
      }
    }
  }

  /** With fewer than 2^32 requests the counter is exactly the number of attempts. */
  lemma CounterIsAttempts(records: seq<Record>, requests: seq<Request>, n: nat)
    requires AnyRun(records, requests) && n <= |requests| < U32
    ensures records[n].counter == Attempts(records, requests, n)
  {
    hide Attempts, AnyRun;
    AttemptsAreCounted(records, requests, n);
    AttemptsBound(records, requests, n);
  }

  lemma {:induction false} AttemptsBound(records: seq<Record>, requests: seq<Request>, n: nat)
    requires AnyRun(records, requests) && n <= |requests|
    ensures Attempts(records, requests, n) <= n
  {
    if n > 0 {
      AttemptsBound(records, requests, n - 1);
    }
  }

  // The sum of the timeouts in numbers.

  /** Within ten failures that have the same timeout. */
  lemma {:induction false} TotalWithinTen(k: nat, j: nat)
    requires k < 11 && j <= 10
    ensures TotalTimeout(30 + 10 * k + j) == TotalTimeout(30 + 10 * k) + j * (30000 * Pow2(k))
  {
    hide Pow2, ComputeRetryTimeout;
    if j > 0 {
      TotalWithinTen(k, j - 1);
      TimeoutOfTen(k, j - 1);
      OneMore(30000 * Pow2(k), j);
    }
  }

  lemma OneMore(t: nat, j: nat)
    requires j > 0
    ensures j * t == (j - 1) * t + t
  {
  }

  lemma TimeoutOfTen(k: nat, j: nat)
    requires k < 11 && j < 10
    ensures ComputeRetryTimeout((30 + 10 * k + j) % U32) == 30000 * Pow2(k)
  {
    hide Pow2;
    var c := 30 + 10 * k + j;
    assert (c - 30) / 10 == k && c % U32 == c;
  }

  lemma {:induction false} TotalOfTens(k: nat, m: nat)
    requires k <= 11 && m == 30 + 10 * k
    ensures TotalTimeout(m) == 30000 * (21 + 10 * (Pow2(k) - 1))
  {
    hide TotalTimeout;
    if k == 0 {
      FirstThirty(m);
    } else {
      TotalOfTens(k - 1, m - 10);
      TotalWithinTen(k - 1, 10);
      assert Pow2(k) == 2 * Pow2(k - 1);
      hide Pow2;
    }
  }

  lemma {:induction false} FirstThirty(m: nat)
    requires 1 <= m <= 30
    ensures TotalTimeout(m) == 30000 * if m <= 5 then 0 else if m <= 10 then 1 else m - 9
  {
    if m > 1 {
      FirstThirty(m - 1);
      TimeoutTable(m - 1);
      hide ComputeRetryTimeout;
      assert (m - 1) % U32 == m - 1;
    }
  }

  /** A hundred and forty attempts take more than seven days, and each one after them another day. */
  lemma {:induction false} TotalInNumbers(m: nat)
    requires 140 <= m <= U32
    ensures TotalTimeout(m) == 614730000 + (m - 140) * 86400000
  {
    hide TotalTimeout;
    if m == 140 {
      TotalUpTo(11, m);
    } else {
      TotalInNumbers(m - 1);
      DayMore(m);
    }
  }

  lemma TotalUpTo(k: nat, m: nat)
    requires k == 11 && m == 30 + 10 * k
    ensures TotalTimeout(m) == 614730000
  {
    hide Pow2, TotalTimeout;
    TotalOfTens(k, m);
    PowerEleven();
  }

  lemma DayMore(m: nat)
    requires 140 < m <= U32
    ensures TotalTimeout(m) == TotalTimeout(m - 1) + 86400000
  {
    hide ComputeRetryTimeout;
    TimeoutTable(m - 1);
    assert (m - 1) % U32 == m - 1;
  }

  lemma PowerEleven()
    ensures Pow2(11) == 2048
  {
    assert Pow2(3) == 8;
    assert Pow2(6) == 64;
    assert Pow2(9) == 512;
  }

  lemma {:induction false} FirstTimeIs(records: seq<Record>, requests: seq<Request>, i: nat, n: nat)
    requires Run(records, requests) && i < n <= |requests| && Checked(records, requests, i)
    requires forall k | 0 <= k < i :: !Checked(records, requests, k)
    ensures Attempts(records, requests, n) > 0 && FirstTime(records, requests, n) == requests[i].time
  {
    hide Serve;
    if n == i + 1 {
      NoAttempts(records, requests, i);
    } else {
      FirstTimeIs(records, requests, i, n - 1);
    }
  }

  lemma {:induction false} NoAttempts(records: seq<Record>, requests: seq<Request>, n: nat)
    requires AnyRun(records, requests) && n <= |requests|
    requires forall k | 0 <= k < n :: !Checked(records, requests, k)
    ensures Attempts(records, requests, n) == 0
  {
    hide Serve;
    if n > 0 {
      NoAttempts(records, requests, n - 1);
    }
  }

  /** Guessing 140 passwords takes more than seven days on the clock, between the requests that were checked. */
  lemma GuessingIsSlow(records: seq<Record>, requests: seq<Request>, i: nat, j: nat)
    requires Run(records, requests) && NoWrap(requests) && i < j < |requests|
    requires Checked(records, requests, i) && forall k | 0 <= k < i :: !Checked(records, requests, k)
    requires Checked(records, requests, j) && 140 <= Attempts(records, requests, j + 1) <= U32
    ensures requests[j].time - requests[i].time >=
            614730000 + (Attempts(records, requests, j + 1) - 140) * 86400000
  {
    hide Serve, Attempts, TotalTimeout;
    FirstTimeIs(records, requests, i, j + 1);
    AttemptsAreThrottled(records, requests, j + 1);
    TotalInNumbers(Attempts(records, requests, j + 1));
  }
}
