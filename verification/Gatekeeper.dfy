/** Retry throttling of password checks (gatekeeper/gatekeeper.cpp). */
module Gatekeeper {
  import opened Wrappers
  import opened Basics
  import opened Bytes

  const DAY_IN_MS: nat := 1000 * 60 * 60 * 24
  const FAILURE_TIMEOUT_MS: nat := 30000
  const HANDLE_VERSION: nat := 2
  const HANDLE_VERSION_THROTTLE: nat := 2

  /** A failure record, with a 32-bit counter and a 64-bit time in milliseconds. */
  datatype Record = Record(user: nat, counter: nat, lastChecked: nat)

  predicate RecordOk(r: Record) {
    r.counter < U32 && r.lastChecked < U64
  }

  /** ComputeRetryTimeout, in milliseconds. */
  function ComputeRetryTimeout(counter: nat): nat {
    if counter == 0 then 0
    else if counter <= 10 then if counter % 5 == 0 then FAILURE_TIMEOUT_MS else 0
    else if counter < 30 then FAILURE_TIMEOUT_MS
    else if counter < 140 then FAILURE_TIMEOUT_MS * Pow2((counter - 30) / 10)
    else DAY_IN_MS
  }

  lemma {:induction false} Pow2Grows(m: nat, n: nat)
    requires m <= n
    ensures 1 <= Pow2(m) <= Pow2(n)
  {
    if m < n {
      Pow2Grows(m, n - 1);
    } else if m > 0 {
      Pow2Grows(m - 1, m - 1);
    }
  }

  /** The timeout is never more than a day. */
  lemma AtMostADay(counter: nat)
    ensures ComputeRetryTimeout(counter) <= DAY_IN_MS
  {
    if 30 <= counter < 140 {
      Pow2Grows((counter - 30) / 10, 10);
      assert Pow2(10) == 1024 by {
        assert Pow2(5) == 32;
      }
    }
  }

  /** From the tenth failure on the timeout never shrinks and is never zero. */
  lemma TimeoutGrows(a: nat, b: nat)
    requires 10 <= a <= b
    ensures 0 < ComputeRetryTimeout(a) <= ComputeRetryTimeout(b)
  {
    AtMostADay(a);
    if b < 140 {
      var m, n := if a < 30 then 0 else (a - 30) / 10, if b < 30 then 0 else (b - 30) / 10;
      Pow2Grows(m, n);
    }
    if 30 <= a < 140 {
      Pow2Grows(0, (a - 30) / 10);
    }
  }

  /** The timeouts in numbers: thirty seconds up to the fortieth failure, doubled every ten failures, then a day. */
  lemma TimeoutTable(n: nat)
    ensures n < 10 && n != 5 ==> ComputeRetryTimeout(n) == 0
    ensures n == 5 || 10 <= n < 40 ==> ComputeRetryTimeout(n) == 30000
    ensures 30 <= n < 130 ==> ComputeRetryTimeout(n + 10) == 2 * ComputeRetryTimeout(n)
    ensures n >= 140 ==> ComputeRetryTimeout(n) == 86400000
  {
    if 30 <= n < 130 {
      assert (n + 10 - 30) / 10 == (n - 30) / 10 + 1;
    }
    assert Pow2(0) == 1;
  }

  /** The authentication token a match gives, and what a password handle says besides its signature. */
  datatype Token = Token(user: nat, challenge: nat, time: nat)
  datatype Handle = Handle(user: nat, secure: bool)

  datatype Reply = Retry(ms: nat) | Invalid | Unknown | Accepted

  /**
   A throttled request: whether the handle names the secure store, the clock, whether
   the store can be read, written and cleared, and whether the password matches.
   */
  datatype Request =
    Request(user: nat, challenge: nat, secure: bool, time: nat, readOk: bool, writeOk: bool, clearOk: bool,
            matches: bool)

  datatype Throttling = Pass | Wait(ms: nat) | Restart(ms: nat)

  /** ThrottleRequest; the end of the timeout is computed in 64 bits. */
  function Throttle(r: Record, time: nat): Throttling {
    var timeout := ComputeRetryTimeout(r.counter);
    if timeout == 0 then Pass
    else if r.lastChecked < time < (r.lastChecked + timeout) % U64 then Wait(timeout - (time - r.lastChecked))
    else if time <= r.lastChecked then Restart(timeout)
    else Pass
  }

  /** IncrementFailureRecord; the counter wraps around. */
  function Charged(r: Record, user: nat, time: nat): Record {
    Record(user, (r.counter + 1) % U32, time)
  }

  /** The outcome of a request: the stored record, the reply, and whether the password was checked. */
  datatype Outcome = Outcome(record: Record, reply: Reply, checked: bool)

  const CLEARED: Record := Record(0, 0, 0)

  /** The failure record is charged before the password is checked, and cleared by a match. */
  function Serve(r: Record, q: Request): Outcome {
    if !q.readOk then Outcome(r, Unknown, false)
    else
      match Throttle(r, q.time)
      case Wait(ms) => Outcome(r, Retry(ms), false)
      case Restart(ms) =>
        if q.writeOk then Outcome(r.(lastChecked := q.time), Retry(ms), false) else Outcome(r, Unknown, false)
      case Pass =>
        if !q.writeOk then Outcome(r, Unknown, false)
        else
          var c := Charged(r, q.user, q.time);
          var timeout := ComputeRetryTimeout(c.counter);
          if q.matches then Outcome(if q.clearOk then CLEARED else c, Accepted, true)
          else Outcome(c, if timeout > 0 then Retry(timeout) else Invalid, true)
  }

  /** What secure and plain storage return for the user's record. */
  datatype Stores = Stores(secure: Record, plain: Record) {
    function At(inSecure: bool): Record {
      if inSecure then secure else plain
    }

    function With(inSecure: bool, r: Record): Stores {
      if inSecure then this.(secure := r) else this.(plain := r)
    }

    predicate Ok() {
      RecordOk(secure) && RecordOk(plain)
    }

    /** Enroll clears the secure record, or if that fails the plain one. */
    function Renewed(secureOk: bool, plainOk: bool): Stores {
      if secureOk then With(true, CLEARED) else if plainOk then With(false, CLEARED) else this
    }
  }

  class GateKeeper {
    var stores: Stores

    constructor ()
      ensures stores == Stores(CLEARED, CLEARED)
    {
      stores := Stores(CLEARED, CLEARED);
    }

    method WriteFailureRecord(secure: bool, r: Record, ok: bool)
      modifies this
      ensures stores == if ok then old(stores).With(secure, r) else old(stores)
    {
      if ok {
        stores := stores.With(secure, r);
      }
    }

    method ClearFailureRecord(secure: bool, ok: bool)
      modifies this
      ensures stores == if ok then old(stores).With(secure, CLEARED) else old(stores)
    {
      WriteFailureRecord(secure, CLEARED, ok);
    }

    method ThrottleRequest(r: Record, q: Request) returns (stop: bool, reply: Reply)
      requires RecordOk(r) && q.time < U64
      modifies this
      ensures match Throttle(r, q.time)
              case Pass => !stop && stores == old(stores)
              case Wait(ms) => stop && reply == Retry(ms) && stores == old(stores)
              case Restart(ms) =>
                && stop && reply == (if q.writeOk then Retry(ms) else Unknown)
                && stores == if q.writeOk then old(stores).With(q.secure, r.(lastChecked := q.time)) else old(stores)
    {
      var last := r.lastChecked;
      var timeout := ComputeRetryTimeout(r.counter);
      if timeout > 0 {
        if q.time < (last + timeout) % U64 && q.time > last {
          return true, Retry(timeout - (q.time - last));
        } else if q.time <= last {
          WriteFailureRecord(q.secure, r.(lastChecked := q.time), q.writeOk);
          return true, if q.writeOk then Retry(timeout) else Unknown;
        }
      }
      return false, Invalid;
    }

    method IncrementFailureRecord(r: Record, q: Request) returns (ok: bool, charged: Record)
      modifies this
      ensures ok == q.writeOk && charged == Charged(r, q.user, q.time)
      ensures charged == Record(q.user, (r.counter + 1) % 0x1_0000_0000, q.time)
      ensures stores == if ok then old(stores).With(q.secure, charged) else old(stores)
    {
      charged := Record(q.user, (r.counter + 1) % U32, q.time);
      WriteFailureRecord(q.secure, charged, q.writeOk);
      ok := q.writeOk;
    }

    /** The throttled part that Verify and Enroll share, up to the password check. */
    method Admit(q: Request) returns (go: bool, reply: Reply, timeout: nat)
      requires stores.Ok() && q.time < U64
      modifies this
      ensures var r := old(stores).At(q.secure);
              && go == Serve(r, q).checked
              && (go ==> && stores == old(stores).With(q.secure, Charged(r, q.user, q.time))
                         && timeout == ComputeRetryTimeout(Charged(r, q.user, q.time).counter))
              && (!go ==> stores == old(stores).With(q.secure, Serve(r, q).record) && reply == Serve(r, q).reply)
    {
      timeout := 0;
      if !q.readOk {
        return false, Unknown, 0;
      }
      var r := stores.At(q.secure);
      var stop;
      stop, reply := ThrottleRequest(r, q);
      if stop {
        return false, reply, 0;
      }
      var ok;
      ok, r := IncrementFailureRecord(r, q);
      if !ok {
        return false, Unknown, 0;
      }
      return true, Invalid, ComputeRetryTimeout(r.counter);
    }

    /** Verify, for a request that may lack its password and a handle of the given version. */
    method Verify(complete: bool, version: nat, q: Request) returns (reply: Reply, token: Option<Token>, reenroll: bool)
      requires stores.Ok() && q.time < U64
      modifies this
      ensures stores.Ok()
      ensures !complete || version > HANDLE_VERSION ==> reply == Invalid && stores == old(stores) && !reenroll
      ensures complete && version < HANDLE_VERSION_THROTTLE ==>
                reply == (if q.matches then Accepted else Invalid) && stores == old(stores) && reenroll
      ensures complete && HANDLE_VERSION_THROTTLE <= version <= HANDLE_VERSION ==>
                var o := Serve(old(stores).At(q.secure), q);
                stores == old(stores).With(q.secure, o.record) && reply == o.reply && !reenroll
      ensures token == if reply == Accepted then Some(Token(q.user, q.challenge, q.time)) else None
    {
      token, reenroll := None, false;
      if !complete || version > HANDLE_VERSION {
        return Invalid, None, false;
      }
      var throttle := version >= HANDLE_VERSION_THROTTLE;
      var timeout := 0;
      if throttle {
        var go;
        go, reply, timeout := Admit(q);
        if !go {
          return reply, None, false;
        }
      } else {
        reenroll := true;
      }
      if q.matches {
        if throttle {
          ClearFailureRecord(q.secure, q.clearOk);
        }
        return Accepted, Some(Token(q.user, q.challenge, q.time)), reenroll;
      }
      return if throttle && timeout > 0 then Retry(timeout) else Invalid, None, reenroll;
    }

    /**
     Enroll, with an old handle of the given version or without one.  The old password
     is charged and checked as in Verify.  The record is cleared in secure storage, or
     else in plain storage, before the new handle is made, which names secure
     storage exactly if that was cleared.
     */
    method Enroll(complete: bool, version: Option<nat>, q: Request, newUser: nat, secureOk: bool, handleOk: bool)
      returns (reply: Reply, handle: Option<Handle>)
      requires stores.Ok() && q.time < U64
      modifies this
      ensures stores.Ok()
      ensures !complete || (version.Some? && version.value > HANDLE_VERSION) ==>
                reply == Invalid && stores == old(stores)
      ensures complete && version.None? ==>
                && stores == old(stores).Renewed(secureOk, q.clearOk)
                && reply == if handleOk then Accepted else Invalid
      ensures complete && version.Some? && version.value < HANDLE_VERSION_THROTTLE ==>
                && stores == (if q.matches then old(stores).Renewed(secureOk, q.clearOk) else old(stores))
                && reply == if q.matches && handleOk then Accepted else Invalid
      ensures complete && version.Some? && HANDLE_VERSION_THROTTLE <= version.value <= HANDLE_VERSION ==>
                var o := Serve(old(stores).At(q.secure), q.(clearOk := false));
                var charged := old(stores).With(q.secure, o.record);
                && stores == (if o.reply == Accepted then charged.Renewed(secureOk, q.clearOk) else charged)
                && reply == if o.reply == Accepted && !handleOk then Invalid else o.reply
      ensures var user := if version.Some? then q.user else newUser;
              handle == if reply == Accepted then Some(Handle(user, secureOk)) else None
      ensures handle.Some? && (secureOk || q.clearOk) ==> stores.At(handle.value.secure) == CLEARED
    {
      if !complete || (version.Some? && version.value > HANDLE_VERSION) {
        return Invalid, None;
      }
      if version.Some? {
        var throttle := version.value >= HANDLE_VERSION_THROTTLE;
        var timeout := 0;
        if throttle {
          var go;
          go, reply, timeout := Admit(q);
          if !go {
            return reply, None;
          }
        }
        if !q.matches {
          return if throttle && timeout > 0 then Retry(timeout) else Invalid, None;
        }
      }
      ClearFailureRecord(true, secureOk);
      if !secureOk {
        ClearFailureRecord(false, q.clearOk);
      }
      if !handleOk {
        return Invalid, None;
      }
      return Accepted, Some(Handle(if version.Some? then q.user else newUser, secureOk));
    }
  }

  /** A sum that has not wrapped is the only one a later time can be below. */
  lemma EndOfTimeout(last: nat, timeout: nat)
    requires last < U64 && timeout < U64
    ensures (last + timeout) % U64 == if last + timeout < U64 then last + timeout else last + timeout - U64
  {
  }

  // Properties of one request.

  /** A request in the middle of a timeout is held off exactly when the end of the timeout does not wrap around. */
  lemma HeldOff(r: Record, time: nat)
    requires RecordOk(r)
    requires r.lastChecked < time < r.lastChecked + ComputeRetryTimeout(r.counter)
    ensures Throttle(r, time).Wait? <==> r.lastChecked + ComputeRetryTimeout(r.counter) < U64
    ensures Throttle(r, time).Wait? ==> time + Throttle(r, time).ms == r.lastChecked + ComputeRetryTimeout(r.counter)
  {
    AtMostADay(r.counter);
    EndOfTimeout(r.lastChecked, ComputeRetryTimeout(r.counter));
  }

  /** A request one millisecond into a timeout of thirty seconds whose end does wrap around is let through. */
  lemma WrappedTimeout()
    ensures ComputeRetryTimeout(5) == 30000 && Throttle(Record(0, 5, U64 - 2), U64 - 1) == Pass
  {
    EndOfTimeout(U64 - 2, 30000);
  }

  /** While a timeout is pending, a clock at or before the last check restarts it and any other time in it waits. */
  lemma ThrottleMeans(r: Record, time: nat)
    requires RecordOk(r) && time < U64
    ensures var timeout := ComputeRetryTimeout(r.counter);
            var end := r.lastChecked + timeout;
            && (Throttle(r, time) == Restart(timeout) <==> timeout > 0 && time <= r.lastChecked)
            && (Throttle(r, time).Wait? <==> r.lastChecked < time < end < 0x1_0000_0000_0000_0000)
            && (Throttle(r, time).Wait? ==> time + Throttle(r, time).ms == end)
            && (Throttle(r, time) == Pass <==>
                timeout == 0 || (time > r.lastChecked && (time >= end || end >= 0x1_0000_0000_0000_0000)))
  {
    AtMostADay(r.counter);
    EndOfTimeout(r.lastChecked, ComputeRetryTimeout(r.counter));
    hide ComputeRetryTimeout;
  }

  /** A password is accepted if and only if it matches, nothing holds it off and the failure was written first. */
  lemma AcceptedIff(r: Record, q: Request)
    ensures Serve(r, q).reply == Accepted <==>
            q.matches && q.readOk && q.writeOk && Throttle(r, q.time) == Pass
  {
    hide ComputeRetryTimeout;
  }

  /** What is on record afterwards, and what is replied. */
  lemma ServedMeans(r: Record, q: Request)
    ensures var o := Serve(r, q);
            var charged := Record(q.user, (r.counter + 1) % 0x1_0000_0000, q.time);
            var timeout := ComputeRetryTimeout(charged.counter);
            && (o.checked <==> q.readOk && q.writeOk && Throttle(r, q.time) == Pass)
            && (o.checked && q.matches ==>
                  o.reply == Accepted && o.record == if q.clearOk then Record(0, 0, 0) else charged)
            && (o.checked && !q.matches ==>
                  o.record == charged && o.reply == if timeout > 0 then Retry(timeout) else Invalid)
            && (!q.readOk ==> o.reply == Unknown && o.record == r)
            && (q.readOk && Throttle(r, q.time).Wait? ==>
                  o.reply == Retry(Throttle(r, q.time).ms) && o.record == r)
            && (q.readOk && Throttle(r, q.time).Restart? ==>
                  if q.writeOk then o.reply == Retry(Throttle(r, q.time).ms) && o.record == r.(lastChecked := q.time)
                  else o.reply == Unknown && o.record == r)
            && (q.readOk && Throttle(r, q.time) == Pass && !q.writeOk ==> o.reply == Unknown && o.record == r)
  {
    hide ComputeRetryTimeout, Throttle;
  }

  /** The two stores are kept apart, and enrolling clears the plain record only if the secure one cannot be cleared. */
  lemma StoresMean(s: Stores, inSecure: bool, r: Record, secureOk: bool, plainOk: bool)
    ensures s.At(true) == s.secure && s.At(false) == s.plain
    ensures s.With(inSecure, r) == if inSecure then Stores(r, s.plain) else Stores(s.secure, r)
    ensures s.Renewed(secureOk, plainOk) ==
            Stores(if secureOk then Record(0, 0, 0) else s.secure,
                   if !secureOk && plainOk then Record(0, 0, 0) else s.plain)
  {
  }
}
