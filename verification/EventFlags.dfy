/**
 The event flag of libfmq/EventFlag.cpp: wakers and waiters that share one word and
 sleep in the kernel.  Threads interleave at every atomic operation and system call.
 */
module EventFlags {
  import opened Basics

  type Bit = b: nat | b < 32

  /** A 32-bit word as the set of its one bits. */
  type Word = set<Bit>

  type Tid = nat

  /** Where a thread is between two atomic steps. */
  datatype Pc =
    | Idle
    | Waking(mask: Word)                    // the word is set, the sleepers are not yet woken
    | Checked(mask: Word, expected: Word)   // no bit was there, the wait call is next
    | Sleeping(mask: Word)
    | Woken(mask: Word)                     // the wait call returned, the word is not yet read

  datatype State = State(word: Word, threads: map<Tid, Pc>)

  function PcOf(s: State, t: Tid): Pc {
    if t in s.threads then s.threads[t] else Idle
  }

  function At(s: State, t: Tid, pc: Pc): State {
    s.(threads := s.threads[t := pc])
  }

  datatype Event =
    | FetchOr(t: Tid, mask: Word)           // wake: first step
    | FutexWake(t: Tid)                     // wake: second step
    | FetchAnd(t: Tid, mask: Word)          // waitHelper: first step
    | FutexWait(t: Tid)                     // waitHelper: second step
    | GiveUp(t: Tid)                        // the wait call times out or is interrupted
    | WakeUp(t: Tid)                        // the wait call returns for no reason
    | Collect(t: Tid)                       // waitHelper: third step

  predicate Enabled(s: State, e: Event) {
    match e
    case FetchOr(t, mask) => PcOf(s, t) == Idle && mask != {}
    case FetchAnd(t, mask) => PcOf(s, t) == Idle && mask != {}
    case FutexWake(t) => PcOf(s, t).Waking?
    case FutexWait(t) => PcOf(s, t).Checked?
    case GiveUp(t) => PcOf(s, t).Sleeping?
    case WakeUp(t) => PcOf(s, t).Sleeping?
    case Collect(t) => PcOf(s, t).Woken?
  }

  /** FUTEX_WAKE_BITSET: every sleeper whose mask meets the given one wakes. */
  function WakeAll(threads: map<Tid, Pc>, mask: Word): map<Tid, Pc> {
    map t | t in threads ::
      if threads[t].Sleeping? && threads[t].mask * mask != {} then Woken(threads[t].mask) else threads[t]
  }

  function Step(s: State, e: Event): State
    requires Enabled(s, e)
  {
    match e
    case FetchOr(t, mask) =>
      // The wake call is skipped when every bit was there already.
      At(s.(word := s.word + mask), t, if mask - s.word != {} then Waking(mask) else Idle)
    case FutexWake(t) =>
      At(s.(threads := WakeAll(s.threads, PcOf(s, t).mask)), t, Idle)
    case FetchAnd(t, mask) =>
      At(s.(word := s.word - mask), t, if s.word * mask != {} then Idle else Checked(mask, s.word - mask))
    case FutexWait(t) =>
      var Checked(mask, expected) := PcOf(s, t);
      At(s, t, if s.word == expected then Sleeping(mask) else Idle)
    case GiveUp(t) =>
      At(s, t, Idle)
    case WakeUp(t) =>
      At(s, t, Woken(PcOf(s, t).mask))
    case Collect(t) =>
      At(s.(word := s.word - PcOf(s, t).mask), t, Idle)
  }

  /** The bits a step turns from zero to one. */
  function Raised(s: State, e: Event): Word {
    if e.FetchOr? then e.mask - s.word else {}
  }

  /** The bits a step reports to a waiter. */
  function Told(s: State, e: Event): Word
    requires Enabled(s, e)
  {
    match e
    case FetchAnd(_, mask) => s.word * mask
    case Collect(t) => s.word * PcOf(s, t).mask
    case _ => {}
  }

  /** A run of any number of threads from a word in which nothing happened yet. */
  ghost predicate Run(states: seq<State>, events: seq<Event>) {
    && |states| == |events| + 1
    && states[0].threads == map[]
    && forall i | 0 <= i < |events| :: Enabled(states[i], events[i]) && states[i + 1] == Step(states[i], events[i])
  }

  // No lost wake-up.

  /** Some thread has set this bit and is about to wake the sleepers. */
  ghost predicate WakePending(s: State, k: Bit) {
    exists t :: PcOf(s, t).Waking? && k in PcOf(s, t).mask
  }

  /** Every set bit that a sleeper waits for is about to be announced. */
  ghost predicate NoLostWakeup(s: State) {
    forall t, k | PcOf(s, t).Sleeping? && k in PcOf(s, t).mask && k in s.word :: WakePending(s, k)
  }

  /** A thread about to sleep expects a word without its own bits. */
  ghost predicate ExpectationsOk(s: State) {
    forall t | PcOf(s, t).Checked? :: PcOf(s, t).expected * PcOf(s, t).mask == {}
  }

  lemma StepOthers(s: State, e: Event, u: Tid)
    requires Enabled(s, e) && u != e.t
    ensures PcOf(Step(s, e), u) ==
            (if e.FutexWake? && PcOf(s, u).Sleeping? && PcOf(s, u).mask * PcOf(s, e.t).mask != {}
             then Woken(PcOf(s, u).mask)
             else PcOf(s, u))
    ensures e.FutexWake? && PcOf(Step(s, e), u).Sleeping? ==> PcOf(s, u).mask !! PcOf(s, e.t).mask
  {
    if e.FutexWake? && PcOf(Step(s, e), u).Sleeping? {
      assert PcOf(s, u).mask * PcOf(s, e.t).mask == {};
      forall k | k in PcOf(s, u).mask ensures k !in PcOf(s, e.t).mask {
        assert k !in PcOf(s, u).mask * PcOf(s, e.t).mask;
      }
    }
  }

  lemma StepKeepsExpectations(s: State, e: Event)
    requires Enabled(s, e) && ExpectationsOk(s)
    ensures ExpectationsOk(Step(s, e))
  {
    hide Step;
    var s' := Step(s, e);
    forall u | PcOf(s', u).Checked? ensures PcOf(s', u).expected * PcOf(s', u).mask == {} {
      if u != e.t {
        StepOthers(s, e, u);
      } else {
        StepSelf(s, e);
      }
    }
  }

  lemma StepSelf(s: State, e: Event)
    requires Enabled(s, e)
    ensures match e
            case FetchOr(t, mask) => PcOf(Step(s, e), t) == if mask - s.word != {} then Waking(mask) else Idle
            case FetchAnd(t, mask) =>
              PcOf(Step(s, e), t) == if s.word * mask != {} then Idle else Checked(mask, s.word - mask)
            case FutexWait(t) =>
              PcOf(Step(s, e), t) == if s.word == PcOf(s, t).expected then Sleeping(PcOf(s, t).mask) else Idle
            case WakeUp(t) => PcOf(Step(s, e), t) == Woken(PcOf(s, t).mask)
            case _ => PcOf(Step(s, e), e.t) == Idle
    ensures Step(s, e).word == match e
                               case FetchOr(_, mask) => s.word + mask
                               case FetchAnd(_, mask) => s.word - mask
                               case Collect(t) => s.word - PcOf(s, t).mask
                               case _ => s.word
  {
  }

  /** A pending wake stays pending until it happens. */
  lemma PendingKept(s: State, e: Event, k: Bit)
    requires Enabled(s, e) && WakePending(s, k)
    requires e.FutexWake? ==> k !in PcOf(s, e.t).mask
    ensures WakePending(Step(s, e), k)
  {
    hide Step;
    var t :| PcOf(s, t).Waking? && k in PcOf(s, t).mask;
    StepOthers(s, e, t);
    assert PcOf(Step(s, e), t).Waking?;
  }

  lemma StepKeepsWakeups(s: State, e: Event)
    requires Enabled(s, e) && NoLostWakeup(s) && ExpectationsOk(s)
    ensures NoLostWakeup(Step(s, e))
  {
    hide Step;
    var s' := Step(s, e);
    StepSelf(s, e);
    assert PcOf(s', e.t).Sleeping? ==> forall k | k in s'.word :: k !in PcOf(s', e.t).mask by {
      if PcOf(s', e.t).Sleeping? {
        forall k | k in s'.word ensures k !in PcOf(s', e.t).mask {
          assert k !in PcOf(s, e.t).expected * PcOf(s, e.t).mask;
        }
      }
    }
    forall u, k | PcOf(s', u).Sleeping? && k in PcOf(s', u).mask && k in s'.word ensures WakePending(s', k) {
      if u != e.t {
        StepOthers(s, e, u);
        if k in s.word {
          PendingKept(s, e, k);
        } else {
          assert k in e.mask - s.word;
          assert PcOf(s', e.t) == Waking(e.mask);
        }
      }
    }
  }

  /** In every state of every run, no sleeper misses a bit that is set. */
  lemma {:induction false} NothingLost(states: seq<State>, events: seq<Event>, i: nat)
    requires Run(states, events) && i < |states|
    ensures NoLostWakeup(states[i]) && ExpectationsOk(states[i])
  {
    if i > 0 {
      NothingLost(states, events, i - 1);
      StepKeepsExpectations(states[i - 1], events[i - 1]);
      StepKeepsWakeups(states[i - 1], events[i - 1]);
    }
  }

  /** Once no wake call is outstanding, no thread sleeps on a bit that is set. */
  lemma QuietMeansServed(states: seq<State>, events: seq<Event>, i: nat, t: Tid)
    requires Run(states, events) && i < |states|
    requires forall u :: !PcOf(states[i], u).Waking?
    requires PcOf(states[i], t).Sleeping?
    ensures states[i].word * PcOf(states[i], t).mask == {}
  {
    NothingLost(states, events, i);
    forall k | k in states[i].word ensures k !in PcOf(states[i], t).mask {
      assert !WakePending(states[i], k);
    }
  }

  /** A thread that sleeps on a set bit is woken by the outstanding wake call for it. */
  lemma PendingWakes(states: seq<State>, events: seq<Event>, i: nat, t: Tid, k: Bit)
    requires Run(states, events) && i < |states|
    requires PcOf(states[i], t).Sleeping? && k in PcOf(states[i], t).mask && k in states[i].word
    ensures exists u ::
              && Enabled(states[i], FutexWake(u))
              && PcOf(Step(states[i], FutexWake(u)), t) == Woken(PcOf(states[i], t).mask)
  {
    hide Step;
    NothingLost(states, events, i);
    var u :| PcOf(states[i], u).Waking? && k in PcOf(states[i], u).mask;
    assert k in PcOf(states[i], t).mask * PcOf(states[i], u).mask;
    StepOthers(states[i], FutexWake(u), t);
    assert Enabled(states[i], FutexWake(u));
  }

  // Conservation.

  ghost function Raises(states: seq<State>, events: seq<Event>, k: Bit, n: nat): nat
    requires Run(states, events) && n <= |events|
  {
    if n == 0 then 0 else Raises(states, events, k, n - 1) + One(k in Raised(states[n - 1], events[n - 1]))
  }

  ghost function Reports(states: seq<State>, events: seq<Event>, k: Bit, n: nat): nat
    requires Run(states, events) && n <= |events|
  {
    if n == 0 then 0 else Reports(states, events, k, n - 1) + One(k in Told(states[n - 1], events[n - 1]))
  }

  /** A step accounts for every change of a bit. */
  lemma StepConserves(s: State, e: Event, k: Bit)
    requires Enabled(s, e)
    ensures One(k in s.word) + One(k in Raised(s, e)) == One(k in Told(s, e)) + One(k in Step(s, e).word)
    ensures Raised(s, e) == Step(s, e).word - s.word && Told(s, e) == s.word - Step(s, e).word
  {
    hide Step;
    StepSelf(s, e);
  }

  /** No thread is ever stuck inside a call: each one can take a step of its own. */
  lemma NeverStuck(s: State, t: Tid)
    ensures exists e :: Enabled(s, e) && e.t == t
    ensures PcOf(s, t).Woken? ==> Enabled(s, Collect(t)) && PcOf(Step(s, Collect(t)), t) == Idle
    ensures PcOf(s, t).Checked? ==> Enabled(s, FutexWait(t))
  {
    var e := match PcOf(s, t)
             case Idle => FetchOr(t, {0})
             case Waking(_) => FutexWake(t)
             case Checked(_, _) => FutexWait(t)
             case Sleeping(_) => GiveUp(t)
             case Woken(_) => Collect(t);
    assert Enabled(s, e) && e.t == t;
  }

  /** A waiter that finds one of its bits takes exactly those bits and does not sleep. */
  lemma FoundAtOnce(s: State, t: Tid, mask: Word)
    requires PcOf(s, t) == Idle && mask != {}
    ensures var s' := Step(s, FetchAnd(t, mask));
            if s.word * mask == {} then PcOf(s', t).Checked? && s'.word == s.word
            else PcOf(s', t) == Idle && Told(s, FetchAnd(t, mask)) == s.word * mask && s'.word * mask == {}
  {
    if s.word * mask == {} {
      forall k | k in s.word ensures k !in mask {
        assert k !in s.word * mask;
      }
      assert s.word - mask == s.word;
    }
  }

  /** In every run, each bit raised was told to a waiter once or is still set. */
  lemma {:induction false} BitsConserved(states: seq<State>, events: seq<Event>, k: Bit, n: nat)
    requires Run(states, events) && n <= |events|
    ensures One(k in states[0].word) + Raises(states, events, k, n) ==
            Reports(states, events, k, n) + One(k in states[n].word)
  {
    hide Step, Raised, Told, One;
    if n > 0 {
      BitsConserved(states, events, k, n - 1);
      StepConserves(states[n - 1], events[n - 1], k);
    }
  }
}
