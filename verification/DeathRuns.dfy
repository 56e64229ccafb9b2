/** Runs in which any number of threads link, unlink and send obituaries on one proxy. */
module DeathRuns {
  import opened Wrappers
  import opened Basics
  import opened DeathNotices

  type Tid = nat

  /** A thread inside sendObituary: past the unlocked test, or reporting what it took. */
  datatype Sender = Entered | Reporting(list: seq<Obituary>, next: nat)

  datatype State = State(
    proxy: Proxy,
    senders: map<Tid, Sender>,
    linked: multiset<Obituary>,     // successful links
    unlinked: multiset<Obituary>,   // entries removed by successful unlinks
    taken: seq<Obituary>,           // entries taken for reporting
    reported: seq<Obituary>)        // entries reported, in order

  datatype Event =
    | Link(o: Obituary)
    | Unlink(recipient: Option<Recipient>, cookie: nat, flags: nat)
    | Enter(t: Tid)
    | Take(t: Tid)
    | Report(t: Tid)
    | Leave(t: Tid)

  predicate Enabled(s: State, e: Event) {
    match e
    case Link(_) => true
    case Unlink(_, _, _) => true
    case Enter(t) => t !in s.senders
    case Take(t) => t in s.senders && s.senders[t].Entered?
    case Report(t) => t in s.senders && s.senders[t].Reporting? && s.senders[t].next < |s.senders[t].list|
    case Leave(t) => t in s.senders && s.senders[t].Reporting? && s.senders[t].next >= |s.senders[t].list|
  }

  function Step(s: State, e: Event): State
    requires Enabled(s, e)
  {
    match e
    case Link(o) =>
      var (p, status) := DeathNotices.Link(s.proxy, o);
      s.(proxy := p, linked := if status == NO_ERROR then s.linked + multiset{o} else s.linked)
    case Unlink(r, cookie, flags) =>
      var (p, status, removed) := DeathNotices.Unlink(s.proxy, r, cookie, flags);
      s.(proxy := p, unlinked := if removed.Some? then s.unlinked + multiset{removed.value} else s.unlinked)
    case Enter(t) =>
      var p := s.proxy.(alive := false);
      if p.obitsSent then s.(proxy := p) else s.(proxy := p, senders := s.senders[t := Entered])
    case Take(t) =>
      var (p, list) := DeathNotices.Take(s.proxy);
      s.(proxy := p, senders := s.senders[t := Reporting(list, 0)], taken := s.taken + list)
    case Report(t) =>
      var Reporting(list, next) := s.senders[t];
      s.(senders := s.senders[t := Reporting(list, next + 1)], reported := s.reported + [list[next]])
    case Leave(t) =>
      s.(senders := s.senders - {t})
  }

  const INITIAL: State := State(Proxy(true, false, None, 0, 0), map[], multiset{}, multiset{}, [], [])

  ghost predicate Run(states: seq<State>, events: seq<Event>) {
    && |states| == |events| + 1 && states[0] == INITIAL
    && forall i | 0 <= i < |events| :: Enabled(states[i], events[i]) && states[i + 1] == Step(states[i], events[i])
  }

  /** The list exists only while it has entries, and not after obituaries were sent. */
  predicate ListOk(p: Proxy) {
    && (p.obituaries.Some? ==> p.obituaries.value != [] && !p.obitsSent)
    && p.requests == p.clears + One(p.obituaries.Some?)
  }

  /** Every successful link was undone, is listed, or was taken. */
  predicate Accounted(s: State) {
    s.linked == s.unlinked + multiset(Listed(s.proxy)) + multiset(s.taken)
  }

  /**
   A thread with something to report has taken everything that was ever taken, and
   has reported exactly its part so far.
   */
  ghost predicate Reports(s: State) {
    && (s.taken != [] ==> s.proxy.obitsSent)
    && |s.reported| <= |s.taken| && s.reported == s.taken[..|s.reported|]
    && (forall t | t in s.senders && s.senders[t].Reporting? && s.senders[t].list != [] ::
          s.senders[t] == Reporting(s.taken, |s.reported|))
    && (forall t, u | t in s.senders && u in s.senders && s.senders[t].Reporting? && s.senders[u].Reporting?
                      && s.senders[t].list != [] && s.senders[u].list != [] :: t == u)
    && (s.reported != s.taken ==> exists t :: t in s.senders && s.senders[t] == Reporting(s.taken, |s.reported|))
  }

  ghost predicate Inv(s: State) {
    ListOk(s.proxy) && Accounted(s) && Reports(s)
  }

  lemma RemoveOne(l: seq<Obituary>, i: nat)
    requires i < |l|
    ensures multiset(l) == multiset(l[..i] + l[i + 1..]) + multiset{l[i]}
  {
    assert l == l[..i] + [l[i]] + l[i + 1..];
  }

  lemma LinkAccounts(p: Proxy, o: Obituary)
    requires ListOk(p)
    ensures var (q, status) := DeathNotices.Link(p, o);
            && ListOk(q)
            && multiset(Listed(q)) == multiset(Listed(p)) + if status == NO_ERROR then multiset{o} else multiset{}
  {
  }

  lemma UnlinkAccounts(p: Proxy, recipient: Option<Recipient>, cookie: nat, flags: nat)
    requires ListOk(p)
    ensures var (q, status, removed) := DeathNotices.Unlink(p, recipient, cookie, flags);
            && ListOk(q)
            && multiset(Listed(p)) ==
               multiset(Listed(q)) + if removed.Some? then multiset{removed.value} else multiset{}
  {
    var l := Listed(p);
    var i := FirstMatch(l, recipient, cookie, flags);
    if !p.obitsSent && i < |l| {
      RemoveOne(l, i);
    }
  }

  lemma StepProxy(s: State, e: Event)
    requires Enabled(s, e) && ListOk(s.proxy) && Accounted(s)
    ensures ListOk(Step(s, e).proxy) && Accounted(Step(s, e))
  {
    hide ListOk, Accounted, Step;
    match e
    case Link(o) => LinkStep(s, o);
    case Unlink(r, cookie, flags) => UnlinkStep(s, r, cookie, flags);
    case Take(t) => TakeStep(s, t);
    case Enter(t) => EnterStep(s, t);
    case _ => SenderStep(s, e);
  }

  lemma LinkStep(s: State, o: Obituary)
    requires ListOk(s.proxy) && Accounted(s)
    ensures ListOk(Step(s, Link(o)).proxy) && Accounted(Step(s, Link(o)))
  {
    hide DeathNotices.Link, ListOk, Listed;
    LinkAccounts(s.proxy, o);
  }

  lemma UnlinkStep(s: State, r: Option<Recipient>, cookie: nat, flags: nat)
    requires ListOk(s.proxy) && Accounted(s)
    ensures ListOk(Step(s, Unlink(r, cookie, flags)).proxy) && Accounted(Step(s, Unlink(r, cookie, flags)))
  {
    hide DeathNotices.Unlink, ListOk, Listed;
    UnlinkAccounts(s.proxy, r, cookie, flags);
  }

  lemma TakeStep(s: State, t: Tid)
    requires Enabled(s, Take(t)) && ListOk(s.proxy) && Accounted(s)
    ensures ListOk(Step(s, Take(t)).proxy) && Accounted(Step(s, Take(t)))
  {
    hide DeathNotices.Take, ListOk, Listed;
    TakeAccounts(s.proxy, s.taken);
  }

  lemma EnterStep(s: State, t: Tid)
    requires Enabled(s, Enter(t)) && ListOk(s.proxy) && Accounted(s)
    ensures ListOk(Step(s, Enter(t)).proxy) && Accounted(Step(s, Enter(t)))
  {
  }

  /** Reporting and leaving do not touch the proxy. */
  lemma SenderStep(s: State, e: Event)
    requires Enabled(s, e) && (e.Report? || e.Leave?)
    ensures var s' := Step(s, e);
            s'.proxy == s.proxy && s'.linked == s.linked && s'.unlinked == s.unlinked && s'.taken == s.taken
    ensures Accounted(s) ==> Accounted(Step(s, e))
  {
  }

  lemma TakeAccounts(p: Proxy, taken: seq<Obituary>)
    requires ListOk(p)
    ensures var (q, list) := DeathNotices.Take(p);
            && ListOk(q) && Listed(q) == [] && list == Listed(p)
            && multiset(taken + list) == multiset(taken) + multiset(Listed(p))
  {
  }

  lemma StepReports(s: State, e: Event)
    requires Enabled(s, e) && Inv(s)
    ensures Reports(Step(s, e))
  {
    hide Accounted, DeathNotices.Link, DeathNotices.Unlink;
    match e
    case Take(t) => TakeReports(s, t);
    case Report(t) => ReportReports(s, t);
    case Link(o) => SentKept(s.proxy, o); KeptReporter(s, Step(s, e));
    case Unlink(r, cookie, flags) => SentKeptUnlink(s.proxy, r, cookie, flags); KeptReporter(s, Step(s, e));
    case _ => KeptReporter(s, Step(s, e));
  }

  lemma SentKept(p: Proxy, o: Obituary)
    ensures DeathNotices.Link(p, o).0.obitsSent == p.obitsSent
  {
  }

  lemma SentKeptUnlink(p: Proxy, recipient: Option<Recipient>, cookie: nat, flags: nat)
    ensures DeathNotices.Unlink(p, recipient, cookie, flags).0.obitsSent == p.obitsSent
  {
  }

  lemma TakeReports(s: State, t: Tid)
    requires Enabled(s, Take(t)) && ListOk(s.proxy) && Reports(s)
    ensures Reports(Step(s, Take(t)))
  {
    var s' := Step(s, Take(t));
    var list := Listed(s.proxy);
    if list != [] {
      assert s.taken == [] && s'.taken == list && s.reported == [];
      assert s'.senders[t] == Reporting(s'.taken, |s'.reported|);
    } else {
      assert s'.taken == s.taken;
      KeptReporter(s, s');
    }
  }

  lemma ReportReports(s: State, t: Tid)
    requires Enabled(s, Report(t)) && Reports(s)
    ensures Reports(Step(s, Report(t)))
  {
    var s' := Step(s, Report(t));
    var n := |s.reported|;
    assert s.senders[t] == Reporting(s.taken, n);
    assert s'.reported == s.taken[..n] + [s.taken[n]] == s.taken[..n + 1];
    assert s'.senders[t] == Reporting(s'.taken, |s'.reported|);
  }

  lemma KeptReporter(s: State, s': State)
    requires s'.taken == s.taken && s'.reported == s.reported
    requires forall t | t in s.senders && s.senders[t].Reporting? && s.senders[t].next < |s.senders[t].list| ::
               t in s'.senders && s'.senders[t] == s.senders[t]
    requires |s.reported| <= |s.taken| && s.reported == s.taken[..|s.reported|]
    requires s.reported != s.taken ==> exists t :: t in s.senders && s.senders[t] == Reporting(s.taken, |s.reported|)
    ensures s'.reported != s'.taken ==>
              exists t :: t in s'.senders && s'.senders[t] == Reporting(s'.taken, |s'.reported|)
  {
    if s.reported != s.taken {
      var t :| t in s.senders && s.senders[t] == Reporting(s.taken, |s.reported|);
      assert |s.reported| < |s.taken|;
      assert t in s'.senders && s'.senders[t] == Reporting(s'.taken, |s'.reported|);
    }
  }

  /**
   In every state of every run: successful links are the successful unlinks, the
   listed entries and the taken ones; the reports made so far are a prefix of what was
   taken; and a death notification is outstanding exactly while the list exists.
   */
  lemma {:induction false} AlwaysInv(states: seq<State>, events: seq<Event>, i: nat)
    requires Run(states, events) && i < |states|
    ensures Inv(states[i])
  {
    if i > 0 {
      AlwaysInv(states, events, i - 1);
      StepProxy(states[i - 1], events[i - 1]);
      StepReports(states[i - 1], events[i - 1]);
    }
  }

  /** Once no thread is inside sendObituary, every taken entry has been reported exactly once, in order. */
  lemma AllReported(states: seq<State>, events: seq<Event>, i: nat)
    requires Run(states, events) && i < |states| && states[i].senders == map[]
    ensures states[i].reported == states[i].taken
    ensures states[i].linked == states[i].unlinked + multiset(Listed(states[i].proxy)) + multiset(states[i].reported)
  {
    AlwaysInv(states, events, i);
  }

  /** After obituaries were sent nothing is linked or listed any more. */
  lemma {:induction false} DeadStaysDead(states: seq<State>, events: seq<Event>, i: nat, j: nat)
    requires Run(states, events) && i <= j < |states| && states[i].proxy.obitsSent
    ensures states[j].proxy.obitsSent && states[j].linked == states[i].linked && Listed(states[j].proxy) == []
    ensures states[j].taken == states[i].taken
  {
    hide Step, Accounted, Reports;
    AlwaysInv(states, events, j);
    if i < j {
      DeadStaysDead(states, events, i, j - 1);
      DeadStep(states[j - 1], events[j - 1]);
    }
  }

  lemma DeadStep(s: State, e: Event)
    requires Enabled(s, e) && s.proxy.obitsSent && Listed(s.proxy) == []
    ensures var s' := Step(s, e);
            s'.proxy.obitsSent && s'.linked == s.linked && Listed(s'.proxy) == [] && s'.taken == s.taken
  {
  }

  // Order.

  /** The recipients of the successful links among the first n events, in order. */
  ghost function InOrder(states: seq<State>, events: seq<Event>, n: nat): seq<Obituary>
    requires Run(states, events) && n <= |events|
  {
    if n == 0 then []
    else InOrder(states, events, n - 1) +
         if events[n - 1].Link? && !states[n - 1].proxy.obitsSent then [events[n - 1].o] else []
  }

  /** As long as nobody unlinks, recipients are taken and reported in the order in which they linked. */
  lemma {:induction false} OrderKept(states: seq<State>, events: seq<Event>, n: nat)
    requires Run(states, events) && n <= |events| && forall i | 0 <= i < n :: !events[i].Unlink?
    ensures states[n].taken + Listed(states[n].proxy) == InOrder(states, events, n)
    ensures |states[n].reported| <= |InOrder(states, events, n)|
    ensures states[n].reported == InOrder(states, events, n)[..|states[n].reported|]
  {
    hide Step, Reports, Accounted, ListOk;
    AlwaysInv(states, events, n);
    if n > 0 {
      OrderKept(states, events, n - 1);
      StepOrder(states[n - 1], events[n - 1]);
    } else {
      NothingTaken();
    }
    ReportedFront(states[n]);
  }

  lemma NothingTaken()
    ensures INITIAL.taken + Listed(INITIAL.proxy) == []
  {
  }

  lemma ReportedFront(s: State)
    requires Reports(s)
    ensures |s.reported| <= |s.taken| && s.reported == s.taken[..|s.reported|]
  {
  }

  lemma StepOrder(s: State, e: Event)
    requires Enabled(s, e) && !e.Unlink?
    ensures var s' := Step(s, e);
            s'.taken + Listed(s'.proxy) ==
            (s.taken + Listed(s.proxy)) + if e.Link? && !s.proxy.obitsSent then [e.o] else []
  {
    match e
    case Link(o) => LinkMeans(s.proxy, o);
    case _ =>
  }

  /** Once obituaries were sent, a late sender finds nothing to do. */
  lemma LateSender(s: State, t: Tid)
    requires Enabled(s, Enter(t)) && s.proxy.obitsSent
    ensures Step(s, Enter(t)) == s.(proxy := s.proxy.(alive := false))
  {
  }
}
