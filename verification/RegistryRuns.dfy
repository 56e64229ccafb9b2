/** The registry over every history of registrations and deaths. */
module RegistryRuns {
  import opened Wrappers
  import opened Registry

  datatype Event = Adding(a: Addition) | Died(s: Service) | Awaiting(fq: string, name: string)

  function Step(r: Reg, e: Event): Reg {
    match e
    case Adding(a) => Add(r, a)
    case Died(s) => Die(r, s)
    case Awaiting(fq, name) => Await(r, fq, name)
  }

  /** The registry after a history of events. */
  function After(history: seq<Event>): Reg {
    if history == [] then EMPTY else Step(After(history[..|history| - 1]), history[|history| - 1])
  }

  /** A successful add for this pair of names. */
  predicate Covers(e: Event, fq: string, name: string) {
    e.Adding? && Admitted(e.a) && e.a.name == name && fq in e.a.chain.value
  }

  /** The last event that covers the pair, or -1. */
  function LastCover(history: seq<Event>, fq: string, name: string): (i: int)
    ensures -1 <= i < |history|
    ensures i >= 0 ==> Covers(history[i], fq, name)
    ensures forall j | i < j < |history| :: !Covers(history[j], fq, name)
  {
    if history == [] then -1
    else
      var n := |history| - 1;
      if Covers(history[n], fq, name) then n else LastCover(history[..n], fq, name)
  }

  ghost predicate DiedSince(history: seq<Event>, i: nat, s: Service) {
    exists j :: i < j < |history| && history[j] == Died(s)
  }

  /** What the history says about a pair: the service added last, unless its death was reported since. */
  ghost function Expected(history: seq<Event>, fq: string, name: string): Option<Service> {
    var i := LastCover(history, fq, name);
    if i < 0 then None
    else if DiedSince(history, i, history[i].a.service.value) then None
    else history[i].a.service
  }

  lemma ExpectedSnoc(history: seq<Event>, e: Event, fq: string, name: string)
    ensures Expected(history + [e], fq, name) ==
            if Covers(e, fq, name) then e.a.service
            else if e.Died? && Expected(history, fq, name) == Some(e.s) then None
            else Expected(history, fq, name)
  {
    var h := history + [e];
    var n := |history|;
    assert h[..n] == history;
    if !Covers(e, fq, name) {
      var i := LastCover(history, fq, name);
      assert LastCover(h, fq, name) == i;
      if i >= 0 {
        var s := history[i].a.service.value;
        assert DiedSince(h, i, s) <==> DiedSince(history, i, s) || e == Died(s) by {
          if DiedSince(history, i, s) {
            var j :| i < j < |history| && history[j] == Died(s);
            assert h[j] == Died(s);
          }
          if e == Died(s) {
            assert h[n] == Died(s);
          }
          if DiedSince(h, i, s) && e != Died(s) {
            var j :| i < j < |h| && h[j] == Died(s);
            assert history[j] == Died(s);
          }
        }
      }
    }
  }

  /** The registry says exactly what its history says. */
  lemma {:induction false} RefinesHistory(history: seq<Event>, fq: string, name: string)
    ensures Registered(After(history), fq, name) == Expected(history, fq, name)
  {
    hide Registered, Expected, Add, Die, Await, Admitted;
    if history == [] {
      NothingYet(fq, name);
    } else {
      var n := |history| - 1;
      var before, e := history[..n], history[n];
      RefinesHistory(before, fq, name);
      assert before + [e] == history;
      ExpectedSnoc(before, e, fq, name);
      match e
      case Adding(a) => AddOk(After(before), a, fq, name);
      case Died(s) => DieOk(After(before), s, fq, name);
      case Awaiting(f, m) => AwaitOk(After(before), f, m, fq, name);
    }
  }

  lemma NothingYet(fq: string, name: string)
    ensures Registered(After([]), fq, name) == None && Expected([], fq, name) == None
  {
  }

  /** Every entry is stored under its own names. */
  lemma {:induction false} AlwaysNames(history: seq<Event>)
    ensures NamesOk(After(history))
  {
    hide NamesOk, Add, Die, Await;
    if history == [] {
      EmptyNames();
    } else {
      var n := |history| - 1;
      var before := history[..n];
      AlwaysNames(before);
      match history[n]
      case Adding(a) => AddNames(After(before), a);
      case Died(s) => DieNames(After(before), s);
      case Awaiting(f, m) => AwaitNames(After(before), f, m);
    }
  }

  lemma EmptyNames()
    ensures NamesOk(EMPTY)
  {
  }

  // Death links.

  /** Every registered service is linked to death, so that its death will be reported. */
  ghost predicate Watched(r: Reg) {
    forall f, n | Registered(r, f, n).Some? :: r.links[Registered(r, f, n).value] > 0
  }

  /**
   How many links of t the first k turns of the loop take away: at every position
   where unlinking works and the entry holds t, which after an earlier turn for the
   same interface is the added service.
   */
  function Lost(r: Reg, chain: seq<string>, k: nat, name: string, s: Service, kept: set<nat>, t: Service): nat
    requires k <= |chain|
  {
    if k == 0 then 0
    else
      var held := if chain[k - 1] in chain[..k - 1] then Some(s) else Registered(r, chain[k - 1], name);
      Lost(r, chain, k - 1, name, s, kept, t) + if k - 1 !in kept && held == Some(t) then 1 else 0
  }

  /** The links of t that one add takes away. */
  function Cost(r: Reg, a: Addition, t: Service): nat
    requires Admitted(a)
  {
    Lost(r, a.chain.value, |a.chain.value|, a.name, a.service.value, a.kept, t)
  }

  lemma PutLinks(r: Reg, fq: string, name: string, s: Service, pid: int, unlinks: bool, t: Service)
    ensures Put(r, fq, name, s, pid, unlinks).links[t] ==
            if unlinks && Registered(r, fq, name) == Some(t) && r.links[t] > 0 then r.links[t] - 1 else r.links[t]
  {
  }

  /** Each entry that is given up costs the service it held one link. */
  lemma {:induction false} PutAllLinks(r: Reg, chain: seq<string>, k: nat, name: string, s: Service, pid: int,
                                       kept: set<nat>, t: Service)
    requires k <= |chain|
    ensures var m := Lost(r, chain, k, name, s, kept, t);
            PutAll(r, chain, k, name, s, pid, kept).links[t] == if r.links[t] > m then r.links[t] - m else 0
  {
    hide Put, Registered;
    if k > 0 {
      PutAllLinks(r, chain, k - 1, name, s, pid, kept, t);
      var q := PutAll(r, chain, k - 1, name, s, pid, kept);
      PutLinks(q, chain[k - 1], name, s, pid, k - 1 !in kept, t);
      PutAllOk(r, chain, k - 1, name, s, pid, kept, chain[k - 1], name);
    }
  }

  /** If every unlink fails, no link is lost, and one is gained if linking works. */
  lemma NothingUnlinked(r: Reg, a: Addition, t: Service)
    requires Admitted(a) && forall i: nat | i < |a.chain.value| :: i in a.kept
    ensures Add(r, a).links[t] == r.links[t] + if a.linked && Some(t) == a.service then 1 else 0
  {
    hide PutAll, Lost;
    var chain := a.chain.value;
    PutAllLinks(r, chain, |chain|, a.name, a.service.value, a.pid, a.kept, t);
    NothingLost(r, chain, |chain|, a.name, a.service.value, a.kept, t);
  }

  lemma {:induction false} NothingLost(r: Reg, chain: seq<string>, k: nat, name: string, s: Service, kept: set<nat>,
                                       t: Service)
    requires k <= |chain| && forall i: nat | i < |chain| :: i in kept
    ensures Lost(r, chain, k, name, s, kept, t) == 0
  {
    hide Registered;
    if k > 0 {
      NothingLost(r, chain, k - 1, name, s, kept, t);
    }
  }

  /**
   The added service is linked or keeps a link from before, and every service that
   the add leaves registered elsewhere has more links than it takes away.
   */
  ghost predicate LinksSuffice(r: Reg, a: Addition)
    requires Admitted(a)
  {
    && (a.linked || r.links[a.service.value] > Cost(r, a, a.service.value))
    && forall f, n | Registered(r, f, n).Some? && Registered(r, f, n) != a.service
                     && !(n == a.name && f in a.chain.value) ::
         r.links[Registered(r, f, n).value] > Cost(r, a, Registered(r, f, n).value)
  }

  /** An add leaves every registered service linked exactly when the links suffice. */
  lemma WatchedAfterAdd(r: Reg, a: Addition)
    requires Admitted(a)
    ensures Watched(Add(r, a)) <==> LinksSuffice(r, a)
  {
    hide Registered, Put, PutAll, Lost;
    var q := Add(r, a);
    var chain, s := a.chain.value, a.service.value;
    forall f, n ensures Registered(q, f, n) == if n == a.name && f in chain then a.service else Registered(r, f, n) {
      AddOk(r, a, f, n);
    }
    forall t: Service ensures q.links[t] > 0 <==> (t == s && a.linked) || r.links[t] > Cost(r, a, t) {
      PutAllLinks(r, chain, |chain|, a.name, s, a.pid, a.kept, t);
    }
    LinksCompare(r, q, a);
  }

  lemma LinksCompare(r: Reg, q: Reg, a: Addition)
    requires Admitted(a)
    requires forall f, n ::
               Registered(q, f, n) == if n == a.name && f in a.chain.value then a.service else Registered(r, f, n)
    requires forall t: Service :: q.links[t] > 0 <==> (Some(t) == a.service && a.linked) || r.links[t] > Cost(r, a, t)
    ensures Watched(q) <==> LinksSuffice(r, a)
  {
    hide Registered, Cost;
    assert Registered(q, a.chain.value[0], a.name) == a.service;
    if LinksSuffice(r, a) {
      forall f, n | Registered(q, f, n).Some? ensures q.links[Registered(q, f, n).value] > 0 {
        var t := Registered(q, f, n).value;
        if t != a.service.value {
          assert Registered(r, f, n) == Some(t);
        }
      }
    }
    if Watched(q) {
      forall f, n | Registered(r, f, n).Some? && Registered(r, f, n) != a.service
                    && !(n == a.name && f in a.chain.value)
        ensures r.links[Registered(r, f, n).value] > Cost(r, a, Registered(r, f, n).value)
      {
        assert Registered(q, f, n) == Registered(r, f, n);
      }
    }
  }

  /** The registry after the first k events. */
  ghost function Moment(history: seq<Event>, k: nat): Reg
    requires k <= |history|
  {
    After(history[..k])
  }

  lemma NextMoment(history: seq<Event>, k: nat)
    requires k < |history|
    ensures Moment(history, k + 1) == Step(Moment(history, k), history[k])
  {
    assert history[..k + 1][..k] == history[..k];
  }

  /** Every add among the first m events finds links that suffice. */
  ghost predicate AddsSuffice(history: seq<Event>, m: nat)
    requires m <= |history|
  {
    forall i | 0 <= i < m && history[i].Adding? && Admitted(history[i].a) ::
      LinksSuffice(Moment(history, i), history[i].a)
  }

  /** The registry is watched at every moment up to the m-th event. */
  ghost predicate AlwaysWatched(history: seq<Event>, m: nat)
    requires m <= |history|
  {
    forall k | 0 <= k <= m :: Watched(Moment(history, k))
  }

  lemma StepWatched(r: Reg, e: Event)
    requires Watched(r)
    ensures Watched(Step(r, e)) <==> (e.Adding? && Admitted(e.a) ==> LinksSuffice(r, e.a))
  {
    hide Registered, Add, Die, Await, LinksSuffice;
    match e
    case Adding(a) =>
      if Admitted(a) {
        WatchedAfterAdd(r, a);
      } else {
        AddOk(r, a, "", "");
      }
    case Died(s) =>
      DieLinks(r, s);
      forall f, n
        ensures Registered(Die(r, s), f, n) == if Registered(r, f, n) == Some(s) then None else Registered(r, f, n)
      {
        DieOk(r, s, f, n);
      }
    case Awaiting(fq, name) =>
      AwaitLinks(r, fq, name);
      forall f, n ensures Registered(Await(r, fq, name), f, n) == Registered(r, f, n) {
        AwaitOk(r, fq, name, f, n);
      }
  }

  lemma DieLinks(r: Reg, s: Service)
    ensures forall t | t != s :: Die(r, s).links[t] == r.links[t]
  {
  }

  lemma AwaitLinks(r: Reg, fq: string, name: string)
    ensures Await(r, fq, name).links == r.links
  {
  }

  /** No registered service is ever without a death link exactly if every add finds links that suffice. */
  lemma {:induction false} WatchedHistory(history: seq<Event>, m: nat)
    requires m <= |history|
    ensures AlwaysWatched(history, m) <==> AddsSuffice(history, m)
  {
    hide Watched, LinksSuffice, Step, Admitted, Moment;
    if m == 0 {
      NothingWatched(history);
    } else {
      WatchedHistory(history, m - 1);
      NextMoment(history, m - 1);
      if AlwaysWatched(history, m - 1) {
        StepWatched(Moment(history, m - 1), history[m - 1]);
      }
    }
  }

  lemma NothingWatched(history: seq<Event>)
    ensures Watched(Moment(history, 0))
  {
  }

  /** A service that cannot be linked, because it died just then, is registered all the same. */
  lemma UnlinkedService(a: Addition)
    requires Admitted(a) && !a.linked
    ensures Registered(Add(EMPTY, a), a.chain.value[0], a.name) == a.service && !Watched(Add(EMPTY, a))
  {
    AddOk(EMPTY, a, a.chain.value[0], a.name);
    WatchedAfterAdd(EMPTY, a);
  }

  const FIRST: Addition :=
    Addition("default", Some(1), Some(["IFoo@1.1", "IFoo@1.0", "IBase"]), {"IFoo@1.1", "IFoo@1.0", "IBase"}, 100,
             true, {})
  const SECOND: Addition :=
    Addition("default", Some(2), Some(["IFoo@1.0", "IBase"]), {"IFoo@1.0", "IBase"}, 200, true, {})

  /**
   A service of version 1.1 of an interface that is replaced by one of version 1.0
   loses its only link but stays registered under version 1.1.
   */
  lemma OrphanedService()
    ensures var r := After([Adding(FIRST), Adding(SECOND)]);
            Registered(r, "IFoo@1.1", "default") == Some(1) && r.links[1] == 0 && !Watched(r)
  {
    hide Registered, Put, PutAll, Lost, Watched;
    var h1, h2 := [Adding(FIRST)], [Adding(FIRST), Adding(SECOND)];
    assert h2[..1] == h1 && h1[..0] == [];
    var r0, r1, r2 := After([]), After(h1), After(h2);
    assert r1 == Add(r0, FIRST) && r2 == Add(r1, SECOND);
    AddOk(r0, FIRST, "IFoo@1.1", "default");
    AddOk(r0, FIRST, "IFoo@1.0", "default");
    AddOk(r1, SECOND, "IFoo@1.1", "default");
    LinkedOnce();
    LostOne(r1);
    PutAllLinks(r1, ["IFoo@1.0", "IBase"], 2, "default", 2, 200, {}, 1);
    Unwatched(r2, "IFoo@1.1", "default", 1);
  }

  lemma Unwatched(r: Reg, f: string, n: string, s: Service)
    requires Registered(r, f, n) == Some(s) && r.links[s] == 0
    ensures !Watched(r)
  {
  }

  lemma LinkedOnce()
    ensures Add(EMPTY, FIRST).links[1] == 1
  {
    var chain := ["IFoo@1.1", "IFoo@1.0", "IBase"];
    var r1 := Put(EMPTY, chain[0], "default", 1, 100, true);
    var r2 := Put(r1, chain[1], "default", 1, 100, true);
    assert PutAll(EMPTY, chain, 1, "default", 1, 100, {}) == r1;
    assert PutAll(EMPTY, chain, 2, "default", 1, 100, {}) == r2;
    assert PutAll(EMPTY, chain, 3, "default", 1, 100, {}) == Put(r2, chain[2], "default", 1, 100, true);
    assert chain[0] != chain[1] by {
      assert chain[0][7] != chain[1][7];
    }
    assert |chain[0]| != |chain[2]| && |chain[1]| != |chain[2]|;
    assert Lookup(r1, chain[1], "default") == None && Lookup(r2, chain[2], "default") == None;
  }

  lemma LostOne(r: Reg)
    requires Registered(r, "IFoo@1.0", "default") == Some(1)
    ensures Lost(r, ["IFoo@1.0", "IBase"], 2, "default", 2, {}, 1) >= 1
  {
    hide Registered;
    var chain := ["IFoo@1.0", "IBase"];
    assert Lost(r, chain, 0, "default", 2, {}, 1) == 0;
    assert chain[..0] == [];
    assert Lost(r, chain, 1, "default", 2, {}, 1) == 1;
  }
}
