/**
 The registry of hwservicemanager (ServiceManager.cpp and HidlService.cpp): services
 by interface and instance name, and the death links that keep it current.
 */
module Registry {
  import opened Wrappers

  type Service = nat

  const NO_PID: int := -1

  /** HidlService: an entry exists without a service while someone waits for it. */
  datatype Entry = Entry(interfaceName: string, instanceName: string, service: Option<Service>, pid: int)

  type Instances = map<string, Entry>

  /**
   The nested maps, and how often each service is linked to death.  The links are
   entries in the lists of libhwbinder, which takes the whole list of a proxy
   before it reports a death.
   */
  datatype Reg = Reg(services: map<string, Instances>, links: multiset<Service>)

  const EMPTY: Reg := Reg(map[], multiset{})

  function Lookup(r: Reg, fq: string, name: string): Option<Entry> {
    if fq in r.services && name in r.services[fq] then Some(r.services[fq][name]) else None
  }

  /** The service registered under an interface and a name. */
  function Registered(r: Reg, fq: string, name: string): Option<Service> {
    var e := Lookup(r, fq, name);
    if e.Some? then e.value.service else None
  }

  function InstancesOf(r: Reg, fq: string): Instances {
    if fq in r.services then r.services[fq] else map[]
  }

  function Set(r: Reg, fq: string, name: string, e: Entry): Reg {
    r.(services := r.services[fq := InstancesOf(r, fq)[name := e]])
  }

  /** One interface of add: a new entry, or the old one with its service replaced and, if that works, unlinked. */
  function Put(r: Reg, fq: string, name: string, s: Service, pid: int, unlinks: bool): Reg {
    match Lookup(r, fq, name)
    case None => Set(r, fq, name, Entry(fq, name, Some(s), pid))
    case Some(e) =>
      var q := if e.service.Some? && unlinks then r.(links := r.links - multiset{e.service.value}) else r;
      Set(q, fq, name, e.(service := Some(s), pid := pid))
  }

  /** The loop of add over the first n interfaces of the chain; unlinking fails at the positions in `kept`. */
  function PutAll(r: Reg, chain: seq<string>, n: nat, name: string, s: Service, pid: int, kept: set<nat>): Reg
    requires n <= |chain|
  {
    if n == 0 then r
    else Put(PutAll(r, chain, n - 1, name, s, pid, kept), chain[n - 1], name, s, pid, n - 1 !in kept)
  }

  /**
   A request to add: no service, or one whose interface chain may not be available.
   Whether linking to the death of the service works, and at which positions of the
   chain unlinking from its predecessor fails, is up to libhwbinder; add ignores both.
   */
  datatype Addition = Addition(name: string, service: Option<Service>, chain: Option<seq<string>>,
                               allowed: set<string>, pid: int, linked: bool, kept: set<nat>)

  /** The whole chain is allowed, and there is one. */
  predicate Admitted(a: Addition) {
    && a.service.Some? && a.chain.Some? && a.chain.value != []
    && forall i | 0 <= i < |a.chain.value| :: a.chain.value[i] in a.allowed
  }

  /** add. */
  function Add(r: Reg, a: Addition): Reg {
    if !Admitted(a) then r
    else
      var q := PutAll(r, a.chain.value, |a.chain.value|, a.name, a.service.value, a.pid, a.kept);
      if a.linked then q.(links := q.links + multiset{a.service.value}) else q
  }

  function Cleared(instances: Instances, s: Service): Instances {
    map name | name in instances ::
      if instances[name].service == Some(s) then instances[name].(service := None, pid := NO_PID) else instances[name]
  }

  /** removeService: the service is taken out of every entry. */
  function Remove(r: Reg, s: Service): Reg {
    r.(services := map fq | fq in r.services :: Cleared(r.services[fq], s))
  }

  /** A reported death: libhwbinder has dropped the links, and serviceDied removes the service. */
  function Die(r: Reg, s: Service): Reg {
    Remove(r.(links := r.links[s := 0]), s)
  }

  /** The entry that a waiting client or a passthrough client leaves behind. */
  function Await(r: Reg, fq: string, name: string): Reg {
    if Lookup(r, fq, name).Some? then r else Set(r, fq, name, Entry(fq, name, None, NO_PID))
  }

  // What one operation does to one pair of names.

  lemma PutOk(r: Reg, fq: string, name: string, s: Service, pid: int, unlinks: bool, f: string, n: string)
    ensures Registered(Put(r, fq, name, s, pid, unlinks), f, n) ==
            if f == fq && n == name then Some(s) else Registered(r, f, n)
  {
  }

  lemma {:induction false} PutAllOk(r: Reg, chain: seq<string>, k: nat, name: string, s: Service, pid: int,
                                    kept: set<nat>, f: string, n: string)
    requires k <= |chain|
    ensures Registered(PutAll(r, chain, k, name, s, pid, kept), f, n) ==
            if n == name && f in chain[..k] then Some(s) else Registered(r, f, n)
  {
    hide Put, Registered;
    if k > 0 {
      PutAllOk(r, chain, k - 1, name, s, pid, kept, f, n);
      PutOk(PutAll(r, chain, k - 1, name, s, pid, kept), chain[k - 1], name, s, pid, k - 1 !in kept, f, n);
      assert chain[..k] == chain[..k - 1] + [chain[k - 1]];
    }
  }

  /** A service is admitted only with a chain of which every interface may be added. */
  lemma AdmittedMeans(a: Addition)
    ensures Admitted(a) <==>
            && a.service.Some? && a.chain.Some? && |a.chain.value| > 0
            && forall f | f in a.chain.value :: f in a.allowed
  {
  }

  lemma PutEntry(r: Reg, fq: string, name: string, s: Service, pid: int, unlinks: bool, f: string, n: string)
    ensures var e := Lookup(Put(r, fq, name, s, pid, unlinks), f, n);
            if f == fq && n == name then e.Some? && e.value.service == Some(s) && e.value.pid == pid
            else e == Lookup(r, f, n)
  {
  }

  lemma {:induction false} PutAllEntries(r: Reg, chain: seq<string>, k: nat, name: string, s: Service, pid: int,
                                         kept: set<nat>, f: string, n: string)
    requires k <= |chain|
    ensures var e := Lookup(PutAll(r, chain, k, name, s, pid, kept), f, n);
            if n == name && f in chain[..k] then e.Some? && e.value.service == Some(s) && e.value.pid == pid
            else e == Lookup(r, f, n)
  {
    hide Put, Lookup;
    if k > 0 {
      PutAllEntries(r, chain, k - 1, name, s, pid, kept, f, n);
      PutEntry(PutAll(r, chain, k - 1, name, s, pid, kept), chain[k - 1], name, s, pid, k - 1 !in kept, f, n);
      assert chain[..k] == chain[..k - 1] + [chain[k - 1]];
    }
  }

  /** The entries of the chain carry the service and the process that added it; the others stay as they were. */
  lemma AddEntries(r: Reg, a: Addition, f: string, n: string)
    requires Admitted(a)
    ensures var e := Lookup(Add(r, a), f, n);
            if n == a.name && f in a.chain.value then e.Some? && e.value.service == a.service && e.value.pid == a.pid
            else e == Lookup(r, f, n)
  {
    var chain := a.chain.value;
    PutAllEntries(r, chain, |chain|, a.name, a.service.value, a.pid, a.kept, f, n);
    assert chain[..|chain|] == chain;
  }

  /** A service that goes leaves its entries without service and process. */
  lemma RemoveEntries(r: Reg, s: Service, f: string, n: string)
    ensures var e := Lookup(r, f, n);
            Lookup(Remove(r, s), f, n) ==
            if e.Some? && e.value.service == Some(s) then Some(e.value.(service := None, pid := -1)) else e
  {
  }

  /** Someone who waits leaves an empty entry, unless there is one. */
  lemma AwaitEntries(r: Reg, fq: string, name: string, f: string, n: string)
    ensures var e := Lookup(r, f, n);
            Lookup(Await(r, fq, name), f, n) ==
            if e.None? && f == fq && n == name then Some(Entry(fq, name, None, -1)) else e
  {
  }

  /** add registers the whole interface chain, or changes nothing. */
  lemma AddOk(r: Reg, a: Addition, f: string, n: string)
    ensures if Admitted(a) then
              Registered(Add(r, a), f, n) ==
              if n == a.name && f in a.chain.value then a.service else Registered(r, f, n)
            else Add(r, a) == r
  {
    if Admitted(a) {
      var chain := a.chain.value;
      PutAllOk(r, chain, |chain|, a.name, a.service.value, a.pid, a.kept, f, n);
      assert chain[..|chain|] == chain;
    }
  }

  lemma RemoveOk(r: Reg, s: Service, f: string, n: string)
    ensures Registered(Remove(r, s), f, n) == if Registered(r, f, n) == Some(s) then None else Registered(r, f, n)
  {
  }

  lemma DieOk(r: Reg, s: Service, f: string, n: string)
    ensures Registered(Die(r, s), f, n) == if Registered(r, f, n) == Some(s) then None else Registered(r, f, n)
  {
    RemoveOk(r.(links := r.links[s := 0]), s, f, n);
  }

  lemma AwaitOk(r: Reg, fq: string, name: string, f: string, n: string)
    ensures Registered(Await(r, fq, name), f, n) == Registered(r, f, n)
  {
  }

  // Names.

  /** Every entry is stored under its own names. */
  ghost predicate NamesOk(r: Reg) {
    forall f, n | Lookup(r, f, n).Some? ::
      Lookup(r, f, n).value.interfaceName == f && Lookup(r, f, n).value.instanceName == n
  }

  lemma PutNames(r: Reg, fq: string, name: string, s: Service, pid: int, unlinks: bool)
    requires NamesOk(r)
    ensures NamesOk(Put(r, fq, name, s, pid, unlinks))
  {
    var q := Put(r, fq, name, s, pid, unlinks);
    forall f, n | Lookup(q, f, n).Some?
      ensures Lookup(q, f, n).value.interfaceName == f && Lookup(q, f, n).value.instanceName == n
    {
      if f != fq || n != name {
        assert Lookup(q, f, n) == Lookup(r, f, n);
      } else {
        assert Lookup(r, fq, name).Some? ==> Lookup(r, fq, name).value.interfaceName == fq;
      }
    }
  }

  lemma {:induction false} PutAllNames(r: Reg, chain: seq<string>, k: nat, name: string, s: Service, pid: int,
                                       kept: set<nat>)
    requires NamesOk(r) && k <= |chain|
    ensures NamesOk(PutAll(r, chain, k, name, s, pid, kept))
  {
    hide Put, NamesOk;
    if k > 0 {
      PutAllNames(r, chain, k - 1, name, s, pid, kept);
      PutNames(PutAll(r, chain, k - 1, name, s, pid, kept), chain[k - 1], name, s, pid, k - 1 !in kept);
    }
  }

  lemma AddNames(r: Reg, a: Addition)
    requires NamesOk(r)
    ensures NamesOk(Add(r, a))
  {
    if Admitted(a) {
      var q := PutAll(r, a.chain.value, |a.chain.value|, a.name, a.service.value, a.pid, a.kept);
      PutAllNames(r, a.chain.value, |a.chain.value|, a.name, a.service.value, a.pid, a.kept);
      forall f, n ensures Lookup(Add(r, a), f, n) == Lookup(q, f, n) {}
    }
  }

  lemma DieNames(r: Reg, s: Service)
    requires NamesOk(r)
    ensures NamesOk(Die(r, s))
  {
    var q := Die(r, s);
    forall f, n | Lookup(q, f, n).Some?
      ensures Lookup(q, f, n).value.interfaceName == f && Lookup(q, f, n).value.instanceName == n
    {
      assert Lookup(r, f, n).Some?;
    }
  }

  lemma AwaitNames(r: Reg, fq: string, name: string)
    requires NamesOk(r)
    ensures NamesOk(Await(r, fq, name))
  {
    var q := Await(r, fq, name);
    forall f, n | Lookup(q, f, n).Some?
      ensures Lookup(q, f, n).value.interfaceName == f && Lookup(q, f, n).value.instanceName == n
    {
      if Lookup(r, f, n).Some? {
        assert Lookup(q, f, n) == Lookup(r, f, n);
      }
    }
  }
}
