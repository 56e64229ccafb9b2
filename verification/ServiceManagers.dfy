/** The operations of ServiceManager (hwservicemanager/ServiceManager.cpp) on its maps. */
module ServiceManagers {
  import opened Wrappers
  import opened Basics
  import opened Registry

  const SERVICE_DIED_COOKIE: nat := 0

  /** The names under which an interface has a service. */
  function ExistingNames(instances: Instances): set<string> {
    set name | name in instances && instances[name].service.Some?
  }

  ghost predicate Exists(r: Reg, p: (string, string)) {
    Registered(r, p.0, p.1).Some?
  }

  class ServiceManager {
    var services: map<string, Instances>
    var links: multiset<Service>

    ghost function Value(): Reg
      reads this
    {
      Reg(services, links)
    }

    constructor ()
      ensures Value() == EMPTY
    {
      services, links := map[], multiset{};
    }

    /** get. */
    method Get(fq: string, name: string, canGet: bool) returns (s: Option<Service>)
      ensures s == if canGet then Registered(Value(), fq, name) else None
    {
      if !canGet || fq !in services {
        return None;
      }
      var instances := services[fq];
      if name !in instances {
        return None;
      }
      return instances[name].service;
    }

    method SetEntry(fq: string, name: string, e: Entry)
      modifies this`services
      ensures Value() == Set(old(Value()), fq, name, e)
    {
      var instances := if fq in services then services[fq] else map[];
      services := services[fq := instances[name := e]];
    }

    /** One turn of the second loop of add. */
    method PutOne(fq: string, name: string, s: Service, pid: int, unlinks: bool)
      modifies this
      ensures Value() == Put(old(Value()), fq, name, s, pid, unlinks)
    {
      if fq in services && name in services[fq] {
        var e := services[fq][name];
        if e.service.Some? && unlinks {
          links := links - multiset{e.service.value};
        }
        SetEntry(fq, name, e.(service := Some(s), pid := pid));
      } else {
        SetEntry(fq, name, Entry(fq, name, Some(s), pid));
      }
    }

    /** add: access is checked for the whole chain before anything is changed. */
    method Add(a: Addition) returns (ok: bool)
      modifies this
      ensures ok <==> && a.service.Some? && a.chain.Some? && a.chain.value != []
                      && forall f | f in a.chain.value :: f in a.allowed
      ensures Value() == Registry.Add(old(Value()), a)
    {
      hide Put;
      if a.service.None? || a.chain.None? || a.chain.value == [] {
        return false;
      }
      var chain, s := a.chain.value, a.service.value;
      var i := 0;
      while i < |chain|
        invariant 0 <= i <= |chain| && forall j | 0 <= j < i :: chain[j] in a.allowed
        invariant unchanged(this)
      {
        if chain[i] !in a.allowed {
          return false;
        }
        i := i + 1;
      }
      i := 0;
      while i < |chain|
        invariant 0 <= i <= |chain|
        invariant Value() == PutAll(old(Value()), chain, i, a.name, s, a.pid, a.kept)
      {
        PutOne(chain[i], a.name, s, a.pid, i !in a.kept);
        i := i + 1;
      }
      if a.linked {
        links := links + multiset{s};
      }
      return true;
    }

    /** The inner loop of removeService. */
    method ClearInstances(instances: Instances, who: Service) returns (result: Instances, found: bool)
      ensures result == Cleared(instances, who)
      ensures found == Offers(instances, who)
    {
      result, found := instances, false;
      var todo := instances.Keys;
      while todo != {}
        invariant todo <= instances.Keys == result.Keys
        invariant forall name | name in instances ::
                    result[name] == if name in todo then instances[name] else Cleared(instances, who)[name]
        invariant found == exists name :: name in instances && name !in todo && instances[name].service == Some(who)
        decreases |todo|
      {
        var name :| name in todo;
        if instances[name].service == Some(who) {
          result := result[name := instances[name].(service := None, pid := NO_PID)];
          found := true;
        }
        todo := todo - {name};
      }
    }

    /** removeService. */
    method RemoveService(who: Service) returns (found: bool)
      modifies this
      ensures Value() == Remove(old(Value()), who)
      ensures found == exists f, n :: Registered(old(Value()), f, n) == Some(who)
    {
      hide Cleared, Offers;
      found := false;
      ghost var was := Value();
      var todo := services.Keys;
      while todo != {}
        invariant todo <= was.services.Keys == services.Keys && links == was.links
        invariant forall f | f in was.services ::
                    services[f] == if f in todo then was.services[f] else Cleared(was.services[f], who)
        invariant found == exists f | f in was.services.Keys :: f !in todo && Offers(was.services[f], who)
        decreases |todo|
      {
        var f :| f in todo;
        var cleared, here := ClearInstances(services[f], who);
        services := services[f := cleared];
        found := found || here;
        todo := todo - {f};
      }
      OfferedSomewhere(was, who);
    }

    /** serviceDied, as far as services are concerned; the links of the dead service are gone by then. */
    method ServiceDied(cookie: nat, who: Service)
      modifies this
      ensures Value() == if cookie == SERVICE_DIED_COOKIE then Die(old(Value()), who) else old(Value())
    {
      if cookie == SERVICE_DIED_COOKIE {
        links := links[who := 0];
        var found := RemoveService(who);
      }
    }

    /** The entry that registerForNotifications and registerPassthroughClient make for a named instance. */
    method AwaitService(fq: string, name: string)
      modifies this
      ensures Value() == Await(old(Value()), fq, name)
    {
      if fq !in services || name !in services[fq] {
        SetEntry(fq, name, Entry(fq, name, None, NO_PID));
      }
    }

    /** The names of the instances of an interface that have a service, each once. */
    method NamesWithService(instances: Instances) returns (names: seq<string>)
      requires forall name | name in instances :: instances[name].instanceName == name
      ensures Distinct(names) && forall name :: name in names <==> name in ExistingNames(instances)
    {
      names := [];
      var todo := instances.Keys;
      while todo != {}
        invariant todo <= instances.Keys && Distinct(names)
        invariant forall name :: name in names <==> name in instances && name !in todo && instances[name].service.Some?
        decreases |todo|
      {
        var name :| name in todo;
        if instances[name].service.Some? {
          names := names + [instances[name].instanceName];
        }
        todo := todo - {name};
      }
    }

    /** listByInterface. */
    method ListByInterface(fq: string, canGet: bool) returns (names: seq<string>)
      requires NamesOk(Value())
      ensures Distinct(names)
      ensures forall name :: name in names <==> canGet && Registered(Value(), fq, name).Some?
    {
      if !canGet || fq !in services {
        return [];
      }
      StoredNames(Value(), fq);
      names := NamesWithService(services[fq]);
    }

    /**
     list: the full name of every entry that has a service, and of no other, each
     entry once.
     */
    method List(canList: bool) returns (list: seq<string>, ghost pairs: seq<(string, string)>)
      requires NamesOk(Value())
      ensures !canList ==> list == []
      ensures canList ==>
                && |list| == |pairs| && Distinct(pairs)
                && (forall p: (string, string) :: p in pairs <==> Registered(Value(), p.0, p.1).Some?)
                && forall i | 0 <= i < |list| :: list[i] == pairs[i].0 + "/" + pairs[i].1
    {
      list, pairs := [], [];
      if !canList {
        return;
      }
      var todo := services.Keys;
      while todo != {}
        invariant todo <= services.Keys && |list| == |pairs| && Distinct(pairs)
        invariant forall p :: p in pairs <==> p.0 !in todo && Exists(Value(), p)
        invariant forall i | 0 <= i < |list| :: list[i] == FullName(pairs[i])
        decreases |todo|
      {
        hide Exists, Distinct, FullName;
        var f :| f in todo;
        StoredNames(Value(), f);
        var names := NamesWithService(services[f]);
        ghost var more := Paired(f, names);
        ListedPairs(Value(), f, names);
        AppendPairs(Value(), pairs, more, f, todo);
        var full := FullNames(f, names);
        list, pairs := list + full, pairs + more;
        todo := todo - {f};
      }
      assert forall p: (string, string) :: Exists(Value(), p) <==> Registered(Value(), p.0, p.1).Some?;
    }
  }

  function FullName(p: (string, string)): string {
    p.0 + "/" + p.1
  }

  function Paired(f: string, names: seq<string>): (ps: seq<(string, string)>)
    ensures |ps| == |names|
  {
    seq(|names|, i requires 0 <= i < |names| => (f, names[i]))
  }

  function FullNames(f: string, names: seq<string>): (ss: seq<string>)
    ensures |ss| == |names| && forall i | 0 <= i < |names| :: ss[i] == FullName(Paired(f, names)[i])
  {
    seq(|names|, i requires 0 <= i < |names| => f + "/" + names[i])
  }

  lemma StoredNames(r: Reg, f: string)
    requires NamesOk(r) && f in r.services
    ensures forall name | name in r.services[f] :: r.services[f][name].instanceName == name
  {
    forall name | name in r.services[f] ensures r.services[f][name].instanceName == name {
      assert Lookup(r, f, name).Some?;
    }
  }

  /** The names of an interface give exactly its existing entries. */
  lemma ListedPairs(r: Reg, f: string, names: seq<string>)
    requires f in r.services && Distinct(names)
    requires forall name :: name in names <==> name in ExistingNames(r.services[f])
    ensures Distinct(Paired(f, names)) && forall p :: p in Paired(f, names) <==> p.0 == f && Exists(r, p)
  {
    var ps := Paired(f, names);
    forall p ensures p in ps <==> p.0 == f && Exists(r, p) {
      if p in ps {
        var i :| 0 <= i < |ps| && ps[i] == p;
        assert names[i] in names;
      }
      if p.0 == f && Exists(r, p) {
        assert p.1 in names;
        var i :| 0 <= i < |names| && names[i] == p.1;
        assert ps[i] == p;
      }
    }
  }

  lemma AppendPairs(r: Reg, pairs: seq<(string, string)>, more: seq<(string, string)>, f: string, todo: set<string>)
    requires f in todo && Distinct(pairs) && Distinct(more)
    requires forall p :: p in pairs <==> p.0 !in todo && Exists(r, p)
    requires forall p :: p in more <==> p.0 == f && Exists(r, p)
    ensures Distinct(pairs + more) && forall p :: p in pairs + more <==> p.0 !in todo - {f} && Exists(r, p)
  {
    forall i, j | 0 <= i < j < |pairs + more| ensures (pairs + more)[i] != (pairs + more)[j] {
      if i < |pairs| <= j {
        assert pairs[i] in pairs && more[j - |pairs|] in more;
      }
    }
  }

  /** Some entry of an interface holds the service. */
  ghost predicate Offers(instances: Instances, who: Service) {
    exists name :: name in instances && instances[name].service == Some(who)
  }

  lemma OfferedSomewhere(r: Reg, who: Service)
    ensures (exists f | f in r.services.Keys :: Offers(r.services[f], who)) <==>
            (exists f, n :: Registered(r, f, n) == Some(who))
  {
    if f :| f in r.services.Keys && Offers(r.services[f], who) {
      var n :| n in r.services[f] && r.services[f][n].service == Some(who);
      assert Registered(r, f, n) == Some(who);
    }
    if f, n :| Registered(r, f, n) == Some(who) {
      assert f in r.services.Keys && Offers(r.services[f], who);
    }
  }
}
