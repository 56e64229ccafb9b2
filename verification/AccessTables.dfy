/**
 The tables behind rate-limited and use-limited keys (AccessTimeMap and
 AccessCountMap of keymaster/keymaster_enforcement.cpp).
 */
module AccessTables {
  import opened Wrappers
  import opened Basics
  import opened LinkedList

  const UINT64_MAX: nat := 0xFFFF_FFFF_FFFF_FFFF

  type KeyId = nat

  datatype AccessTime = AccessTime(key: KeyId, time: nat, timeout: nat)
  datatype AccessCount = AccessCount(key: KeyId, count: nat)

  // Access times.

  function TimeOf(l: seq<AccessTime>, key: KeyId): Option<AccessTime> {
    if l == [] then None else if l[0].key == key then Some(l[0]) else TimeOf(l[1..], key)
  }

  ghost predicate UniqueTimes(l: seq<AccessTime>) {
    forall i, j | 0 <= i < j < |l| :: l[i].key != l[j].key
  }

  ghost predicate NotAfter(l: seq<AccessTime>, now: nat) {
    forall i | 0 <= i < |l| :: l[i].time <= now
  }

  datatype Scanned = Scanned(list: seq<AccessTime>, found: bool)

  /** The search loop of UpdateKeyAccessTime: entries before the key's own are dropped if they have expired. */
  function Scan(l: seq<AccessTime>, key: KeyId, now: nat): Scanned {
    if l == [] then Scanned([], false)
    else if l[0].key == key then Scanned([l[0].(time := now)] + l[1..], true)
    else
      var r := Scan(l[1..], key, now);
      if now - l[0].time >= l[0].timeout then r else Scanned([l[0]] + r.list, r.found)
  }

  /** The search loop in the middle: what is passed and what is still to be scanned. */
  ghost function ScanFrom(passed: seq<AccessTime>, rest: seq<AccessTime>, key: KeyId, now: nat): Scanned {
    Scanned(passed + Scan(rest, key, now).list, Scan(rest, key, now).found)
  }

  lemma ScanFromStart(l: seq<AccessTime>, key: KeyId, now: nat)
    ensures ScanFrom([], l, key, now) == Scan(l, key, now)
  {
    assert [] + Scan(l, key, now).list == Scan(l, key, now).list;
  }

  lemma ScanFromEnd(passed: seq<AccessTime>, key: KeyId, now: nat)
    ensures ScanFrom(passed, [], key, now) == Scanned(passed, false)
  {
    assert passed + [] == passed;
  }

  lemma ScanFromStep(passed: seq<AccessTime>, rest: seq<AccessTime>, key: KeyId, now: nat)
    requires rest != []
    ensures ScanFrom(passed, rest, key, now) ==
            if rest[0].key == key then Scanned(passed + ([rest[0].(time := now)] + rest[1..]), true)
            else if now - rest[0].time >= rest[0].timeout then ScanFrom(passed, rest[1..], key, now)
            else ScanFrom(passed + [rest[0]], rest[1..], key, now)
  {
    var more := Scan(rest[1..], key, now).list;
    assert passed + ([rest[0]] + more) == (passed + [rest[0]]) + more;
  }

  /** UpdateKeyAccessTime. */
  function UpdateTime(l: seq<AccessTime>, key: KeyId, now: nat, timeout: nat, maxSize: nat): (seq<AccessTime>, bool) {
    var s := Scan(l, key, now);
    if s.found then (s.list, true)
    else if |s.list| >= maxSize then (s.list, false)
    else ([AccessTime(key, now, timeout)] + s.list, true)
  }

  /** Every listed key of one table is listed in the other. */
  ghost predicate KeysWithin(a: seq<AccessTime>, b: seq<AccessTime>) {
    forall i | 0 <= i < |a| :: HasKey(b, a[i].key)
  }

  ghost predicate HasKey(l: seq<AccessTime>, key: KeyId) {
    exists j :: 0 <= j < |l| && l[j].key == key
  }

  lemma HasKeyRest(l: seq<AccessTime>, key: KeyId)
    requires l != []
    ensures HasKey(l, key) <==> l[0].key == key || HasKey(l[1..], key)
  {
    if HasKey(l, key) && l[0].key != key {
      var j :| 0 <= j < |l| && l[j].key == key;
      assert l[1..][j - 1].key == key;
    }
    if HasKey(l[1..], key) {
      var j :| 0 <= j < |l[1..]| && l[1..][j].key == key;
      assert l[j + 1].key == key;
    }
  }

  /** Scanning keeps the table well formed. */
  lemma {:induction false} ScanKeys(l: seq<AccessTime>, key: KeyId, now: nat)
    requires UniqueTimes(l) && NotAfter(l, now)
    ensures var s := Scan(l, key, now);
            |s.list| <= |l| && UniqueTimes(s.list) && NotAfter(s.list, now) && KeysWithin(s.list, l)
  {
    if l != [] {
      var s := Scan(l, key, now);
      var rest := l[1..];
      if l[0].key == key {
        forall i | 0 <= i < |s.list| ensures HasKey(l, s.list[i].key) {
          assert l[i].key == s.list[i].key;
        }
      } else {
        ScanKeys(rest, key, now);
        var r := Scan(rest, key, now);
        forall i | 0 <= i < |r.list| ensures HasKey(l, r.list[i].key) && r.list[i].key != l[0].key {
          HasKeyRest(l, r.list[i].key);
          var j :| 0 <= j < |rest| && rest[j].key == r.list[i].key;
          assert l[j + 1].key != l[0].key;
        }
        if now - l[0].time < l[0].timeout {
          assert HasKey(l, l[0].key);
          assert forall i | 1 <= i < |s.list| :: s.list[i] == r.list[i - 1];
        }
      }
    }
  }

  /** Scanning finds exactly a listed key, updates it, and drops only expired entries of other keys. */
  lemma {:induction false} ScanEntry(l: seq<AccessTime>, key: KeyId, now: nat, k: KeyId)
    requires UniqueTimes(l)
    ensures var s := Scan(l, key, now);
            && s.found == TimeOf(l, key).Some?
            && (TimeOf(l, k).None? ==> TimeOf(s.list, k).None?)
            && (TimeOf(l, k).Some? ==>
                  var e := TimeOf(l, k).value;
                  if k == key then TimeOf(s.list, k) == Some(e.(time := now))
                  else TimeOf(s.list, k) == Some(e) || (TimeOf(s.list, k).None? && now - e.time >= e.timeout))
  {
    if l != [] {
      var s := Scan(l, key, now);
      var rest := l[1..];
      AbsentRest(l);
      if l[0].key == key {
        assert s.list[1..] == rest;
      } else {
        ScanEntry(rest, key, now, k);
        if now - l[0].time < l[0].timeout {
          assert s.list[1..] == Scan(rest, key, now).list;
        }
      }
    }
  }

  /** The first key does not occur again. */
  lemma AbsentRest(l: seq<AccessTime>)
    requires l != [] && UniqueTimes(l)
    ensures TimeOf(l[1..], l[0].key).None?
  {
    NotListed(l[1..], l[0].key);
  }

  lemma {:induction false} NotListed(l: seq<AccessTime>, key: KeyId)
    ensures TimeOf(l, key).None? <==> forall i | 0 <= i < |l| :: l[i].key != key
  {
    if l != [] {
      NotListed(l[1..], key);
      assert forall i | 1 <= i < |l| :: l[i] == l[1..][i - 1];
    }
  }

  /** What an update leaves for every key, and that the table stays well formed and within its limit. */
  lemma UpdateTimeOk(l: seq<AccessTime>, key: KeyId, now: nat, timeout: nat, maxSize: nat, k: KeyId)
    requires UniqueTimes(l) && NotAfter(l, now) && |l| <= maxSize
    ensures var (l', ok) := UpdateTime(l, key, now, timeout, maxSize);
            && UniqueTimes(l') && NotAfter(l', now) && |l'| <= maxSize
            && (k != key && TimeOf(l, k).None? ==> TimeOf(l', k).None?)
            && (k != key && TimeOf(l, k).Some? ==>
                  var e := TimeOf(l, k).value;
                  TimeOf(l', k) == Some(e) || (TimeOf(l', k).None? && now - e.time >= e.timeout))
            && (ok ==> TimeOf(l', key) ==
                       Some(AccessTime(key, now, if TimeOf(l, key).Some? then TimeOf(l, key).value.timeout
                                       else timeout)))
            && (!ok ==> TimeOf(l, key).None? && TimeOf(l', key).None?)
  {
    ScanKeys(l, key, now);
    ScanEntry(l, key, now, k);
    ScanEntry(l, key, now, key);
    KeyOfEntry(l, key);
    var s := Scan(l, key, now);
    if !s.found && |s.list| < maxSize {
      var l' := [AccessTime(key, now, timeout)] + s.list;
      NotListed(s.list, key);
      assert l'[1..] == s.list;
    }
  }

  lemma {:induction false} KeyOfEntry(l: seq<AccessTime>, key: KeyId)
    ensures TimeOf(l, key).Some? ==> TimeOf(l, key).value.key == key
  {
    if l != [] {
      KeyOfEntry(l[1..], key);
    }
  }

  class AccessTimeMap {
    const maxSize: nat
    const list: List<AccessTime>

    ghost predicate Valid()
      reads list, list.middle, list.nodes
    {
      list.Valid()
    }

    ghost function Entries(): seq<AccessTime>
      reads list
    {
      list.contents
    }

    constructor (maxSize: nat)
      ensures Valid() && this.maxSize == maxSize && Entries() == []
      ensures fresh(list) && fresh(list.middle) && list.nodes == []
    {
      this.maxSize := maxSize;
      list := new List<AccessTime>();
    }

    method LastKeyAccessTime(key: KeyId) returns (found: bool, time: nat)
      requires Valid()
      ensures found == TimeOf(Entries(), key).Some? && (found ==> time == TimeOf(Entries(), key).value.time)
    {
      hide List.Valid;
      list.Lengths();
      var cur := list.Begin();
      ghost var i := 0;
      list.PositionsDiffer(cur, list.middle, 0, |list.nodes|);
      while cur != list.middle
        invariant i <= |list.nodes| && list.IsAt(cur, i) && (cur == list.middle <==> i == |list.nodes|)
        invariant TimeOf(list.contents, key) == TimeOf(list.contents[i..], key)
        decreases |list.nodes| - i
      {
        list.ValueAt(cur, i);
        if cur.val.key == key {
          return true, cur.val.time;
        }
        assert list.contents[i..][1..] == list.contents[i + 1..];
        cur := list.Next(cur, i);
        i := i + 1;
        list.PositionsDiffer(cur, list.middle, i, |list.nodes|);
      }
      return false, 0;
    }

    /**
     The search loop: the iterator goes over the nodes, erasing those that have expired,
     until it finds the key's own, whose time it sets.
     */
    method ScanNodes(key: KeyId, now: nat) returns (found: bool)
      requires Valid() && NotAfter(Entries(), now)
      modifies list, list.middle, list.nodes
      ensures Valid() && Scanned(Entries(), found) == Scan(old(Entries()), key, now)
      ensures forall m | 0 <= m < |list.nodes| :: list.nodes[m] in old(list.nodes)
    {
      hide Scan, ScanFrom, List.Valid;
      list.Lengths();
      ScanFromStart(list.contents, key, now);
      var cur := list.Begin();
      ghost var i := 0;
      assert list.contents[..0] == [] && list.contents[0..] == list.contents;
      list.PositionsDiffer(cur, list.middle, 0, |list.nodes|);
      while cur != list.middle
        invariant list.Valid() && |list.contents| == |list.nodes|
        invariant i <= |list.nodes| && list.IsAt(cur, i) && (cur == list.middle <==> i == |list.nodes|)
        invariant Scan(old(list.contents), key, now) == ScanFrom(list.contents[..i], list.contents[i..], key, now)
        invariant forall m | 0 <= m < |list.nodes| :: list.nodes[m] in old(list.nodes)
        decreases |list.nodes| - i
      {
        ghost var before, rest := list.contents[..i], list.contents[i..];
        ScanFromStep(before, rest, key, now);
        list.ValueAt(cur, i);
        if cur.val.key == key {
          list.SetVal(cur, cur.val.(time := now), i);
          assert list.contents == before + ([rest[0].(time := now)] + rest[1..]);
          return true;
        }
        if now - cur.val.time >= cur.val.timeout {
          cur := list.Erase(cur, i);
          assert list.contents[..i] == before && list.contents[i..] == rest[1..];
        } else {
          cur := list.Next(cur, i);
          i := i + 1;
          assert list.contents[..i] == before + [rest[0]] && list.contents[i..] == rest[1..];
        }
        list.Lengths();
        list.PositionsDiffer(cur, list.middle, i, |list.nodes|);
      }
      assert list.contents[..i] == list.contents && list.contents[i..] == [];
      ScanFromEnd(list.contents, key, now);
      return false;
    }

    /** Entries are never later than the current time. */
    method UpdateKeyAccessTime(key: KeyId, now: nat, timeout: nat) returns (ok: bool)
      requires Valid() && NotAfter(Entries(), now)
      modifies list, list.middle, list.nodes
      ensures Valid() && (Entries(), ok) == UpdateTime(old(Entries()), key, now, timeout, maxSize)
      ensures forall m | 0 <= m < |list.nodes| :: list.nodes[m] in old(list.nodes) || fresh(list.nodes[m])
    {
      hide Scan, List.Valid;
      var found := ScanNodes(key, now);
      if found {
        return true;
      }
      var size := list.Size();
      if size >= maxSize {
        return false;
      }
      list.PushFront(AccessTime(key, now, timeout));
      return true;
    }
  }

  // Access counts.

  function CountOf(l: seq<AccessCount>, key: KeyId): Option<nat> {
    if l == [] then None else if l[0].key == key then Some(l[0].count) else CountOf(l[1..], key)
  }

  ghost predicate UniqueCounts(l: seq<AccessCount>) {
    forall i, j | 0 <= i < j < |l| :: l[i].key != l[j].key
  }

  /** One use more, as far as 64 bits go. */
  function CountedUp(e: AccessCount): AccessCount {
    if e.count < UINT64_MAX then e.(count := e.count + 1) else e
  }

  function AddOne(l: seq<AccessCount>, key: KeyId): seq<AccessCount> {
    if l == [] then []
    else if l[0].key == key then [CountedUp(l[0])] + l[1..]
    else [l[0]] + AddOne(l[1..], key)
  }

  /** The first entry of a key is the one that counts. */
  lemma {:induction false} FirstOfKey(l: seq<AccessCount>, key: KeyId, i: nat)
    requires i < |l| && l[i].key == key && forall j | 0 <= j < i :: l[j].key != key
    ensures CountOf(l, key) == Some(l[i].count) && AddOne(l, key) == l[i := CountedUp(l[i])]
  {
    hide CountedUp;
    if i > 0 {
      FirstOfKey(l[1..], key, i - 1);
      assert l[i := CountedUp(l[i])] == [l[0]] + l[1..][i - 1 := CountedUp(l[i])];
    } else {
      assert l[0 := CountedUp(l[0])] == [CountedUp(l[0])] + l[1..];
    }
  }

  /** IncrementKeyAccessCount. */
  function Increment(l: seq<AccessCount>, key: KeyId, maxSize: nat): (seq<AccessCount>, bool) {
    if CountOf(l, key).Some? then (AddOne(l, key), true)
    else if |l| >= maxSize then (l, false)
    else ([AccessCount(key, 1)] + l, true)
  }

  lemma {:induction false} CountListed(l: seq<AccessCount>, key: KeyId)
    ensures CountOf(l, key).None? <==> forall i | 0 <= i < |l| :: l[i].key != key
  {
    if l != [] {
      CountListed(l[1..], key);
      assert forall i | 1 <= i < |l| :: l[i] == l[1..][i - 1];
    }
  }

  lemma {:induction false} AddOneOk(l: seq<AccessCount>, key: KeyId, k: KeyId)
    ensures var l' := AddOne(l, key);
            && |l'| == |l| && (forall i | 0 <= i < |l| :: l'[i].key == l[i].key)
            && CountOf(l', k).Some? == CountOf(l, k).Some?
            && (CountOf(l, k).Some? ==>
                  var n := CountOf(l, k).value;
                  CountOf(l', k).value == if k == key && n < UINT64_MAX then n + 1 else n)
  {
    if l != [] {
      AddOneOk(l[1..], key, k);
      var l' := AddOne(l, key);
      assert l'[1..] == if l[0].key == key then l[1..] else AddOne(l[1..], key);
    }
  }

  /** Counting a use counts for its own key only and keeps the table well formed and within its limit. */
  lemma IncrementOk(l: seq<AccessCount>, key: KeyId, maxSize: nat, k: KeyId)
    requires UniqueCounts(l) && |l| <= maxSize
    ensures var (l', ok) := Increment(l, key, maxSize);
            && UniqueCounts(l') && |l'| <= maxSize
            && (k != key ==> CountOf(l', k) == CountOf(l, k))
            && (!ok ==> l' == l && CountOf(l, key).None?)
            && (ok ==> match CountOf(l, key)
                       case None => CountOf(l', key) == Some(1)
                       case Some(n) => CountOf(l', key) == Some(if n < UINT64_MAX then n + 1 else n))
  {
    AddOneOk(l, key, k);
    AddOneOk(l, key, key);
    CountListed(l, key);
    var (l', ok) := Increment(l, key, maxSize);
    if CountOf(l, key).None? && ok {
      assert l'[1..] == l;
    }
  }

  class AccessCountMap {
    const maxSize: nat
    const list: List<AccessCount>

    ghost predicate Valid()
      reads list, list.middle, list.nodes
    {
      list.Valid()
    }

    ghost function Entries(): seq<AccessCount>
      reads list
    {
      list.contents
    }

    constructor (maxSize: nat)
      ensures Valid() && this.maxSize == maxSize && Entries() == []
      ensures fresh(list) && fresh(list.middle) && list.nodes == []
    {
      this.maxSize := maxSize;
      list := new List<AccessCount>();
    }

    /** The node of a key's entry. */
    method FindNode(key: KeyId) returns (cur: Node<AccessCount>, ghost i: nat)
      requires Valid()
      ensures i <= |list.nodes| == |Entries()| && list.IsAt(cur, i) && (cur == list.middle <==> i == |list.nodes|)
      ensures i == |list.nodes| <==> CountOf(Entries(), key).None?
      ensures i < |list.nodes| ==>
                && cur.val == Entries()[i] && cur.val.key == key && CountOf(Entries(), key) == Some(cur.val.count)
                && AddOne(Entries(), key) == Entries()[i := CountedUp(cur.val)]
    {
      hide List.Valid, CountedUp, CountOf, AddOne;
      list.Lengths();
      cur := list.Begin();
      i := 0;
      list.PositionsDiffer(cur, list.middle, 0, |list.nodes|);
      while cur != list.middle
        invariant i <= |list.nodes| && list.IsAt(cur, i) && (cur == list.middle <==> i == |list.nodes|)
        invariant forall j | 0 <= j < i :: list.contents[j].key != key
        decreases |list.nodes| - i
      {
        list.ValueAt(cur, i);
        if cur.val.key == key {
          FirstOfKey(list.contents, key, i);
          return;
        }
        cur := list.Next(cur, i);
        i := i + 1;
        list.PositionsDiffer(cur, list.middle, i, |list.nodes|);
      }
      CountListed(list.contents, key);
    }

    /** The count is reported in 32 bits. */
    method KeyAccessCount(key: KeyId) returns (found: bool, count: nat)
      requires Valid()
      ensures found == CountOf(Entries(), key).Some? && (found ==> count == CountOf(Entries(), key).value % U32)
    {
      hide List.Valid, CountOf, AddOne, CountedUp;
      var cur, i := FindNode(key);
      if cur == list.middle {
        return false, 0;
      }
      return true, cur.val.count % U32;
    }

    method IncrementKeyAccessCount(key: KeyId) returns (ok: bool)
      requires Valid()
      modifies list, list.middle, list.nodes
      ensures Valid() && (Entries(), ok) == Increment(old(Entries()), key, maxSize)
      ensures forall m | 0 <= m < |list.nodes| :: list.nodes[m] in old(list.nodes) || fresh(list.nodes[m])
    {
      hide List.Valid, CountOf, AddOne;
      var cur, i := FindNode(key);
      if cur != list.middle {
        list.SetVal(cur, if cur.val.count < UINT64_MAX then cur.val.(count := cur.val.count + 1) else cur.val, i);
        return true;
      }
      var size := list.Size();
      if size >= maxSize {
        return false;
      }
      list.PushFront(AccessCount(key, 1));
      return true;
    }
  }
}
