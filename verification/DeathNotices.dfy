/**
 Death notification of binder proxies (libhwbinder/BpHwBinder.cpp): recipients link
 and unlink under a lock, and whoever learns of the death takes the list and reports
 it without the lock.
 */
module DeathNotices {
  import opened Wrappers

  datatype Status = NO_ERROR | DEAD_OBJECT | NAME_NOT_FOUND

  type Recipient = nat

  datatype Obituary = Obituary(recipient: Recipient, cookie: nat, flags: nat)

  /** A proxy, with the number of death notifications requested from and cleared in the kernel. */
  datatype Proxy = Proxy(alive: bool, obitsSent: bool, obituaries: Option<seq<Obituary>>, requests: nat, clears: nat)

  function Listed(p: Proxy): seq<Obituary> {
    if p.obituaries.Some? then p.obituaries.value else []
  }

  predicate Matches(o: Obituary, recipient: Option<Recipient>, cookie: nat, flags: nat) {
    (if recipient.Some? then o.recipient == recipient.value else o.cookie == cookie) && o.flags == flags
  }

  /** The first matching entry, or the length of the list. */
  function FirstMatch(l: seq<Obituary>, recipient: Option<Recipient>, cookie: nat, flags: nat): (i: nat)
    ensures i <= |l|
    ensures i < |l| ==> Matches(l[i], recipient, cookie, flags)
    ensures forall j | 0 <= j < i :: !Matches(l[j], recipient, cookie, flags)
  {
    if l == [] || Matches(l[0], recipient, cookie, flags) then 0
    else 1 + FirstMatch(l[1..], recipient, cookie, flags)
  }

  /** linkToDeath. */
  function Link(p: Proxy, o: Obituary): (Proxy, Status) {
    if p.obitsSent then (p, DEAD_OBJECT)
    else
      var q := if p.obituaries.None? then p.(requests := p.requests + 1) else p;
      (q.(obituaries := Some(Listed(p) + [o])), NO_ERROR)
  }

  /** unlinkToDeath; the removed entry is the last component. */
  function Unlink(p: Proxy, recipient: Option<Recipient>, cookie: nat, flags: nat): (Proxy, Status, Option<Obituary>) {
    if p.obitsSent then (p, DEAD_OBJECT, None)
    else
      var l := Listed(p);
      var i := FirstMatch(l, recipient, cookie, flags);
      if i == |l| then (p, NAME_NOT_FOUND, None)
      else
        var rest := l[..i] + l[i + 1..];
        var q := if rest == [] then p.(obituaries := None, clears := p.clears + 1) else p.(obituaries := Some(rest));
        (q, NO_ERROR, Some(l[i]))
  }

  /** The part of sendObituary under the lock: whoever comes first takes the list. */
  function Take(p: Proxy): (Proxy, seq<Obituary>) {
    (p.(obitsSent := true, obituaries := None, clears := p.clears + if p.obituaries.Some? then 1 else 0), Listed(p))
  }

  /** A link puts the recipient behind the others and asks the kernel once for the whole list. */
  lemma LinkMeans(p: Proxy, o: Obituary)
    ensures var (q, status) := Link(p, o);
            && (status == NO_ERROR <==> !p.obitsSent) && (status == DEAD_OBJECT <==> p.obitsSent)
            && (p.obitsSent ==> q == p)
            && (!p.obitsSent ==>
                  && q.obituaries == Some((if p.obituaries.Some? then p.obituaries.value else []) + [o])
                  && q.requests == p.requests + (if p.obituaries.None? then 1 else 0)
                  && q.clears == p.clears && q.alive == p.alive && !q.obitsSent)
  {
  }

  /** What unlinkToDeath removes: the first entry with the flags and the recipient, or else the cookie. */
  lemma UnlinkMeans(p: Proxy, recipient: Option<Recipient>, cookie: nat, flags: nat)
    ensures var (q, status, removed) := Unlink(p, recipient, cookie, flags);
            var l := if p.obituaries.Some? then p.obituaries.value else [];
            && (status == DEAD_OBJECT <==> p.obitsSent)
            && (status != NO_ERROR ==> q == p && removed == None)
            && (status == NAME_NOT_FOUND ==>
                  forall j | 0 <= j < |l| :: l[j].flags != flags ||
                    (if recipient.Some? then l[j].recipient != recipient.value else l[j].cookie != cookie))
            && (status == NO_ERROR ==>
                  exists i :: 0 <= i < |l| && removed == Some(l[i]) && l[i].flags == flags
                    && (if recipient.Some? then l[i].recipient == recipient.value else l[i].cookie == cookie)
                    && q.obituaries == (if |l| == 1 then None else Some(l[..i] + l[i + 1..]))
                    && forall j | 0 <= j < i :: l[j].flags != flags ||
                         (if recipient.Some? then l[j].recipient != recipient.value else l[j].cookie != cookie))
            && (status == NO_ERROR ==> q.clears == p.clears + (if |l| == 1 then 1 else 0) && q.requests == p.requests)
  {
    var l := Listed(p);
    var i := FirstMatch(l, recipient, cookie, flags);
    if !p.obitsSent && i < |l| {
      assert |l[..i] + l[i + 1..]| == |l| - 1;
    }
  }

  /** Unlinking a recipient that was not there before undoes its link. */
  lemma UnlinkUndoesLink(p: Proxy, o: Obituary, cookie: nat)
    requires !p.obitsSent && p.obituaries != Some([])
    requires forall j | 0 <= j < |Listed(p)| :: Listed(p)[j].recipient != o.recipient || Listed(p)[j].flags != o.flags
    ensures var (q, status, removed) := Unlink(Link(p, o).0, Some(o.recipient), cookie, o.flags);
            && status == NO_ERROR && removed == Some(o) && q.obituaries == p.obituaries
            && q.requests - q.clears == p.requests - p.clears
  {
    var l := Listed(p);
    var l' := l + [o];
    assert l'[|l|] == o && l'[..|l|] + l'[|l| + 1..] == l;
    assert FirstMatch(l', Some(o.recipient), cookie, o.flags) == |l| by {
      assert Matches(l'[|l|], Some(o.recipient), cookie, o.flags);
      assert forall j | 0 <= j < |l| :: l'[j] == l[j];
    }
  }

  class BpHwBinder {
    var alive: bool
    var obitsSent: bool
    var obituaries: Option<seq<Obituary>>
    var requests: nat
    var clears: nat
    var reported: seq<Obituary>

    ghost function Value(): Proxy
      reads this
    {
      Proxy(alive, obitsSent, obituaries, requests, clears)
    }

    constructor ()
      ensures Value() == Proxy(true, false, None, 0, 0) && reported == []
    {
      alive, obitsSent, obituaries, requests, clears, reported := true, false, None, 0, 0, [];
    }

    method LinkToDeath(o: Obituary) returns (status: Status)
      modifies this
      ensures (Value(), status) == Link(old(Value()), o) && reported == old(reported)
    {
      if !obitsSent {
        if obituaries.None? {
          obituaries := Some([]);
          requests := requests + 1;
        }
        obituaries := Some(obituaries.value + [o]);
        return NO_ERROR;
      }
      return DEAD_OBJECT;
    }

    method UnlinkToDeath(recipient: Option<Recipient>, cookie: nat, flags: nat)
      returns (status: Status, outRecipient: Option<Obituary>)
      modifies this
      ensures (Value(), status, outRecipient) == Unlink(old(Value()), recipient, cookie, flags)
      ensures reported == old(reported)
    {
      if obitsSent {
        return DEAD_OBJECT, None;
      }
      var l := if obituaries.Some? then obituaries.value else [];
      var i := 0;
      while i < |l|
        invariant 0 <= i <= |l|
        invariant forall j | 0 <= j < i :: !Matches(l[j], recipient, cookie, flags)
        invariant unchanged(this)
      {
        if Matches(l[i], recipient, cookie, flags) {
          var rest := l[..i] + l[i + 1..];
          assert i == FirstMatch(l, recipient, cookie, flags);
          if rest == [] {
            obituaries := None;
            clears := clears + 1;
          } else {
            obituaries := Some(rest);
          }
          return NO_ERROR, Some(l[i]);
        }
        i := i + 1;
      }
      return NAME_NOT_FOUND, None;
    }

    /** sendObituary by a single thread: every listed recipient is told once, in order. */
    method SendObituary()
      modifies this
      ensures !alive
      ensures old(obitsSent) ==> Value() == old(Value()).(alive := false) && reported == old(reported)
      ensures !old(obitsSent) ==>
                && Value() == Take(old(Value())).0.(alive := false)
                && reported == old(reported) + Take(old(Value())).1
    {
      alive := false;
      if obitsSent {
        return;
      }
      var obits := obituaries;
      if obits.Some? {
        clears := clears + 1;
        obituaries := None;
      }
      obitsSent := true;
      if obits.Some? {
        var l := obits.value;
        var i := 0;
        while i < |l|
          invariant 0 <= i <= |l|
          invariant Value() == Take(old(Value())).0.(alive := false)
          invariant reported == old(reported) + l[..i]
        {
          reported := reported + [l[i]];
          i := i + 1;
        }
        assert l[..i] == l;
      }
    }
  }
}
