/** AuthorizeBegin of keymaster/keymaster_enforcement.cpp. */
module Enforcement {
  import opened Basics
  import opened AccessTables

  const UINT32_MAX: nat := 0xFFFF_FFFF

  datatype Error =
    | OK | INCOMPATIBLE_PURPOSE | KEY_NOT_YET_VALID | KEY_EXPIRED | KEY_RATE_LIMIT_EXCEEDED | KEY_MAX_OPS_EXCEEDED
    | INVALID_KEY_BLOB | KEY_USER_NOT_AUTHENTICATED | CALLER_NONCE_PROHIBITED | TOO_MANY_OPERATIONS

  /** The authorizations of a key, as far as AuthorizeBegin tells them apart. */
  datatype Rule =
    | ActiveDate | OriginationExpire | UsageExpire | MinSeconds(t: nat) | MaxUses(m: nat)
    | UserSecureId | AuthTimeout | NoAuthRequired | CallerNonce | NeverInKey | Ignored

  predicate RuleOk(r: Rule) {
    (r.MinSeconds? ==> r.t < U32) && (r.MaxUses? ==> r.m < U32)
  }

  /**
   One begin request: what the dates and the token amount to for each authorization,
   and the clock, read at each authorization and once more when the use is recorded.
   */
  datatype Call = Call(key: KeyId, purposeOk: bool, origination: bool, usage: bool, nonceGiven: bool,
                       dateOk: seq<bool>, tokenOk: seq<bool>, clock: seq<nat>)

  ghost predicate CallOk(c: Call, rules: seq<Rule>) {
    && |c.dateOk| == |c.tokenOk| == |rules| && |c.clock| == |rules| + 1
    && (forall i, j | 0 <= i <= j < |c.clock| :: c.clock[i] <= c.clock[j])
    && (forall i | 0 <= i < |rules| :: RuleOk(rules[i]))
  }

  datatype Tables = Tables(times: seq<AccessTime>, counts: seq<AccessCount>)

  /** MinTimeBetweenOpsPassed. */
  predicate TimePassed(times: seq<AccessTime>, key: KeyId, t: nat, now: nat) {
    match TimeOf(times, key)
    case None => true
    case Some(e) => t <= now - e.time
  }

  /** MaxUsesPerBootNotExceeded. */
  predicate UsesLeft(counts: seq<AccessCount>, key: KeyId, m: nat) {
    match CountOf(counts, key)
    case None => true
    case Some(n) => n % U32 < m
  }

  predicate NoAuth(rules: seq<Rule>) {
    exists i | 0 <= i < |rules| :: rules[i].NoAuthRequired?
  }

  predicate TimedAuth(rules: seq<Rule>) {
    exists i | 0 <= i < |rules| :: rules[i].AuthTimeout?
  }

  predicate NonceAllowed(rules: seq<Rule>) {
    exists i | 0 <= i < |rules| :: rules[i].CallerNonce?
  }

  predicate CountsUses(rules: seq<Rule>) {
    exists i | 0 <= i < |rules| :: rules[i].MaxUses?
  }

  predicate NeedsToken(rules: seq<Rule>) {
    TimedAuth(rules) && exists i | 0 <= i < |rules| :: rules[i].UserSecureId?
  }

  ghost predicate HasToken(rules: seq<Rule>, c: Call)
    requires |c.tokenOk| == |rules|
  {
    exists i | 0 <= i < |rules| :: rules[i].UserSecureId? && c.tokenOk[i]
  }

  /** The minimum interval that is enforced: the last one, or none. */
  function MinInterval(rules: seq<Rule>): nat {
    if rules == [] then UINT32_MAX
    else
      var last := rules[|rules| - 1];
      if last.MinSeconds? then last.t else MinInterval(rules[..|rules| - 1])
  }

  /** What the i-th authorization has against the request. */
  function CheckRule(rules: seq<Rule>, c: Call, s: Tables, i: nat): Error
    requires i < |rules| == |c.dateOk| && |c.clock| == |rules| + 1
  {
    match rules[i]
    case ActiveDate => if c.dateOk[i] then OK else KEY_NOT_YET_VALID
    case OriginationExpire => if c.origination && !c.dateOk[i] then KEY_EXPIRED else OK
    case UsageExpire => if c.usage && !c.dateOk[i] then KEY_EXPIRED else OK
    case MinSeconds(t) => if TimePassed(s.times, c.key, t, c.clock[i]) then OK else KEY_RATE_LIMIT_EXCEEDED
    case MaxUses(m) => if UsesLeft(s.counts, c.key, m) then OK else KEY_MAX_OPS_EXCEEDED
    case UserSecureId => if NoAuth(rules) then INVALID_KEY_BLOB else OK
    case NeverInKey => INVALID_KEY_BLOB
    case _ => OK
  }

  /** The first objection from the i-th authorization on. */
  function FirstError(rules: seq<Rule>, c: Call, s: Tables, i: nat): Error
    requires i <= |rules| == |c.dateOk| && |c.clock| == |rules| + 1
    decreases |rules| - i
  {
    if i == |rules| then OK
    else
      var e := CheckRule(rules, c, s, i);
      if e != OK then e else FirstError(rules, c, s, i + 1)
  }

  lemma {:induction false} NoErrors(rules: seq<Rule>, c: Call, s: Tables, i: nat, j: nat)
    requires i <= j < |rules| == |c.dateOk| && |c.clock| == |rules| + 1
    requires FirstError(rules, c, s, i) == OK
    ensures CheckRule(rules, c, s, j) == OK
    decreases j - i
  {
    if i < j {
      NoErrors(rules, c, s, i + 1, j);
    }
  }

  /** AuthorizeBegin: the new tables and the verdict. */
  ghost function Authorize(s: Tables, maxTimes: nat, maxCounts: nat, rules: seq<Rule>, c: Call): (Tables, Error)
    requires CallOk(c, rules)
  {
    var e := FirstError(rules, c, s, 0);
    if !c.purposeOk then (s, INCOMPATIBLE_PURPOSE)
    else if e != OK then (s, e)
    else if NeedsToken(rules) && !HasToken(rules, c) then (s, KEY_USER_NOT_AUTHENTICATED)
    else if !NonceAllowed(rules) && c.origination && c.nonceGiven then (s, CALLER_NONCE_PROHIBITED)
    else
      var timeout := MinInterval(rules);
      var (times, timeOk) :=
        if timeout == UINT32_MAX then (s.times, true)
        else UpdateTime(s.times, c.key, c.clock[|rules|], timeout, maxTimes);
      if !timeOk then (Tables(times, s.counts), TOO_MANY_OPERATIONS)
      else if !CountsUses(rules) then (Tables(times, s.counts), OK)
      else
        var (counts, countOk) := Increment(s.counts, c.key, maxCounts);
        (Tables(times, counts), if countOk then OK else TOO_MANY_OPERATIONS)
  }

  class KeymasterEnforcement {
    const times: AccessTimeMap
    const counts: AccessCountMap

    ghost predicate Valid()
      reads times.list, times.list.middle, times.list.nodes, counts.list, counts.list.middle, counts.list.nodes
    {
      times.Valid() && counts.Valid()
    }

    constructor (maxTimes: nat, maxCounts: nat)
      ensures Valid() && Value() == Tables([], [])
      ensures times.maxSize == maxTimes && counts.maxSize == maxCounts
    {
      times := new AccessTimeMap(maxTimes);
      counts := new AccessCountMap(maxCounts);
    }

    ghost function Value(): Tables
      reads times.list, counts.list
    {
      Tables(times.Entries(), counts.Entries())
    }

    method MinTimeBetweenOpsPassed(t: nat, key: KeyId, now: nat) returns (b: bool)
      requires Valid()
      ensures b == TimePassed(times.Entries(), key, t, now)
      ensures b <==> TimeOf(times.Entries(), key).Some? ==> now - TimeOf(times.Entries(), key).value.time >= t
    {
      var found, last := times.LastKeyAccessTime(key);
      return !found || t <= now - last;
    }

    method MaxUsesPerBootNotExceeded(key: KeyId, m: nat) returns (b: bool)
      requires Valid()
      ensures b == UsesLeft(counts.Entries(), key, m)
      ensures b <==> CountOf(counts.Entries(), key).Some? ==> CountOf(counts.Entries(), key).value % 0x1_0000_0000 < m
    {
      var found, n := counts.KeyAccessCount(key);
      return !found || n < m;
    }

    /** One turn of the loop over the authorizations. */
    method Check(rules: seq<Rule>, c: Call, i: nat) returns (e: Error)
      requires Valid() && CallOk(c, rules) && i < |rules|
      ensures e == CheckRule(rules, c, Value(), i)
    {
      e := OK;
      match rules[i]
      case ActiveDate =>
        if !c.dateOk[i] {
          e := KEY_NOT_YET_VALID;
        }
      case OriginationExpire =>
        if c.origination && !c.dateOk[i] {
          e := KEY_EXPIRED;
        }
      case UsageExpire =>
        if c.usage && !c.dateOk[i] {
          e := KEY_EXPIRED;
        }
      case MinSeconds(t) =>
        var b := MinTimeBetweenOpsPassed(t, c.key, c.clock[i]);
        e := if b then OK else KEY_RATE_LIMIT_EXCEEDED;
      case MaxUses(m) =>
        var b := MaxUsesPerBootNotExceeded(c.key, m);
        e := if b then OK else KEY_MAX_OPS_EXCEEDED;
      case UserSecureId =>
        if NoAuth(rules) {
          e := INVALID_KEY_BLOB;
        }
      case NeverInKey =>
        e := INVALID_KEY_BLOB;
      case _ =>
    }

    /** The loop over the authorizations. */
    method CheckAll(rules: seq<Rule>, c: Call)
      returns (e: Error, timeout: nat, countUse: bool, nonceAllowed: bool, authRequired: bool, tokenMatched: bool)
      requires Valid() && CallOk(c, rules)
      ensures e == FirstError(rules, c, Value(), 0)
      ensures e == OK ==>
                && timeout == MinInterval(rules) && countUse == CountsUses(rules) && nonceAllowed == NonceAllowed(rules)
                && authRequired == NeedsToken(rules) && tokenMatched == (TimedAuth(rules) && HasToken(rules, c))
    {
      hide CheckRule, KeymasterEnforcement.Valid, KeymasterEnforcement.Value;
      timeout, countUse, nonceAllowed, authRequired, tokenMatched := UINT32_MAX, false, false, false, false;
      var timedAuth := TimedAuth(rules);
      var i := 0;
      while i < |rules|
        invariant 0 <= i <= |rules|
        invariant FirstError(rules, c, Value(), 0) == FirstError(rules, c, Value(), i)
        invariant timeout == MinInterval(rules[..i])
        invariant countUse == exists j | 0 <= j < i :: rules[j].MaxUses?
        invariant nonceAllowed == exists j | 0 <= j < i :: rules[j].CallerNonce?
        invariant authRequired == (timedAuth && exists j | 0 <= j < i :: rules[j].UserSecureId?)
        invariant tokenMatched == (timedAuth && exists j | 0 <= j < i :: rules[j].UserSecureId? && c.tokenOk[j])
      {
        e := Check(rules, c, i);
        if e != OK {
          return;
        }
        assert rules[..i + 1][..i] == rules[..i];
        match rules[i] {
          case MinSeconds(t) => timeout := t;
          case MaxUses(_) => countUse := true;
          case UserSecureId =>
            if timedAuth {
              authRequired := true;
              if c.tokenOk[i] {
                tokenMatched := true;
              }
            }
          case CallerNonce => nonceAllowed := true;
          case _ =>
        }
        i := i + 1;
      }
      assert rules[..i] == rules;
      e := OK;
    }

    /** AuthorizeBegin. */
    method AuthorizeBegin(rules: seq<Rule>, c: Call) returns (e: Error)
      requires Valid() && CallOk(c, rules) && NotAfter(times.Entries(), c.clock[0])
      modifies times.list, times.list.middle, times.list.nodes, counts.list, counts.list.middle, counts.list.nodes
      ensures Valid() && (Value(), e) == Authorize(old(Value()), times.maxSize, counts.maxSize, rules, c)
    {
      hide UpdateTime, Increment, FirstError, MinInterval, TimedAuth, HasToken, CountsUses, NonceAllowed,
           AccessTimeMap.Valid, AccessCountMap.Valid;
      if !c.purposeOk {
        return INCOMPATIBLE_PURPOSE;
      }
      var timeout, countUse, nonceAllowed, authRequired, tokenMatched;
      e, timeout, countUse, nonceAllowed, authRequired, tokenMatched := CheckAll(rules, c);
      if e != OK {
        return;
      }
      if authRequired && !tokenMatched {
        return KEY_USER_NOT_AUTHENTICATED;
      }
      if !nonceAllowed && c.origination && c.nonceGiven {
        return CALLER_NONCE_PROHIBITED;
      }
      if timeout != UINT32_MAX {
        assert NotAfter(times.Entries(), c.clock[|rules|]);
        var ok := times.UpdateKeyAccessTime(c.key, c.clock[|rules|], timeout);
        if !ok {
          return TOO_MANY_OPERATIONS;
        }
      }
      if countUse {
        var ok := counts.IncrementKeyAccessCount(c.key);
        if !ok {
          return TOO_MANY_OPERATIONS;
        }
      }
      return OK;
    }
  }
}
