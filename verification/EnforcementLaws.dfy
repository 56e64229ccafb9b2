/** What each verdict of AuthorizeBegin means, in terms of the key's authorizations and the request alone. */
module EnforcementLaws {
  import opened Wrappers
  import opened AccessTables
  import opened Enforcement

  // One authorization.

  /** Which authorization gives which refusal, and when. */
  lemma RefusalMeans(rules: seq<Rule>, c: Call, s: Tables, i: nat)
    requires i < |rules| == |c.dateOk| && |c.clock| == |rules| + 1
    ensures var e, r := CheckRule(rules, c, s, i), rules[i];
            var t, n := TimeOf(s.times, c.key), CountOf(s.counts, c.key);
            && (e == KEY_NOT_YET_VALID <==> r.ActiveDate? && !c.dateOk[i])
            && (e == KEY_EXPIRED <==>
                !c.dateOk[i] && ((r.OriginationExpire? && c.origination) || (r.UsageExpire? && c.usage)))
            && (e == KEY_RATE_LIMIT_EXCEEDED <==> r.MinSeconds? && t.Some? && c.clock[i] - t.value.time < r.t)
            && (e == KEY_MAX_OPS_EXCEEDED <==> r.MaxUses? && n.Some? && n.value % 0x1_0000_0000 >= r.m)
            && (e == INVALID_KEY_BLOB <==>
                r.NeverInKey? || (r.UserSecureId? && exists j | 0 <= j < |rules| :: rules[j].NoAuthRequired?))
            && e in {OK, KEY_NOT_YET_VALID, KEY_EXPIRED, KEY_RATE_LIMIT_EXCEEDED, KEY_MAX_OPS_EXCEEDED,
                     INVALID_KEY_BLOB}
  {
  }

  /** No authorization before j objects, and j does: its refusal is the verdict on the authorizations. */
  lemma {:induction false} FirstObjection(rules: seq<Rule>, c: Call, s: Tables, i: nat, j: nat)
    requires i <= j < |rules| == |c.dateOk| && |c.clock| == |rules| + 1
    requires CheckRule(rules, c, s, j) != OK && forall k | i <= k < j :: CheckRule(rules, c, s, k) == OK
    ensures FirstError(rules, c, s, i) == CheckRule(rules, c, s, j)
    decreases j - i
  {
    hide CheckRule;
    if i < j {
      FirstObjection(rules, c, s, i + 1, j);
    }
  }

  lemma {:induction false} NoObjection(rules: seq<Rule>, c: Call, s: Tables, i: nat)
    requires i <= |rules| == |c.dateOk| && |c.clock| == |rules| + 1
    ensures FirstError(rules, c, s, i) == OK <==> forall k | i <= k < |rules| :: CheckRule(rules, c, s, k) == OK
    decreases |rules| - i
  {
    hide CheckRule;
    if i < |rules| {
      NoObjection(rules, c, s, i + 1);
    }
  }

  // The whole request.

  /** The dates, the limits and the other authorizations all allow the request. */
  ghost predicate RulesAllow(s: Tables, rules: seq<Rule>, c: Call)
    requires CallOk(c, rules)
  {
    forall i | 0 <= i < |rules| ::
      match rules[i]
      case ActiveDate => c.dateOk[i]
      case OriginationExpire => c.origination ==> c.dateOk[i]
      case UsageExpire => c.usage ==> c.dateOk[i]
      case MinSeconds(t) => TimeOf(s.times, c.key).Some? ==> c.clock[i] - TimeOf(s.times, c.key).value.time >= t
      case MaxUses(m) => CountOf(s.counts, c.key).Some? ==> CountOf(s.counts, c.key).value % 0x1_0000_0000 < m
      case UserSecureId => forall j | 0 <= j < |rules| :: !rules[j].NoAuthRequired?
      case NeverInKey => false
      case _ => true
  }

  /** A key with a timeout and secure user ids needs a token for one of them. */
  ghost predicate TokenAllows(rules: seq<Rule>, c: Call)
    requires CallOk(c, rules)
  {
    (exists i :: 0 <= i < |rules| && rules[i].AuthTimeout?) &&
    (exists i :: 0 <= i < |rules| && rules[i].UserSecureId?) ==>
      exists i :: 0 <= i < |rules| && rules[i].UserSecureId? && c.tokenOk[i]
  }

  /** A nonce from the caller for an origination purpose needs permission. */
  ghost predicate NonceAllows(rules: seq<Rule>, c: Call) {
    c.origination && c.nonceGiven ==> exists i :: 0 <= i < |rules| && rules[i].CallerNonce?
  }

  lemma RulesAllowIff(s: Tables, rules: seq<Rule>, c: Call)
    requires CallOk(c, rules)
    ensures RulesAllow(s, rules, c) <==> FirstError(rules, c, s, 0) == OK
  {
    hide FirstError;
    NoObjection(rules, c, s, 0);
    forall i | 0 <= i < |rules|
      ensures CheckRule(rules, c, s, i) == OK <==>
              match rules[i]
              case ActiveDate => c.dateOk[i]
              case OriginationExpire => c.origination ==> c.dateOk[i]
              case UsageExpire => c.usage ==> c.dateOk[i]
              case MinSeconds(t) => TimeOf(s.times, c.key).Some? ==> c.clock[i] - TimeOf(s.times, c.key).value.time >= t
              case MaxUses(m) => CountOf(s.counts, c.key).Some? ==> CountOf(s.counts, c.key).value % 0x1_0000_0000 < m
              case UserSecureId => forall j | 0 <= j < |rules| :: !rules[j].NoAuthRequired?
              case NeverInKey => false
              case _ => true
    {
    }
  }

  /**
   A request is authorized if and only if the purpose, every authorization, the token
   and the nonce allow it and both tables take it.
   */
  lemma AuthorizedIff(s: Tables, maxTimes: nat, maxCounts: nat, rules: seq<Rule>, c: Call)
    requires CallOk(c, rules)
    ensures Authorize(s, maxTimes, maxCounts, rules, c).1 == OK <==>
            && c.purposeOk && RulesAllow(s, rules, c) && TokenAllows(rules, c) && NonceAllows(rules, c)
            && (MinInterval(rules) != UINT32_MAX ==>
                  UpdateTime(s.times, c.key, c.clock[|rules|], MinInterval(rules), maxTimes).1)
            && ((exists i :: 0 <= i < |rules| && rules[i].MaxUses?) ==> Increment(s.counts, c.key, maxCounts).1)
  {
    hide FirstError, UpdateTime, Increment, MinInterval, RulesAllow;
    RulesAllowIff(s, rules, c);
    TokenAllowsIff(rules, c);
    hide TokenAllows, NeedsToken, HasToken;
  }

  lemma TokenAllowsIff(rules: seq<Rule>, c: Call)
    requires CallOk(c, rules)
    ensures TokenAllows(rules, c) <==> !(NeedsToken(rules) && !HasToken(rules, c))
  {
  }

  /** In spelled-out form, for an authorized request. */
  lemma AuthorizedMeans(s: Tables, maxTimes: nat, maxCounts: nat, rules: seq<Rule>, c: Call, i: nat, j: nat)
    requires CallOk(c, rules) && Authorize(s, maxTimes, maxCounts, rules, c).1 == OK && i < |rules| && j < |rules|
    ensures c.purposeOk && !rules[i].NeverInKey?
    ensures rules[i].ActiveDate? ==> c.dateOk[i]
    ensures rules[i].OriginationExpire? && c.origination ==> c.dateOk[i]
    ensures rules[i].UsageExpire? && c.usage ==> c.dateOk[i]
    ensures rules[i].UserSecureId? ==> !rules[j].NoAuthRequired?
    ensures rules[i].UserSecureId? && rules[j].AuthTimeout? ==>
              exists k :: 0 <= k < |rules| && rules[k].UserSecureId? && c.tokenOk[k]
    ensures c.origination && c.nonceGiven ==> exists k :: 0 <= k < |rules| && rules[k].CallerNonce?
  {
    hide Authorize, UpdateTime, Increment, MinInterval;
    AuthorizedIff(s, maxTimes, maxCounts, rules, c);
  }

  /** The refusals in their order: purpose, authorizations, token, nonce, full tables. */
  lemma RefusalOrder(s: Tables, maxTimes: nat, maxCounts: nat, rules: seq<Rule>, c: Call)
    requires CallOk(c, rules)
    ensures var e := Authorize(s, maxTimes, maxCounts, rules, c).1;
            && (e == INCOMPATIBLE_PURPOSE <==> !c.purposeOk)
            && (c.purposeOk && !RulesAllow(s, rules, c) ==> e == FirstError(rules, c, s, 0))
            && (e == KEY_USER_NOT_AUTHENTICATED <==> c.purposeOk && RulesAllow(s, rules, c) && !TokenAllows(rules, c))
            && (e == CALLER_NONCE_PROHIBITED <==>
                c.purposeOk && RulesAllow(s, rules, c) && TokenAllows(rules, c) && !NonceAllows(rules, c))
            && (e == TOO_MANY_OPERATIONS ==>
                  c.purposeOk && RulesAllow(s, rules, c) && TokenAllows(rules, c) && NonceAllows(rules, c))
            && (e !in {OK, TOO_MANY_OPERATIONS} ==> Authorize(s, maxTimes, maxCounts, rules, c).0 == s)
  {
    hide UpdateTime, Increment, MinInterval, RulesAllow;
    RulesAllowIff(s, rules, c);
    TokenAllowsIff(rules, c);
    FirstErrorRange(rules, c, s, 0);
    hide FirstError, TokenAllows, NeedsToken, HasToken;
  }

  lemma {:induction false} FirstErrorRange(rules: seq<Rule>, c: Call, s: Tables, i: nat)
    requires i <= |rules| == |c.dateOk| && |c.clock| == |rules| + 1
    ensures FirstError(rules, c, s, i) in
            {OK, KEY_NOT_YET_VALID, KEY_EXPIRED, KEY_RATE_LIMIT_EXCEEDED, KEY_MAX_OPS_EXCEEDED, INVALID_KEY_BLOB}
    decreases |rules| - i
  {
    if i < |rules| {
      hide CheckRule;
      RefusalMeans(rules, c, s, i);
      FirstErrorRange(rules, c, s, i + 1);
    }
  }

  // The interval and the table of times.

  /** The last minimum interval of a key is the one that is enforced. */
  lemma {:induction false} IntervalMeans(rules: seq<Rule>, p: nat)
    requires p <= |rules| && forall q | p < q < |rules| :: !rules[q].MinSeconds?
    ensures p < |rules| && rules[p].MinSeconds? ==> MinInterval(rules) == rules[p].t
    ensures (forall q | 0 <= q < |rules| :: !rules[q].MinSeconds?) ==> MinInterval(rules) == UINT32_MAX
  {
    if rules != [] {
      var n := |rules| - 1;
      if !rules[n].MinSeconds? {
        IntervalMeans(rules[..n], if p < n then p else n);
      }
    }
  }

  /** The position of a key, or the length of the table. */
  function PlaceOf(l: seq<AccessTime>, key: KeyId): (i: nat)
    ensures i <= |l|
    ensures i < |l| ==> l[i].key == key
    ensures forall j | 0 <= j < i :: l[j].key != key
  {
    if l == [] || l[0].key == key then 0 else 1 + PlaceOf(l[1..], key)
  }

  /** Exactly the expired entries in front of the key's own are dropped. */
  lemma {:induction false} ScanExact(l: seq<AccessTime>, key: KeyId, now: nat, k: KeyId)
    requires UniqueTimes(l) && k != key
    ensures var e := TimeOf(l, k);
            TimeOf(Scan(l, key, now).list, k) ==
            if e.Some? && PlaceOf(l, k) < PlaceOf(l, key) && now - e.value.time >= e.value.timeout then None else e
  {
    if l != [] {
      var rest := l[1..];
      var s := Scan(l, key, now);
      AbsentRest(l);
      if l[0].key == key {
        assert s.list[1..] == rest;
      } else {
        ScanExact(rest, key, now, k);
        ScanEntry(rest, key, now, k);
        if now - l[0].time < l[0].timeout {
          assert s.list[1..] == Scan(rest, key, now).list;
        }
      }
    }
  }

  /** A new key is turned away only by a table full of entries that have not expired. */
  lemma FullMeans(l: seq<AccessTime>, key: KeyId, now: nat, timeout: nat, maxSize: nat)
    requires UniqueTimes(l) && NotAfter(l, now)
    ensures var (l', ok) := UpdateTime(l, key, now, timeout, maxSize);
            !ok ==> |l'| >= maxSize && forall i | 0 <= i < |l'| :: now - l'[i].time < l'[i].timeout
  {
    hide Scan;
    NothingExpired(l, key, now);
  }

  lemma {:induction false} NothingExpired(l: seq<AccessTime>, key: KeyId, now: nat)
    ensures var s := Scan(l, key, now);
            !s.found ==> forall i | 0 <= i < |s.list| :: now - s.list[i].time < s.list[i].timeout
  {
    if l != [] {
      NothingExpired(l[1..], key, now);
    }
  }
}
