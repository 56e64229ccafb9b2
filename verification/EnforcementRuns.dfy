/** What rate limits and use limits guarantee over every run of begin requests. */
module EnforcementRuns {
  import opened Wrappers
  import opened AccessTables
  import opened Enforcement

  datatype Config = Config(maxTimes: nat, maxCounts: nat, rules: KeyId -> seq<Rule>)

  function End(c: Call): nat
    requires c.clock != []
  {
    c.clock[|c.clock| - 1]
  }

  ghost function After(cfg: Config, s: Tables, c: Call): (Tables, Error)
    requires CallOk(c, cfg.rules(c.key))
  {
    Authorize(s, cfg.maxTimes, cfg.maxCounts, cfg.rules(c.key), c)
  }

  /** A run since boot: fixed limits per key, and a clock that never goes back. */
  ghost predicate Run(cfg: Config, states: seq<Tables>, calls: seq<Call>) {
    && |states| == |calls| + 1 && states[0] == Tables([], [])
    && (forall i | 0 <= i < |calls| ::
          CallOk(calls[i], cfg.rules(calls[i].key)) && states[i + 1] == After(cfg, states[i], calls[i]).0)
    && (forall i | 0 <= i < |calls| - 1 :: End(calls[i]) <= calls[i + 1].clock[0])
  }

  ghost predicate Authorized(cfg: Config, states: seq<Tables>, calls: seq<Call>, i: nat)
    requires Run(cfg, states, calls) && i < |calls|
  {
    After(cfg, states[i], calls[i]).1 == OK
  }

  // The tables.

  /** Both tables have unique keys, stay within their limits, and record each key's own interval. */
  ghost predicate TablesOk(cfg: Config, s: Tables) {
    && UniqueTimes(s.times) && |s.times| <= cfg.maxTimes
    && UniqueCounts(s.counts) && |s.counts| <= cfg.maxCounts
    && forall k | TimeOf(s.times, k).Some? ::
      TimeOf(s.times, k).value.timeout == MinInterval(cfg.rules(k)) != UINT32_MAX
  }

  /** A request either leaves the times alone or records one for its key. */
  lemma TimesAfter(cfg: Config, s: Tables, c: Call)
    requires CallOk(c, cfg.rules(c.key))
    ensures var t := MinInterval(cfg.rules(c.key));
            var s' := After(cfg, s, c).0;
            || s'.times == s.times
            || (t != UINT32_MAX && s'.times == UpdateTime(s.times, c.key, End(c), t, cfg.maxTimes).0)
    ensures After(cfg, s, c).1 == OK && MinInterval(cfg.rules(c.key)) != UINT32_MAX ==>
              UpdateTime(s.times, c.key, End(c), MinInterval(cfg.rules(c.key)), cfg.maxTimes) ==
              (After(cfg, s, c).0.times, true)
  {
    hide UpdateTime, Increment, FirstError, MinInterval;
  }

  /** A use is counted exactly when the request is authorized and the key has a limit. */
  lemma CountsAfter(cfg: Config, s: Tables, c: Call)
    requires CallOk(c, cfg.rules(c.key)) && UniqueCounts(s.counts) && |s.counts| <= cfg.maxCounts
    ensures var (s', e) := After(cfg, s, c);
            && (e == OK && CountsUses(cfg.rules(c.key)) ==>
                  Increment(s.counts, c.key, cfg.maxCounts) == (s'.counts, true))
            && (s'.counts == s.counts || (e == OK && CountsUses(cfg.rules(c.key))))
  {
    hide UpdateTime, Increment, FirstError, MinInterval;
    IncrementOk(s.counts, c.key, cfg.maxCounts, c.key);
  }

  lemma StepTables(cfg: Config, s: Tables, c: Call)
    requires CallOk(c, cfg.rules(c.key)) && TablesOk(cfg, s) && NotAfter(s.times, End(c))
    ensures TablesOk(cfg, After(cfg, s, c).0) && NotAfter(After(cfg, s, c).0.times, End(c))
  {
    hide After, UpdateTime, Increment, MinInterval;
    var s' := After(cfg, s, c).0;
    TimesAfter(cfg, s, c);
    CountsAfter(cfg, s, c);
    IncrementOk(s.counts, c.key, cfg.maxCounts, c.key);
    var t := MinInterval(cfg.rules(c.key));
    UpdateTimeOk(s.times, c.key, End(c), t, cfg.maxTimes, c.key);
    forall k | TimeOf(s'.times, k).Some?
      ensures TimeOf(s'.times, k).value.timeout == MinInterval(cfg.rules(k)) != UINT32_MAX
    {
      UpdateTimeOk(s.times, c.key, End(c), t, cfg.maxTimes, k);
    }
  }

  /** The latest clock reading before the n-th request. */
  function Now(calls: seq<Call>, n: nat): nat
    requires n <= |calls| && forall i | 0 <= i < |calls| :: calls[i].clock != []
  {
    if n == 0 then 0 else End(calls[n - 1])
  }

  /** In every state of every run both tables are well formed and within their limits. */
  lemma {:induction false} AlwaysTables(cfg: Config, states: seq<Tables>, calls: seq<Call>, n: nat)
    requires Run(cfg, states, calls) && n < |states|
    ensures TablesOk(cfg, states[n]) && NotAfter(states[n].times, Now(calls, n))
  {
    hide After;
    if n > 0 {
      AlwaysTables(cfg, states, calls, n - 1);
      assert Now(calls, n - 1) <= End(calls[n - 1]);
      StepTables(cfg, states[n - 1], calls[n - 1]);
    }
  }

  // Rate limits.

  /** A key's last authorized use is on record, or its interval is over. */
  ghost predicate Remembered(cfg: Config, s: Tables, key: KeyId, used: nat, now: nat) {
    match TimeOf(s.times, key)
    case Some(e) => e.time >= used
    case None => now - used >= MinInterval(cfg.rules(key))
  }

  lemma StepRemembered(cfg: Config, s: Tables, c: Call, key: KeyId, used: nat, now: nat)
    requires CallOk(c, cfg.rules(c.key)) && TablesOk(cfg, s) && NotAfter(s.times, End(c))
    requires Remembered(cfg, s, key, used, now) && used <= now <= End(c)
    ensures Remembered(cfg, After(cfg, s, c).0, key, used, End(c))
  {
    hide After, UpdateTime, MinInterval;
    TimesAfter(cfg, s, c);
    UpdateTimeOk(s.times, c.key, End(c), MinInterval(cfg.rules(c.key)), cfg.maxTimes, key);
    UpdateTimeOk(s.times, c.key, End(c), MinInterval(cfg.rules(c.key)), cfg.maxTimes, c.key);
  }

  lemma {:induction false} AlwaysRemembered(cfg: Config, states: seq<Tables>, calls: seq<Call>, i: nat, n: nat)
    requires Run(cfg, states, calls) && i < n < |states| && Authorized(cfg, states, calls, i)
    requires MinInterval(cfg.rules(calls[i].key)) != UINT32_MAX
    ensures Remembered(cfg, states[n], calls[i].key, End(calls[i]), Now(calls, n)) && End(calls[i]) <= Now(calls, n)
  {
    hide After, UpdateTime, MinInterval;
    var c := calls[n - 1];
    AlwaysTables(cfg, states, calls, n - 1);
    assert NotAfter(states[n - 1].times, End(c)) && Now(calls, n - 1) <= End(c) by {
      ClockGrows(cfg, states, calls, n);
    }
    if n == i + 1 {
      TimesAfter(cfg, states[i], c);
      UpdateTimeOk(states[i].times, c.key, End(c), MinInterval(cfg.rules(c.key)), cfg.maxTimes, c.key);
    } else {
      AlwaysRemembered(cfg, states, calls, i, n - 1);
      StepRemembered(cfg, states[n - 1], c, calls[i].key, End(calls[i]), Now(calls, n - 1));
    }
  }

  lemma ClockGrows(cfg: Config, states: seq<Tables>, calls: seq<Call>, n: nat)
    requires Run(cfg, states, calls) && 0 < n < |states|
    ensures Now(calls, n - 1) <= calls[n - 1].clock[0] <= End(calls[n - 1])
  {
  }

  /** Where the enforced minimum interval stands among the authorizations. */
  lemma {:induction false} IntervalRule(rules: seq<Rule>) returns (p: nat)
    requires MinInterval(rules) != UINT32_MAX
    ensures p < |rules| && rules[p] == MinSeconds(MinInterval(rules))
  {
    var n := |rules| - 1;
    if rules[n].MinSeconds? {
      p := n;
    } else {
      p := IntervalRule(rules[..n]);
    }
  }

  /**
   Two authorized uses of a key with a minimum interval are at least that far apart:
   the clock read when the second is checked has moved on by the interval since the
   first was recorded, whatever other keys did in between.
   */
  lemma UsesAreSpaced(cfg: Config, states: seq<Tables>, calls: seq<Call>, i: nat, j: nat)
    requires Run(cfg, states, calls) && i < j < |calls| && calls[i].key == calls[j].key
    requires Authorized(cfg, states, calls, i) && Authorized(cfg, states, calls, j)
    requires MinInterval(cfg.rules(calls[i].key)) != UINT32_MAX
    ensures exists p | 0 <= p < |calls[j].clock| ::
              calls[j].clock[p] - End(calls[i]) >= MinInterval(cfg.rules(calls[i].key))
    ensures End(calls[j]) - End(calls[i]) >= MinInterval(cfg.rules(calls[i].key))
  {
    hide After, UpdateTime, MinInterval, Increment;
    var c := calls[j];
    var rules := cfg.rules(c.key);
    var p := IntervalRule(rules);
    AlwaysRemembered(cfg, states, calls, i, j);
    AllPassed(cfg, states[j], c, p);
    assert TimePassed(states[j].times, c.key, MinInterval(rules), c.clock[p]);
    assert Now(calls, j) <= c.clock[0] <= c.clock[p] <= End(c);
    assert c.clock[p] - End(calls[i]) >= MinInterval(rules);
  }

  /** An interval of UINT32_MAX is never recorded, so it never limits anything. */
  lemma UnlimitedInterval(cfg: Config, states: seq<Tables>, calls: seq<Call>, n: nat, key: KeyId)
    requires Run(cfg, states, calls) && n < |states| && MinInterval(cfg.rules(key)) == UINT32_MAX
    ensures TimeOf(states[n].times, key).None?
    ensures forall t, now :: TimePassed(states[n].times, key, t, now)
  {
    hide After, MinInterval;
    AlwaysTables(cfg, states, calls, n);
  }

  /** An authorized request has passed every check. */
  lemma AllPassed(cfg: Config, s: Tables, c: Call, p: nat)
    requires CallOk(c, cfg.rules(c.key)) && p < |cfg.rules(c.key)| && After(cfg, s, c).1 == OK
    ensures CheckRule(cfg.rules(c.key), c, s, p) == OK
  {
    hide UpdateTime, MinInterval, Increment, CheckRule;
    NoErrors(cfg.rules(c.key), c, s, 0, p);
  }

  // Use limits.

  ghost function Uses(cfg: Config, states: seq<Tables>, calls: seq<Call>, n: nat, key: KeyId): nat
    requires Run(cfg, states, calls) && n <= |calls|
  {
    if n == 0 then 0
    else Uses(cfg, states, calls, n - 1, key)
         + if calls[n - 1].key == key && Authorized(cfg, states, calls, n - 1) then 1 else 0
  }

  /**
   The table counts the uses of a limited key, and they do not exceed its limit,
   except that one is always allowed.
   */
  lemma {:induction false} UsesAreLimited(cfg: Config, states: seq<Tables>, calls: seq<Call>, n: nat, key: KeyId,
                                          p: nat)
    requires Run(cfg, states, calls) && n < |states|
    requires p < |cfg.rules(key)| && cfg.rules(key)[p].MaxUses? && RuleOk(cfg.rules(key)[p])
    ensures var u := Uses(cfg, states, calls, n, key);
            && CountOf(states[n].counts, key) == (if u == 0 then None else Some(u))
            && u <= if cfg.rules(key)[p].m >= 1 then cfg.rules(key)[p].m else 1
  {
    hide After, Increment, CallOk;
    if n > 0 {
      var s, c := states[n - 1], calls[n - 1];
      UsesAreLimited(cfg, states, calls, n - 1, key, p);
      AlwaysTables(cfg, states, calls, n - 1);
      CountsAfter(cfg, s, c);
      IncrementOk(s.counts, c.key, cfg.maxCounts, key);
      if c.key == key && Authorized(cfg, states, calls, n - 1) {
        assert CountsUses(cfg.rules(key));
        AllPassed(cfg, s, c, p);
        assert UsesLeft(s.counts, key, cfg.rules(key)[p].m);
      }
    }
  }

  // Exactly which limits hold.

  /** A key that some request can use: nothing forbids it, and the tables it needs have room. */
  ghost predicate Usable(cfg: Config, key: KeyId) {
    var rules := cfg.rules(key);
    && (forall i | 0 <= i < |rules| ::
          RuleOk(rules[i]) && !rules[i].NeverInKey? && !(rules[i].UserSecureId? && NoAuth(rules)))
    && (MinInterval(rules) != UINT32_MAX ==> cfg.maxTimes > 0)
    && (CountsUses(rules) ==> cfg.maxCounts > 0)
  }

  /** A request at time zero with everything in order. */
  function ReadyCall(key: KeyId, rules: seq<Rule>): Call {
    Call(key, true, false, false, false, seq(|rules|, _ => true), seq(|rules|, _ => true), seq(|rules| + 1, _ => 0))
  }

  lemma {:induction false} NothingObjects(cfg: Config, key: KeyId, s: Tables, i: nat)
    requires Usable(cfg, key) && i <= |cfg.rules(key)| && TimeOf(s.times, key).None?
    requires forall j | 0 <= j < |cfg.rules(key)| && cfg.rules(key)[j].MaxUses? ::
               UsesLeft(s.counts, key, cfg.rules(key)[j].m)
    ensures FirstError(cfg.rules(key), ReadyCall(key, cfg.rules(key)), s, i) == OK
    decreases |cfg.rules(key)| - i
  {
    if i < |cfg.rules(key)| {
      NothingObjects(cfg, key, s, i + 1);
    }
  }

  /** A usable key without entries that stand in the way is authorized. */
  lemma ReadyIsAuthorized(cfg: Config, key: KeyId, s: Tables)
    requires Usable(cfg, key) && s.times == []
    requires forall j | 0 <= j < |cfg.rules(key)| && cfg.rules(key)[j].MaxUses? ::
               UsesLeft(s.counts, key, cfg.rules(key)[j].m)
    requires s.counts == [] || CountOf(s.counts, key).Some?
    ensures var c := ReadyCall(key, cfg.rules(key));
            && CallOk(c, cfg.rules(key)) && After(cfg, s, c).1 == OK && End(c) == 0
            && (MinInterval(cfg.rules(key)) == UINT32_MAX ==> After(cfg, s, c).0.times == [])
            && (CountsUses(cfg.rules(key)) ==> After(cfg, s, c).0.counts == Increment(s.counts, key, cfg.maxCounts).0)
            && (!CountsUses(cfg.rules(key)) ==> After(cfg, s, c).0.counts == s.counts)
  {
    hide FirstError, MinInterval, Increment;
    var rules := cfg.rules(key);
    var c := ReadyCall(key, rules);
    NothingObjects(cfg, key, s, 0);
    if NeedsToken(rules) {
      var i :| 0 <= i < |rules| && rules[i].UserSecureId?;
      assert rules[i].UserSecureId? && c.tokenOk[i];
    }
    RoomForOne(s.counts, key, cfg.maxCounts);
  }

  lemma RoomForOne(l: seq<AccessCount>, key: KeyId, maxSize: nat)
    requires l == [] || CountOf(l, key).Some?
    ensures maxSize > 0 ==> Increment(l, key, maxSize).1
  {
  }

  /** In every run, uses of the key are at least t apart. */
  ghost predicate AlwaysSpaced(cfg: Config, key: KeyId, t: nat) {
    forall states: seq<Tables>, calls: seq<Call>, i: nat, j: nat
      | Run(cfg, states, calls) && i < j < |calls| && calls[i].key == calls[j].key == key
        && Authorized(cfg, states, calls, i) && Authorized(cfg, states, calls, j) ::
      End(calls[j]) - End(calls[i]) >= t
  }

  /** In every run, the key is used at most m times. */
  ghost predicate AlwaysWithin(cfg: Config, key: KeyId, m: nat) {
    forall states: seq<Tables>, calls: seq<Call>, n: nat | Run(cfg, states, calls) && n <= |calls| ::
      Uses(cfg, states, calls, n, key) <= m
  }

  /** The last minimum interval among the authorizations. */
  function Interval(rules: seq<Rule>): Option<nat> {
    if rules == [] then None
    else
      var last := rules[|rules| - 1];
      if last.MinSeconds? then Some(last.t) else Interval(rules[..|rules| - 1])
  }

  lemma {:induction false} IntervalIs(rules: seq<Rule>)
    ensures MinInterval(rules) == if Interval(rules).Some? then Interval(rules).value else UINT32_MAX
  {
    if rules != [] {
      IntervalIs(rules[..|rules| - 1]);
    }
  }

  /**
   The interval of a usable key keeps its uses apart if and only if it is not
   UINT32_MAX.  The other limits of the key must leave it two uses.
   */
  lemma SpacedIff(cfg: Config, key: KeyId, t: nat)
    requires Usable(cfg, key) && Interval(cfg.rules(key)) == Some(t)
    requires forall j | 0 <= j < |cfg.rules(key)| && cfg.rules(key)[j].MaxUses? :: cfg.rules(key)[j].m >= 2
    ensures AlwaysSpaced(cfg, key, t) <==> t != UINT32_MAX
  {
    hide After, MinInterval;
    IntervalIs(cfg.rules(key));
    if t != UINT32_MAX {
      forall states: seq<Tables>, calls: seq<Call>, i: nat, j: nat
        | Run(cfg, states, calls) && i < j < |calls| && calls[i].key == calls[j].key == key
          && Authorized(cfg, states, calls, i) && Authorized(cfg, states, calls, j)
        ensures End(calls[j]) - End(calls[i]) >= t
      {
        UsesAreSpaced(cfg, states, calls, i, j);
      }
    } else {
      var states, calls := TwoAtOnce(cfg, key);
      assert End(calls[1]) - End(calls[0]) < t;
    }
  }

  /** Two authorized uses of a key at the same time, under an interval of UINT32_MAX. */
  lemma TwoAtOnce(cfg: Config, key: KeyId) returns (states: seq<Tables>, calls: seq<Call>)
    requires Usable(cfg, key) && MinInterval(cfg.rules(key)) == UINT32_MAX
    requires forall j | 0 <= j < |cfg.rules(key)| && cfg.rules(key)[j].MaxUses? :: cfg.rules(key)[j].m >= 2
    ensures Run(cfg, states, calls) && |calls| == 2 && calls[0].key == calls[1].key == key
    ensures Authorized(cfg, states, calls, 0) && Authorized(cfg, states, calls, 1)
    ensures End(calls[0]) == End(calls[1]) == 0
  {
    hide After, MinInterval;
    var c := ReadyCall(key, cfg.rules(key));
    var s0 := Tables([], []);
    ReadyIsAuthorized(cfg, key, s0);
    var s1 := After(cfg, s0, c).0;
    ReadyIsAuthorized(cfg, key, s1);
    states, calls := [s0, s1, After(cfg, s1, c).0], [c, c];
  }

  /** A limit on uses holds if and only if it allows one use. */
  lemma WithinIff(cfg: Config, key: KeyId, p: nat)
    requires Usable(cfg, key) && p < |cfg.rules(key)| && cfg.rules(key)[p].MaxUses?
    ensures AlwaysWithin(cfg, key, cfg.rules(key)[p].m) <==> cfg.rules(key)[p].m >= 1
  {
    hide After, MinInterval;
    var m := cfg.rules(key)[p].m;
    if m >= 1 {
      forall states: seq<Tables>, calls: seq<Call>, n: nat | Run(cfg, states, calls) && n <= |calls|
        ensures Uses(cfg, states, calls, n, key) <= m
      {
        UsesAreLimited(cfg, states, calls, n, key, p);
      }
    } else {
      var states, calls := OneUse(cfg, key);
      assert Uses(cfg, states, calls, 1, key) > m;
    }
  }

  /** The first use of a usable key is authorized, whatever its limit on uses. */
  lemma OneUse(cfg: Config, key: KeyId) returns (states: seq<Tables>, calls: seq<Call>)
    requires Usable(cfg, key)
    ensures Run(cfg, states, calls) && |calls| == 1 && Uses(cfg, states, calls, 1, key) == 1
  {
    hide After, MinInterval;
    var c := ReadyCall(key, cfg.rules(key));
    var s0 := Tables([], []);
    ReadyIsAuthorized(cfg, key, s0);
    states, calls := [s0, After(cfg, s0, c).0], [c];
    assert Uses(cfg, states, calls, 0, key) == 0;
  }

  /** A key that may be used zero times per boot, used once. */
  lemma UseAtLimitZero(cfg: Config, c: Call)
    requires cfg.rules(c.key) == [MaxUses(0)] && cfg.maxCounts > 0
    requires c == ReadyCall(c.key, [MaxUses(0)])
    ensures CallOk(c, cfg.rules(c.key)) && After(cfg, Tables([], []), c).1 == OK
  {
    MinIntervalOfOne(MaxUses(0));
    ReadyIsAuthorized(cfg, c.key, Tables([], []));
  }

  /** A key with an interval of UINT32_MAX leaves no trace and can be used again at once. */
  lemma UseWithoutTrace(cfg: Config, c: Call)
    requires cfg.rules(c.key) == [MinSeconds(UINT32_MAX)] && c == ReadyCall(c.key, [MinSeconds(UINT32_MAX)])
    ensures CallOk(c, cfg.rules(c.key)) && After(cfg, Tables([], []), c) == (Tables([], []), OK)
  {
    MinIntervalOfOne(MinSeconds(UINT32_MAX));
    ReadyIsAuthorized(cfg, c.key, Tables([], []));
  }

  lemma MinIntervalOfOne(r: Rule)
    ensures MinInterval([r]) == if r.MinSeconds? then r.t else UINT32_MAX
  {
    assert [r][..0] == [];
  }
}
