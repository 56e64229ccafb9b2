/**
 Parameter sequences under the order of keymaster_param_compare, which is any total
 order on parameters in which KM_TAG_INVALID comes first.
 */
module AuthOrder {
  import opened AuthData

  type Order = (Param, Param) -> bool

  const INVALID_PARAM: Param := Param(KM_TAG_INVALID, Nothing)

  ghost predicate TotalOrder(le: Order) {
    && (forall a, b :: le(a, b) || le(b, a))
    && (forall a, b :: le(a, b) && le(b, a) ==> a == b)
    && (forall a, b, c {:trigger le(a, b), le(b, c)} :: le(a, b) && le(b, c) ==> le(a, c))
    && (forall a :: le(INVALID_PARAM, a))
  }

  ghost predicate Sorted(le: Order, ps: seq<Param>) {
    forall i, j | 0 <= i <= j < |ps| :: le(ps[i], ps[j])
  }

  ghost predicate StrictlySorted(le: Order, ps: seq<Param>) {
    Sorted(le, ps) && forall i, j | 0 <= i < j < |ps| :: ps[i] != ps[j]
  }

  /** The least element stands first. */
  lemma SortedFirst(le: Order, a: seq<Param>, b: seq<Param>)
    requires TotalOrder(le) && Sorted(le, a) && Sorted(le, b)
    requires a != [] && b != [] && a[0] in b && b[0] in a
    ensures a[0] == b[0]
  {
    var i :| 0 <= i < |b| && b[i] == a[0];
    var j :| 0 <= j < |a| && a[j] == b[0];
    assert le(a[0], a[j]) && le(b[0], b[i]);
  }

  lemma MultisetTail<T>(a: seq<T>)
    requires a != []
    ensures multiset(a[1..]) == multiset(a) - multiset{a[0]}
  {
    assert a == [a[0]] + a[1..];
  }

  lemma SameMembers<T>(a: seq<T>, b: seq<T>)
    requires multiset(a) == multiset(b)
    ensures |a| == |b| && forall x :: x in a ==> x in b
  {
    assert |multiset(a)| == |a| && |multiset(b)| == |b|;
    forall x | x in a
      ensures x in b
    {
      assert x in multiset(b);
    }
  }

  /** A sorted arrangement of given elements is unique, so any sorting routine gives it. */
  lemma {:induction false} SortedUnique(le: Order, a: seq<Param>, b: seq<Param>)
    requires TotalOrder(le) && Sorted(le, a) && Sorted(le, b) && multiset(a) == multiset(b)
    ensures a == b
  {
    SameMembers(a, b);
    SameMembers(b, a);
    if a != [] {
      assert a[0] in a && b[0] in b;
      SortedFirst(le, a, b);
      SortedTail(le, a);
      SortedTail(le, b);
      hide TotalOrder, Sorted;
      MultisetTail(a);
      MultisetTail(b);
      SortedUnique(le, a[1..], b[1..]);
      assert a == [a[0]] + a[1..] && b == [b[0]] + b[1..];
    }
  }

  lemma SortedTail(le: Order, a: seq<Param>)
    requires Sorted(le, a) && a != []
    ensures Sorted(le, a[1..])
  {
  }

  // Deduplicate.

  /** The marking pass: every element equal to its successor becomes invalid. */
  function Marked(ps: seq<Param>): (m: seq<Param>)
    ensures |m| == |ps|
  {
    seq(|ps|, i requires 0 <= i < |ps| => MarkedAt(ps, i))
  }

  function MarkedAt(ps: seq<Param>, i: nat): Param
    requires i < |ps|
  {
    if i + 1 < |ps| && ps[i] == ps[i + 1] then INVALID_PARAM else ps[i]
  }

  /** The elements that are not invalid, in order. */
  function Kept(ps: seq<Param>): seq<Param> {
    if ps == [] then []
    else if ps[0] == INVALID_PARAM then Kept(ps[1..])
    else [ps[0]] + Kept(ps[1..])
  }

  function InvalidCount(ps: seq<Param>): (n: nat)
    ensures n <= |ps|
  {
    if ps == [] then 0 else (if ps[0] == INVALID_PARAM then 1 else 0) + InvalidCount(ps[1..])
  }

  function Invalids(n: nat): (s: seq<Param>)
    ensures |s| == n
  {
    seq(n, i => INVALID_PARAM)
  }

  lemma InvalidsMore(n: nat)
    ensures Invalids(n + 1) == [INVALID_PARAM] + Invalids(n)
  {
  }

  lemma MultisetConcat<T>(a: seq<T>, b: seq<T>)
    ensures multiset(a + b) == multiset(a) + multiset(b)
  {
  }

  /** Elements are those kept and the invalid ones. */
  lemma {:induction false} KeptMultiset(ps: seq<Param>)
    ensures multiset(ps) == multiset(Invalids(InvalidCount(ps))) + multiset(Kept(ps))
    ensures |ps| == InvalidCount(ps) + |Kept(ps)|
  {
    if ps != [] {
      var first, rest := [ps[0]], ps[1..];
      KeptMultiset(rest);
      assert ps == first + rest;
      MultisetConcat(first, rest);
      if ps[0] == INVALID_PARAM {
        InvalidsMore(InvalidCount(rest));
        MultisetConcat(first, Invalids(InvalidCount(rest)));
      } else {
        MultisetConcat(first, Kept(rest));
      }
    }
  }

  lemma {:induction false} KeptMember(ps: seq<Param>, p: Param)
    ensures p in Kept(ps) <==> p in ps && p != INVALID_PARAM
  {
    if ps != [] {
      KeptMember(ps[1..], p);
      assert ps == [ps[0]] + ps[1..];
    }
  }

  /** Valid elements stand in strict order. */
  ghost predicate ValidStrict(le: Order, ps: seq<Param>) {
    forall i, j | 0 <= i < j < |ps| && ps[i] != INVALID_PARAM && ps[j] != INVALID_PARAM ::
      le(ps[i], ps[j]) && ps[i] != ps[j]
  }

  lemma {:induction false} KeptStrict(le: Order, ps: seq<Param>)
    requires TotalOrder(le) && ValidStrict(le, ps)
    ensures StrictlySorted(le, Kept(ps))
  {
    if ps != [] {
      var t := ps[1..];
      assert ValidStrict(le, t) by {
        assert forall i | 0 <= i < |t| :: t[i] == ps[i + 1];
      }
      KeptStrict(le, t);
      if ps[0] != INVALID_PARAM {
        var k := Kept(t);
        forall j | 0 <= j < |k|
          ensures le(ps[0], k[j]) && ps[0] != k[j]
        {
          KeptMember(t, k[j]);
          var i :| 0 <= i < |t| && t[i] == k[j];
          assert ps[i + 1] == k[j];
        }
        assert le(ps[0], ps[0]);
      }
    }
  }

  /** Marking a sorted sequence leaves the last of each run. */
  lemma MarkedStrict(le: Order, ps: seq<Param>)
    requires TotalOrder(le) && Sorted(le, ps)
    ensures ValidStrict(le, Marked(ps))
  {
    var m := Marked(ps);
    forall i, j | 0 <= i < j < |m| && m[i] != INVALID_PARAM && m[j] != INVALID_PARAM
      ensures le(m[i], m[j]) && m[i] != m[j]
    {
      assert m[i] == ps[i] && m[j] == ps[j];
      assert le(ps[i], ps[i + 1]) && le(ps[i + 1], ps[j]);
    }
  }

  lemma {:induction false} MarkedMember(ps: seq<Param>, i: nat)
    requires i < |ps| && ps[i] != INVALID_PARAM
    ensures ps[i] in Marked(ps)
    decreases |ps| - i
  {
    if i + 1 < |ps| && ps[i] == ps[i + 1] {
      MarkedMember(ps, i + 1);
    } else {
      assert Marked(ps)[i] == ps[i];
    }
  }

  /** What Deduplicate leaves of a sorted sequence. */
  function Deduplicated(sorted: seq<Param>): seq<Param> {
    Kept(Marked(sorted))
  }

  /**
   Deduplication gives a strictly sorted sequence of exactly the valid parameters,
   and a second sort of the marked sequence puts it behind the invalid ones.
   */
  lemma DeduplicatedCorrect(le: Order, ps: seq<Param>)
    requires TotalOrder(le) && Sorted(le, ps)
    ensures StrictlySorted(le, Deduplicated(ps))
    ensures forall p :: p in Deduplicated(ps) <==> p in ps && p != INVALID_PARAM
  {
    MarkedStrict(le, ps);
    KeptStrict(le, Marked(ps));
    forall p
      ensures p in Deduplicated(ps) <==> p in ps && p != INVALID_PARAM
    {
      KeptMember(Marked(ps), p);
      if p in ps && p != INVALID_PARAM {
        var i :| 0 <= i < |ps| && ps[i] == p;
        MarkedMember(ps, i);
      }
    }
  }

  lemma InvalidsFirst(le: Order, ps: seq<Param>)
    requires TotalOrder(le) && StrictlySorted(le, Kept(ps))
    ensures Sorted(le, Invalids(InvalidCount(ps)) + Kept(ps))
  {
  }

  /** Sorting the marked sequence and dropping the invalid entries. */
  lemma DropInvalids(le: Order, m: seq<Param>, resorted: seq<Param>)
    requires TotalOrder(le) && ValidStrict(le, m)
    requires Sorted(le, resorted) && multiset(resorted) == multiset(m)
    ensures |resorted| == |m| && resorted[InvalidCount(m)..] == Kept(m)
  {
    KeptStrict(le, m);
    KeptMultiset(m);
    InvalidsFirst(le, m);
    var expected := Invalids(InvalidCount(m)) + Kept(m);
    SortedUnique(le, resorted, expected);
    assert |multiset(m)| == |m|;
  }

  lemma {:induction false} InvalidCountSnoc(ps: seq<Param>, p: Param)
    ensures InvalidCount(ps + [p]) == InvalidCount(ps) + if p == INVALID_PARAM then 1 else 0
  {
    if ps == [] {
      assert [] + [p] == [p];
    } else {
      InvalidCountSnoc(ps[1..], p);
      assert (ps + [p])[1..] == ps[1..] + [p];
    }
  }

  lemma {:induction false} NothingInvalid(ps: seq<Param>)
    requires InvalidCount(ps) == 0
    ensures Kept(ps) == ps
  {
    if ps != [] {
      NothingInvalid(ps[1..]);
    }
  }

  /** The marking pass after it has looked at the first k elements. */
  function MarkedUpTo(ps: seq<Param>, k: nat): (m: seq<Param>)
    requires k <= |ps|
    ensures |m| == |ps|
  {
    seq(|ps|, i requires 0 <= i < |ps| => if i < k then MarkedAt(ps, i) else ps[i])
  }

  lemma MarkedStep(ps: seq<Param>, k: nat)
    requires k < |ps|
    ensures MarkedUpTo(ps, k + 1) == MarkedUpTo(ps, k)[k := MarkedAt(ps, k)]
    ensures MarkedUpTo(ps, k)[k] == ps[k] && (k + 1 < |ps| ==> MarkedUpTo(ps, k)[k + 1] == ps[k + 1])
    ensures InvalidCount(MarkedUpTo(ps, k + 1)[..k + 1]) ==
            InvalidCount(MarkedUpTo(ps, k)[..k]) + if MarkedAt(ps, k) == INVALID_PARAM then 1 else 0
  {
    var m := MarkedUpTo(ps, k + 1);
    assert m[..k] == MarkedUpTo(ps, k)[..k];
    assert m[..k + 1] == m[..k] + [MarkedAt(ps, k)];
    InvalidCountSnoc(m[..k], MarkedAt(ps, k));
  }

  /** How the comparison of neighbours decides the marking. */
  lemma MarkedCase(le: Order, ps: seq<Param>, k: nat)
    requires TotalOrder(le) && k < |ps|
    ensures k + 1 == |ps| ==> MarkedAt(ps, k) == ps[k]
    ensures k + 1 < |ps| && le(ps[k], ps[k + 1]) && le(ps[k + 1], ps[k]) ==> MarkedAt(ps, k) == INVALID_PARAM
    ensures k + 1 < |ps| && !(le(ps[k], ps[k + 1]) && le(ps[k + 1], ps[k])) ==> MarkedAt(ps, k) == ps[k]
    ensures ps[k] == INVALID_PARAM ==> MarkedAt(ps, k) == INVALID_PARAM
  {
  }

  lemma MarkedEnds(ps: seq<Param>)
    ensures MarkedUpTo(ps, 0) == ps && MarkedUpTo(ps, |ps|) == Marked(ps)
    ensures MarkedUpTo(ps, 0)[..0] == [] && MarkedUpTo(ps, |ps|)[..|ps|] == Marked(ps)
  {
  }

  lemma RemoveOne(le: Order, ps: seq<Param>, i: nat)
    requires StrictlySorted(le, ps) && i < |ps|
    ensures StrictlySorted(le, ps[..i] + ps[i + 1..])
    ensures forall q :: q in ps[..i] + ps[i + 1..] <==> q in ps && q != ps[i]
  {
    var t := ps[..i] + ps[i + 1..];
    forall q
      ensures q in t <==> q in ps && q != ps[i]
    {
      if q in ps && q != ps[i] {
        var j :| 0 <= j < |ps| && ps[j] == q;
        assert q == t[if j < i then j else j - 1];
      }
    }
  }
}
