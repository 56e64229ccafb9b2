/** Sorting the stored elements of a set by the parameters they stand for. */
module AuthSorting {
  import opened Bytes
  import opened AuthData
  import opened AuthOrder

  /** The elements of a set in some sorted arrangement. */
  ghost predicate SortedFrom(le: Order, r: Rep, r': Rep) {
    && r'.area == r.area && multiset(r'.elems) == multiset(r.elems)
    && RepOk(r') && Sorted(le, Params(r'))
  }

  function Insert(le: Order, e: Elem, es: seq<Elem>, area: seq<byte>): (r: seq<Elem>)
    requires ElemOk(e, |area|) && forall i | 0 <= i < |es| :: ElemOk(es[i], |area|)
    ensures multiset(r) == multiset{e} + multiset(es)
    ensures forall i | 0 <= i < |r| :: ElemOk(r[i], |area|)
  {
    if es == [] || le(Denote(e, area), Denote(es[0], area)) then
      assert multiset([e] + es) == multiset{e} + multiset(es);
      [e] + es
    else
      assert es == [es[0]] + es[1..];
      var more := Insert(le, e, es[1..], area);
      assert forall i | 0 <= i < |more| :: ElemOk(more[i], |area|);
      [es[0]] + more
  }

  /** An arrangement in order, as qsort leaves it. */
  function Sort(le: Order, es: seq<Elem>, area: seq<byte>): (r: seq<Elem>)
    requires forall i | 0 <= i < |es| :: ElemOk(es[i], |area|)
    ensures multiset(r) == multiset(es)
    ensures forall i | 0 <= i < |r| :: ElemOk(r[i], |area|)
  {
    if es == [] then []
    else
      assert es == [es[0]] + es[1..];
      Insert(le, es[0], Sort(le, es[1..], area), area)
  }

  lemma InsertedFrom(le: Order, e: Elem, es: seq<Elem>, area: seq<byte>, j: nat)
    requires ElemOk(e, |area|) && forall i | 0 <= i < |es| :: ElemOk(es[i], |area|)
    requires j < |Insert(le, e, es, area)|
    ensures var x := Insert(le, e, es, area)[j]; x == e || x in es
  {
    hide ElemOk, Insert;
    var r := Insert(le, e, es, area);
    assert r[j] in multiset(r);
  }

  lemma ParamsCons(e: Elem, es: seq<Elem>, area: seq<byte>)
    requires RepOk(Rep([e] + es, area))
    ensures ElemOk(e, |area|) && RepOk(Rep(es, area))
    ensures Params(Rep([e] + es, area)) == [Denote(e, area)] + Params(Rep(es, area))
  {
    hide ElemOk, AuthData.Denote;
    var all := [e] + es;
    assert all[0] == e && forall i | 0 <= i < |es| :: es[i] == all[i + 1];
  }

  lemma SortedCons(le: Order, p: Param, ps: seq<Param>)
    requires TotalOrder(le) && Sorted(le, ps) && forall j | 0 <= j < |ps| :: le(p, ps[j])
    ensures Sorted(le, [p] + ps)
  {
    assert le(p, p);
  }

  lemma {:induction false} InsertSorted(le: Order, e: Elem, es: seq<Elem>, area: seq<byte>)
    requires TotalOrder(le)
    requires ElemOk(e, |area|) && RepOk(Rep(es, area)) && Sorted(le, Params(Rep(es, area)))
    ensures Sorted(le, Params(Rep(Insert(le, e, es, area), area)))
  {
    hide ElemOk, AuthData.Denote;
    var ps := Params(Rep(es, area));
    if es == [] || le(Denote(e, area), Denote(es[0], area)) {
      forall j | 0 <= j < |es|
        ensures le(Denote(e, area), ps[j])
      {
        assert le(ps[0], ps[j]);
      }
      ParamsCons(e, es, area);
      SortedCons(le, Denote(e, area), ps);
    } else {
      var t := es[1..];
      assert es == [es[0]] + t;
      ParamsCons(es[0], t, area);
      assert Params(Rep(t, area)) == ps[1..];
      InsertSorted(le, e, t, area);
      var more := Insert(le, e, t, area);
      ParamsCons(es[0], more, area);
      forall j | 0 <= j < |more|
        ensures le(ps[0], Params(Rep(more, area))[j])
      {
        InsertedFrom(le, e, t, area, j);
        if more[j] != e {
          var k :| 0 <= k < |t| && t[k] == more[j];
          assert ps[k + 1] == Denote(t[k], area);
        }
      }
      SortedCons(le, ps[0], Params(Rep(more, area)));
    }
  }

  lemma {:induction false} SortSorted(le: Order, es: seq<Elem>, area: seq<byte>)
    requires TotalOrder(le) && RepOk(Rep(es, area))
    ensures Sorted(le, Params(Rep(Sort(le, es, area), area)))
  {
    if es != [] {
      SortSorted(le, es[1..], area);
      InsertSorted(le, es[0], Sort(le, es[1..], area), area);
    }
  }

  // What a rearrangement keeps.

  lemma Remove<T>(s: seq<T>, i: nat)
    requires i < |s|
    ensures multiset(s[..i] + s[i + 1..]) == multiset(s) - multiset{s[i]}
  {
    assert s == s[..i] + [s[i]] + s[i + 1..];
  }

  lemma {:induction false} SizesRemove(s: seq<Elem>, i: nat)
    requires i < |s|
    ensures ElemsSize(s) == ElemSize(s[i]) + ElemsSize(s[..i] + s[i + 1..])
    ensures BlobTotal(s) == BlobLength(s[i]) + BlobTotal(s[..i] + s[i + 1..])
  {
    if i == 0 {
      assert s[..0] + s[1..] == s[1..];
    } else {
      var t := s[1..];
      SizesRemove(t, i - 1);
      assert (s[..i] + s[i + 1..])[1..] == t[..i - 1] + t[i..];
    }
  }

  /** Rearranging elements keeps every size. */
  lemma {:induction false} SizesKept(a: seq<Elem>, b: seq<Elem>)
    requires multiset(a) == multiset(b)
    ensures |a| == |b| && ElemsSize(a) == ElemsSize(b) && BlobTotal(a) == BlobTotal(b)
  {
    SameMembers(a, b);
    if a != [] {
      assert a[0] in b;
      var i :| 0 <= i < |b| && b[i] == a[0];
      var b' := b[..i] + b[i + 1..];
      Remove(b, i);
      MultisetTail(a);
      SizesKept(a[1..], b');
      SizesRemove(b, i);
    }
  }

  lemma RepOkKept(a: seq<Elem>, b: seq<Elem>, area: seq<byte>)
    requires multiset(a) == multiset(b) && RepOk(Rep(a, area))
    ensures RepOk(Rep(b, area))
  {
    hide ElemOk;
    SameMembers(b, a);
    forall j | 0 <= j < |b|
      ensures ElemOk(b[j], |area|)
    {
      assert b[j] in a;
      var k :| 0 <= k < |a| && a[k] == b[j];
    }
  }

  lemma ParamsRemove(s: seq<Elem>, i: nat, area: seq<byte>)
    requires i < |s| && RepOk(Rep(s, area))
    ensures RepOk(Rep(s[..i] + s[i + 1..], area))
    ensures multiset(Params(Rep(s, area))) ==
            multiset(Params(Rep(s[..i] + s[i + 1..], area))) + multiset{Denote(s[i], area)}
  {
    hide ElemOk, AuthData.Denote;
    var ps := Params(Rep(s, area));
    assert Params(Rep(s[..i] + s[i + 1..], area)) == ps[..i] + ps[i + 1..];
    Remove(ps, i);
    assert ps[i] in multiset(ps);
  }

  lemma {:induction false} ParamsKept(a: seq<Elem>, b: seq<Elem>, area: seq<byte>)
    requires multiset(a) == multiset(b) && RepOk(Rep(a, area))
    ensures RepOk(Rep(b, area)) && multiset(Params(Rep(a, area))) == multiset(Params(Rep(b, area)))
  {
    hide ElemOk, AuthData.Denote, Params, RepOk;
    RepOkKept(a, b, area);
    SameMembers(a, b);
    if a == [] {
      assert a == b;
    } else {
      assert a[0] in b;
      var i :| 0 <= i < |b| && b[i] == a[0];
      var a', b' := a[..0] + a[0 + 1..], b[..i] + b[i + 1..];
      assert multiset(a') == multiset(b') by {
        Remove(a, 0);
        Remove(b, i);
      }
      ParamsRemove(a, 0, area);
      ParamsRemove(b, i, area);
      ParamsKept(a', b', area);
    }
  }
}
