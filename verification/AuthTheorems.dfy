/** What holds of every set that push_back, Reinitialize and Sort can build. */
module AuthTheorems {
  import opened Basics
  import opened Bytes
  import opened Codec
  import opened AuthData
  import opened AuthOrder
  import opened AuthSorting

  /** The indirect area holds the blobs of the elements and nothing else. */
  ghost predicate Tight(r: Rep) {
    RepOk(r) && BlobTotal(r.elems) == |r.area|
  }

  lemma PushTight(r: Rep, p: Param)
    requires Tight(r) && ParamOk(p)
    ensures Tight(Push(r, p))
  {
    PushOk(r, p);
    var r' := Push(r, p);
    var e := r'.elems[|r.elems|];
    assert r'.elems == r.elems + [e];
    SizeAppend(r.elems, e);
  }

  lemma {:induction false} PushAllTight(r: Rep, ps: seq<Param>)
    requires Tight(r) && forall i | 0 <= i < |ps| :: ParamOk(ps[i])
    ensures Tight(PushAll(r, ps))
  {
    if ps != [] {
      PushAllTight(r, ps[..|ps| - 1]);
      PushTight(PushAll(r, ps[..|ps| - 1]), ps[|ps| - 1]);
    }
  }

  datatype Op = PushOp(p: Param) | PushAllOp(ps: seq<Param>) | ReinitializeOp(ps: seq<Param>) | SortOp

  ghost predicate OpOk(op: Op) {
    match op
    case PushOp(p) => ParamOk(p)
    case PushAllOp(ps) => forall i | 0 <= i < |ps| :: ParamOk(ps[i])
    case ReinitializeOp(ps) => forall i | 0 <= i < |ps| :: ParamOk(ps[i])
    case SortOp => true
  }

  ghost predicate Step(le: Order, r: Rep, op: Op, r': Rep)
    requires OpOk(op)
  {
    match op
    case PushOp(p) => r' == Push(r, p)
    case PushAllOp(ps) => r' == PushAll(r, ps)
    case ReinitializeOp(ps) => r' == PushAll(Rep([], []), ps)
    case SortOp => SortedFrom(le, r, r')
  }

  /** The parameters a sequence of operations puts into an empty set, in any order. */
  ghost function Contents(ops: seq<Op>): multiset<Param> {
    if ops == [] then multiset{} else Effect(Contents(ops[..|ops| - 1]), ops[|ops| - 1])
  }

  ghost function Effect(before: multiset<Param>, op: Op): multiset<Param> {
    match op
    case PushOp(p) => before + multiset{p}
    case PushAllOp(ps) => before + multiset(ps)
    case ReinitializeOp(ps) => multiset(ps)
    case SortOp => before
  }

  ghost predicate Run(le: Order, states: seq<Rep>, ops: seq<Op>) {
    && |states| == |ops| + 1 && states[0] == Rep([], [])
    && (forall i | 0 <= i < |ops| :: OpOk(ops[i]))
    && (forall i | 0 <= i < |ops| :: Step(le, states[i], ops[i], states[i + 1]))
  }

  /** Every set that can be built is tight and holds exactly what was put into it. */
  lemma {:induction false} BuiltSets(le: Order, states: seq<Rep>, ops: seq<Op>)
    requires Run(le, states, ops)
    ensures Tight(states[|ops|]) && multiset(Params(states[|ops|])) == Contents(ops)
  {
    hide AuthData.Params, Tight, OpOk, Step, Effect;
    var n := |ops| - 1;
    if ops == [] {
      NothingTight();
    } else {
      assert Run(le, states[..n + 1], ops[..n]);
      BuiltSets(le, states[..n + 1], ops[..n]);
      StepTight(le, states[n], ops[n], states[n + 1]);
    }
  }

  lemma NothingTight()
    ensures Tight(Rep([], [])) && Params(Rep([], [])) == []
  {
  }

  lemma StepTight(le: Order, r: Rep, op: Op, r': Rep)
    requires OpOk(op) && Step(le, r, op, r') && Tight(r)
    ensures Tight(r') && multiset(Params(r')) == Effect(multiset(Params(r)), op)
  {
    hide AuthData.Params, ParamOk, Push, PushAll;
    match op
    case PushOp(p) =>
      PushTight(r, p);
      PushOk(r, p);
    case PushAllOp(ps) =>
      PushAllTight(r, ps);
      PushAllOk(r, ps);
    case ReinitializeOp(ps) =>
      var none := Rep([], []);
      NothingTight();
      PushAllTight(none, ps);
      PushAllOk(none, ps);
      assert Params(none) + ps == ps;
    case SortOp =>
      SizesKept(r.elems, r'.elems);
      ParamsKept(r.elems, r'.elems, r.area);
  }

  /**
   A built set is written in exactly SerializedSize bytes; reading them consumes
   exactly those and gives the same set, which is written in the same bytes again.
   This holds exactly when every tag is readable and the sizes fit in 32 bits.
   */
  lemma BuiltRoundTrip(le: Order, states: seq<Rep>, ops: seq<Op>, rest: seq<byte>)
    requires Run(le, states, ops)
    ensures var r := states[|ops|];
            && Tight(r) && |Encode(r)| == SerializedSize(r)
            && (Decode(Encode(r) + rest) == Got(r, rest) <==>
                  && (forall i | 0 <= i < |r.elems| :: KindOf(r.elems[i].tag) !in {Invalid, Unknown})
                  && |r.area| < U32 && |r.elems| < U32 && ElemsSize(r.elems) < U32)
  {
    BuiltSets(le, states, ops);
    RoundTrip(states[|ops|], rest);
  }
}
