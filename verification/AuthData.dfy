/**
 Authorization sets as values: parameters, their stored form, and the serialized
 form of keymaster/authorization_set.cpp.
 */
module AuthData {
  import opened Basics
  import opened Bytes
  import opened Codec

  const KM_TAG_INVALID: nat := 0

  /** What the type nibble of a tag makes of the parameter's value. */
  datatype Kind = Invalid | Word | Long | Bool | Blob | Unknown

  function KindOf(tag: nat): Kind {
    var t := tag / 0x1000_0000;
    if t == 0 then Invalid
    else if 1 <= t <= 4 then Word
    else if t == 5 || t == 6 || t == 10 then Long
    else if t == 7 then Bool
    else if t == 8 || t == 9 then Blob
    else Unknown
  }

  /** A stored payload: a number, or a region of the indirect area. */
  datatype Payload = Number(n: nat) | Region(offset: nat, length: nat)

  datatype Elem = Elem(tag: nat, payload: Payload)

  /** The stored form of a set: its elements and the indirect area in use. */
  datatype Rep = Rep(elems: seq<Elem>, area: seq<byte>)

  /** A parameter as callers see it. */
  datatype Value = Nothing | Num(n: nat) | Data(bytes: seq<byte>)

  datatype Param = Param(tag: nat, value: Value)

  predicate ParamOk(p: Param) {
    && p.tag < U32
    && match KindOf(p.tag)
       case Word => p.value.Num? && p.value.n < U32
       case Long => p.value.Num? && p.value.n < U32 * U32
       case Bool => p.value.Num? && p.value.n < 2
       case Blob => p.value.Data?
       case _ => p.value.Nothing?
  }

  predicate ElemOk(e: Elem, areaSize: nat) {
    && e.tag < U32
    && match KindOf(e.tag)
       case Word => e.payload.Number? && e.payload.n < U32
       case Long => e.payload.Number? && e.payload.n < U32 * U32
       case Bool => e.payload.Number? && e.payload.n < 2
       case Blob => e.payload.Region? && e.payload.offset + e.payload.length <= areaSize
       case _ => true
  }

  predicate RepOk(r: Rep) {
    forall i | 0 <= i < |r.elems| :: ElemOk(r.elems[i], |r.area|)
  }

  /** The parameter an element stands for. */
  function Denote(e: Elem, area: seq<byte>): (p: Param)
    requires ElemOk(e, |area|)
    ensures ParamOk(p)
  {
    match KindOf(e.tag)
    case Word => Param(e.tag, Num(e.payload.n))
    case Long => Param(e.tag, Num(e.payload.n))
    case Bool => Param(e.tag, Num(e.payload.n))
    case Blob => Param(e.tag, Data(area[e.payload.offset..e.payload.offset + e.payload.length]))
    case _ => Param(e.tag, Nothing)
  }

  function Params(r: Rep): (ps: seq<Param>)
    requires RepOk(r)
    ensures |ps| == |r.elems|
  {
    seq(|r.elems|, i requires 0 <= i < |r.elems| => Denote(r.elems[i], r.area))
  }

  // Building a set.

  /** push_back of one parameter. */
  function Push(r: Rep, p: Param): Rep
    requires ParamOk(p)
  {
    if KindOf(p.tag) == Blob then
      Rep(r.elems + [Elem(p.tag, Region(|r.area|, |p.value.bytes|))], r.area + p.value.bytes)
    else
      Rep(r.elems + [Elem(p.tag, Number(if p.value.Num? then p.value.n else 0))], r.area)
  }

  lemma DenoteGrow(e: Elem, area: seq<byte>, more: seq<byte>)
    requires ElemOk(e, |area|)
    ensures ElemOk(e, |area + more|) && Denote(e, area + more) == Denote(e, area)
  {
    if KindOf(e.tag) == Blob {
      var o := e.payload.offset;
      assert (area + more)[o..o + e.payload.length] == area[o..o + e.payload.length];
    }
  }

  /** Appending a parameter appends exactly it to what the set denotes. */
  lemma PushOk(r: Rep, p: Param)
    requires RepOk(r) && ParamOk(p)
    ensures RepOk(Push(r, p)) && Params(Push(r, p)) == Params(r) + [p]
  {
    var r' := Push(r, p);
    var more := if KindOf(p.tag) == Blob then p.value.bytes else [];
    assert r'.area == r.area + more;
    PushDenote(r, p);
    hide KindOf, ElemOk, Denote, ParamOk;
    forall i | 0 <= i < |r.elems|
      ensures ElemOk(r'.elems[i], |r'.area|) && Denote(r'.elems[i], r'.area) == Denote(r.elems[i], r.area)
    {
      DenoteGrow(r.elems[i], r.area, more);
    }
  }

  lemma PushDenote(r: Rep, p: Param)
    requires ParamOk(p)
    ensures var r', n := Push(r, p), |r.elems|;
            && |r'.elems| == n + 1 && r'.elems[..n] == r.elems
            && ElemOk(r'.elems[n], |r'.area|) && Denote(r'.elems[n], r'.area) == p
  {
    if KindOf(p.tag) == Blob {
      var more := p.value.bytes;
      assert (r.area + more)[|r.area|..|r.area| + |more|] == more;
    }
  }

  function PushAll(r: Rep, ps: seq<Param>): Rep
    requires forall i | 0 <= i < |ps| :: ParamOk(ps[i])
  {
    if ps == [] then r else Push(PushAll(r, ps[..|ps| - 1]), ps[|ps| - 1])
  }

  lemma PushAllSnoc(r: Rep, ps: seq<Param>, i: nat)
    requires i < |ps| && forall i | 0 <= i < |ps| :: ParamOk(ps[i])
    ensures PushAll(r, ps[..i + 1]) == Push(PushAll(r, ps[..i]), ps[i])
  {
    assert ps[..i + 1][..i] == ps[..i];
  }

  lemma {:induction false} PushAllOk(r: Rep, ps: seq<Param>)
    requires RepOk(r) && forall i | 0 <= i < |ps| :: ParamOk(ps[i])
    ensures RepOk(PushAll(r, ps)) && Params(PushAll(r, ps)) == Params(r) + ps
  {
    hide ParamOk, Params, Push, RepOk;
    if ps == [] {
      assert Params(r) + ps == Params(r);
    } else {
      var n := |ps| - 1;
      PushAllOk(r, ps[..n]);
      PushOk(PushAll(r, ps[..n]), ps[n]);
      assert (Params(r) + ps[..n]) + [ps[n]] == Params(r) + ps;
    }
  }

  lemma SetOk(r: Rep, k: nat, e: Elem)
    requires RepOk(r) && k < |r.elems| && ElemOk(e, |r.area|)
    ensures RepOk(r.(elems := r.elems[k := e]))
  {
  }

  // Sizes.

  /** serialized_size. */
  function ElemSize(e: Elem): nat {
    match KindOf(e.tag)
    case Word => 8
    case Long => 12
    case Bool => 5
    case Blob => 12
    case _ => 4
  }

  /** SerializedSizeOfElements. */
  function ElemsSize(es: seq<Elem>): nat {
    if es == [] then 0 else ElemSize(es[0]) + ElemsSize(es[1..])
  }

  function BlobLength(e: Elem): nat {
    if KindOf(e.tag) == Blob && e.payload.Region? then e.payload.length else 0
  }

  /** ComputeIndirectDataSize. */
  function BlobTotal(es: seq<Elem>): nat {
    if es == [] then 0 else BlobLength(es[0]) + BlobTotal(es[1..])
  }

  /** One more element at the end. */
  lemma {:induction false} SizeAppend(es: seq<Elem>, e: Elem)
    ensures ElemsSize(es + [e]) == ElemsSize(es) + ElemSize(e)
    ensures BlobTotal(es + [e]) == BlobTotal(es) + BlobLength(e)
  {
    if es == [] {
      assert es + [e] == [e] && [e][1..] == [];
    } else {
      SizeAppend(es[1..], e);
      assert (es + [e])[1..] == es[1..] + [e];
    }
  }

  /** SerializedSize. */
  function SerializedSize(r: Rep): nat {
    4 + |r.area| + 4 + 4 + ElemsSize(r.elems)
  }

  // Serialization.

  /** serialize of one parameter; blobs are written as length and offset. */
  function EncodeElem(e: Elem, areaSize: nat): (s: seq<byte>)
    requires ElemOk(e, areaSize)
    ensures |s| == ElemSize(e)
  {
    PutU32(e.tag) + EncodeValue(e, areaSize)
  }

  function EncodeValue(e: Elem, areaSize: nat): (s: seq<byte>)
    requires ElemOk(e, areaSize)
    ensures |s| == ElemSize(e) - 4
  {
    match KindOf(e.tag)
    case Word => PutU32(e.payload.n)
    case Long => PutU64(e.payload.n)
    case Bool => [e.payload.n]
    case Blob => PutU32(e.payload.length) + PutU32(e.payload.offset)
    case _ => []
  }

  function EncodeElems(es: seq<Elem>, areaSize: nat): (s: seq<byte>)
    requires forall i | 0 <= i < |es| :: ElemOk(es[i], areaSize)
    ensures |s| == ElemsSize(es)
  {
    if es == [] then [] else EncodeElem(es[0], areaSize) + EncodeElems(es[1..], areaSize)
  }

  /** Serialize. */
  function Encode(r: Rep): (s: seq<byte>)
    requires RepOk(r)
    ensures |s| == SerializedSize(r)
  {
    PutData(r.area) + PutU32(|r.elems|) + PutU32(ElemsSize(r.elems)) + EncodeElems(r.elems, |r.area|)
  }

  /** deserialize of one parameter, reading no further than the end of s. */
  function DecodeElem(s: seq<byte>, areaSize: nat): (r: Read<Elem>)
    ensures r.Got? ==> ElemOk(r.value, areaSize) && KindOf(r.value.tag) !in {Invalid, Unknown}
    ensures r.Got? ==> |s| == ElemSize(r.value) + |r.rest| && r.rest == s[ElemSize(r.value)..]
  {
    var tag := GetU32(s);
    if tag.Failed? then Failed
    else
      match KindOf(tag.value)
      case Word =>
        var n := GetU32(tag.rest);
        if n.Failed? then Failed else Got(Elem(tag.value, Number(n.value)), n.rest)
      case Long =>
        var n := GetU64(tag.rest);
        if n.Failed? then Failed else Got(Elem(tag.value, Number(n.value)), n.rest)
      case Bool =>
        if tag.rest == [] then Failed
        else Got(Elem(tag.value, Number(if tag.rest[0] != 0 then 1 else 0)), tag.rest[1..])
      case Blob =>
        var length := GetU32(tag.rest);
        if length.Failed? then Failed
        else
          var offset := GetU32(length.rest);
          if offset.Failed? || offset.value + length.value > areaSize then Failed
          else Got(Elem(tag.value, Region(offset.value, length.value)), offset.rest)
      case _ => Failed
  }

  function DecodeElems(s: seq<byte>, count: nat, areaSize: nat): (r: Read<seq<Elem>>)
    ensures r.Got? ==> |r.value| == count && |s| == ElemsSize(r.value) + |r.rest|
    ensures r.Got? ==> r.rest == s[ElemsSize(r.value)..]
    ensures r.Got? ==> forall i | 0 <= i < count ::
                         ElemOk(r.value[i], areaSize) && KindOf(r.value[i].tag) !in {Invalid, Unknown}
    decreases count
  {
    if count == 0 then Got([], s)
    else
      var first := DecodeElem(s, areaSize);
      if first.Failed? then Failed
      else
        var more := DecodeElems(first.rest, count - 1, areaSize);
        if more.Failed? then Failed else Got([first.value] + more.value, more.rest)
  }

  /**
   Deserialize.  The elements may not reach past the announced size, but bytes of
   that size that no element uses are left to be read.
   */
  function Decode(s: seq<byte>): (r: Read<Rep>) {
    var area := GetData(s);
    if area.Failed? then Failed
    else
      var count := GetU32(area.rest);
      if count.Failed? then Failed
      else
        var size := GetU32(count.rest);
        if size.Failed? || size.value > |size.rest| || 4 * count.value > size.value then Failed
        else
          var elems := DecodeElems(size.rest[..size.value], count.value, |area.value|);
          if elems.Failed? || |area.value| != BlobTotal(elems.value) then Failed
          else Got(Rep(elems.value, area.value), size.rest[ElemsSize(elems.value)..])
  }

  /**
   The sets whose serialized form can be read back: every tag has a readable
   type, the indirect area holds the blobs and nothing else, and the three sizes
   fit in the 32 bits they are written in.
   */
  predicate Serializable(r: Rep) {
    && (forall i | 0 <= i < |r.elems| :: KindOf(r.elems[i].tag) !in {Invalid, Unknown})
    && BlobTotal(r.elems) == |r.area|
    && |r.area| < U32 && |r.elems| < U32 && ElemsSize(r.elems) < U32
  }

  // Reading back.

  lemma DecodeEncodeElem(e: Elem, areaSize: nat, rest: seq<byte>)
    requires ElemOk(e, areaSize) && areaSize < U32 && KindOf(e.tag) !in {Invalid, Unknown}
    ensures DecodeElem(EncodeElem(e, areaSize) + rest, areaSize) == Got(e, rest)
  {
    hide PutU32, PutU64, GetU32, GetU64, KindOf;
    var s := EncodeElem(e, areaSize) + rest;
    match KindOf(e.tag)
    case Word =>
      assert s == PutU32(e.tag) + (PutU32(e.payload.n) + rest);
      GetPutU32(e.tag, PutU32(e.payload.n) + rest);
      GetPutU32(e.payload.n, rest);
    case Long =>
      assert s == PutU32(e.tag) + (PutU64(e.payload.n) + rest);
      GetPutU32(e.tag, PutU64(e.payload.n) + rest);
      GetPutU64(e.payload.n, rest);
    case Bool =>
      assert s == PutU32(e.tag) + ([e.payload.n] + rest);
      GetPutU32(e.tag, [e.payload.n] + rest);
    case Blob =>
      DecodeEncodeBlob(e, areaSize, rest);
  }

  lemma DecodeEncodeBlob(e: Elem, areaSize: nat, rest: seq<byte>)
    requires ElemOk(e, areaSize) && areaSize < U32 && KindOf(e.tag) == Blob
    ensures DecodeElem(EncodeElem(e, areaSize) + rest, areaSize) == Got(e, rest)
  {
    hide PutU32, PutU64, GetU32, GetU64, KindOf;
    var offset := PutU32(e.payload.offset) + rest;
    assert EncodeElem(e, areaSize) + rest == PutU32(e.tag) + (PutU32(e.payload.length) + offset);
    GetPutU32(e.tag, PutU32(e.payload.length) + offset);
    GetPutU32(e.payload.length, offset);
    GetPutU32(e.payload.offset, rest);
  }

  lemma {:induction false} DecodeEncodeElems(es: seq<Elem>, areaSize: nat, rest: seq<byte>)
    requires forall i | 0 <= i < |es| :: ElemOk(es[i], areaSize) && KindOf(es[i].tag) !in {Invalid, Unknown}
    requires areaSize < U32
    ensures DecodeElems(EncodeElems(es, areaSize) + rest, |es|, areaSize) == Got(es, rest)
  {
    hide DecodeElem, EncodeElem;
    if es == [] {
      assert EncodeElems(es, areaSize) + rest == rest;
    } else {
      var tail := EncodeElems(es[1..], areaSize) + rest;
      assert EncodeElems(es, areaSize) + rest == EncodeElem(es[0], areaSize) + tail;
      DecodeEncodeElem(es[0], areaSize, tail);
      DecodeEncodeElems(es[1..], areaSize, rest);
      assert [es[0]] + es[1..] == es && |es[1..]| == |es| - 1;
      assert DecodeElems(EncodeElem(es[0], areaSize) + tail, |es|, areaSize) == Got([es[0]] + es[1..], rest);
    }
  }

  lemma {:induction false} ElemsSizeBound(es: seq<Elem>)
    ensures 4 * |es| <= ElemsSize(es)
  {
    if es != [] {
      ElemsSizeBound(es[1..]);
    }
  }

  lemma DecodeEncode(r: Rep, rest: seq<byte>)
    requires RepOk(r) && Serializable(r)
    ensures Decode(Encode(r) + rest) == Got(r, rest)
  {
    hide PutU32, GetU32, PutData, GetData, EncodeElems, DecodeElems, BlobTotal, ElemsSize;
    var elems := EncodeElems(r.elems, |r.area|);
    var tail := elems + rest;
    var sized := PutU32(ElemsSize(r.elems)) + tail;
    var counted := PutU32(|r.elems|) + sized;
    assert Encode(r) + rest == PutData(r.area) + counted;
    GetPutData(r.area, counted);
    GetPutU32(|r.elems|, sized);
    GetPutU32(ElemsSize(r.elems), tail);
    ElemsSizeBound(r.elems);
    assert tail[..|elems|] == elems == elems + [] && tail[|elems|..] == rest;
    DecodeEncodeElems(r.elems, |r.area|, []);
  }

  /** Whatever is accepted is a well-formed set that can be written and read again. */
  lemma DecodeSound(s: seq<byte>)
    requires Decode(s).Got?
    ensures RepOk(Decode(s).value) && Serializable(Decode(s).value)
    ensures |s| == SerializedSize(Decode(s).value) + |Decode(s).rest|
    ensures Decode(s).rest == s[SerializedSize(Decode(s).value)..]
  {
    hide GetU32, GetData, DecodeElems;
    var area := GetData(s);
    var count := GetU32(area.rest);
    var size := GetU32(count.rest);
    var elems := DecodeElems(size.rest[..size.value], count.value, |area.value|);
    assert ElemsSize(elems.value) <= size.value;
  }

  /** The serialized form is read back as the same set exactly for the serializable sets. */
  lemma RoundTrip(r: Rep, rest: seq<byte>)
    requires RepOk(r)
    ensures Decode(Encode(r) + rest) == Got(r, rest) <==>
            && (forall i | 0 <= i < |r.elems| :: KindOf(r.elems[i].tag) !in {Invalid, Unknown})
            && BlobTotal(r.elems) == |r.area|
            && |r.area| < 0x1_0000_0000 && |r.elems| < 0x1_0000_0000 && ElemsSize(r.elems) < 0x1_0000_0000
  {
    if Serializable(r) {
      DecodeEncode(r, rest);
    } else if Decode(Encode(r) + rest) == Got(r, rest) {
      DecodeSound(Encode(r) + rest);
    }
  }
}
