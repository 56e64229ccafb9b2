/**
 class AuthorizationSet of keymaster/authorization_set.cpp: a growable array of
 elements and a growable indirect area that blob elements point into.
 */
module AuthorizationSets {
  import opened Basics
  import opened Bytes
  import opened Codec
  import opened AuthData
  import opened AuthOrder
  import opened AuthSorting

  const STARTING_ELEMS_CAPACITY: nat := 8

  datatype Error = OK | ALLOCATION_FAILURE | MALFORMED_DATA

  /** A stored value: a number, or a pointer to bytes. */
  datatype Cell = Inline(n: nat) | Pointer(base: array<byte>, offset: nat, length: nat)

  datatype Stored = Stored(tag: nat, cell: Cell)

  function ToElem(s: Stored): Elem {
    Elem(s.tag, if s.cell.Inline? then Number(s.cell.n) else Region(s.cell.offset, s.cell.length))
  }

  function ToElems(s: seq<Stored>): (es: seq<Elem>)
    ensures |es| == |s|
  {
    seq(|s|, i requires 0 <= i < |s| => ToElem(s[i]))
  }

  function FromElem(e: Elem, base: array<byte>): Stored {
    Stored(e.tag, if e.payload.Number? then Inline(e.payload.n) else Pointer(base, e.payload.offset, e.payload.length))
  }

  /** Blob elements point into the given array. */
  ghost predicate PointInto(s: seq<Stored>, base: array<byte>) {
    forall i | 0 <= i < |s| && KindOf(s[i].tag) == Blob :: s[i].cell.Pointer? && s[i].cell.base == base
  }

  /** The storage of a set is what it was, or has been allocated anew. */
  twostate predicate Renewed(a: AuthorizationSet)
    reads a
  {
    && (a.elems == old(a.elems) || fresh(a.elems))
    && (a.indirect == old(a.indirect) || fresh(a.indirect))
  }

  /** Two sets that share no storage. */
  ghost predicate Apart(a: AuthorizationSet, b: AuthorizationSet)
    reads a, b
  {
    a != b && a.elems != b.elems && a.indirect != b.indirect
  }

  class AuthorizationSet {
    var elems: array<Stored>
    var elemsSize: nat
    var indirect: array<byte>
    var indirectSize: nat
    var indirectCapacity: nat
    var error: Error

    ghost predicate Valid()
      reads this, elems, indirect
    {
      && elemsSize <= elems.Length
      && indirectSize <= indirect.Length && indirectCapacity <= indirect.Length
      && PointInto(elems[..elemsSize], indirect)
      && RepOk(Rep())
    }

    ghost function Rep(): Rep
      reads this, elems, indirect
      requires elemsSize <= elems.Length && indirectSize <= indirect.Length
    {
      AuthData.Rep(ToElems(elems[..elemsSize]), indirect[..indirectSize])
    }

    constructor ()
      ensures Valid() && Rep() == AuthData.Rep([], []) && error == OK
      ensures fresh(elems) && fresh(indirect) && indirectSize <= indirectCapacity
    {
      elems := new Stored[0];
      indirect := new byte[0];
      elemsSize, indirectSize, indirectCapacity := 0, 0, 0;
      error := OK;
    }

    /** reserve_elems: grows the element array. */
    method ReserveElems(count: nat) returns (ok: bool)
      requires Valid()
      modifies `elems
      ensures Valid() && Rep() == old(Rep()) && ok == (error == OK)
      ensures ok ==> count <= elems.Length
      ensures elems == old(elems) || fresh(elems)
    {
      hide ToElems, RepOk, PointInto;
      if error != OK {
        return false;
      }
      if count > elems.Length {
        var grown := new Stored[count];
        forall i | 0 <= i < elemsSize {
          grown[i] := elems[i];
        }
        elems := grown;
        assert elems[..elemsSize] == old(elems[..elemsSize]);
        assert indirect[..indirectSize] == old(indirect[..indirectSize]);
      }
      return true;
    }

    /** reserve_indirect: grows the indirect area and moves every blob pointer to it. */
    method ReserveIndirect(length: nat) returns (ok: bool)
      requires Valid() && (error == OK ==> indirectSize <= length || length <= indirectCapacity)
      modifies `indirect, `indirectCapacity, elems
      ensures Valid() && Rep() == old(Rep()) && ok == (error == OK)
      ensures ok ==> length <= indirectCapacity
      ensures indirect == old(indirect) || fresh(indirect)
    {
      if error != OK {
        return false;
      }
      if length > indirectCapacity {
        MoveIndirect(length);
      }
      return true;
    }

    /** Copies the indirect area to a longer one and points every blob into it. */
    method MoveIndirect(length: nat)
      requires Valid() && indirectSize <= length
      modifies `indirect, `indirectCapacity, elems
      ensures Valid() && Rep() == old(Rep()) && indirectCapacity == length && fresh(indirect)
    {
      hide ToElems, PointInto, RepOk;
      var moved := new byte[length];
      forall i | 0 <= i < indirectSize {
        moved[i] := indirect[i];
      }
      ghost var bytes := indirect[..indirectSize];
      assert moved[..indirectSize] == bytes && elems[..elemsSize] == old(elems[..elemsSize]);
      MovePointers(elems, elemsSize, indirect, moved);
      ghost var es := elems[..elemsSize];
      indirect := moved;
      indirectCapacity := length;
      assert indirect[..indirectSize] == bytes && elems[..elemsSize] == es;
      assert Rep() == old(Rep());
      assert PointInto(elems[..elemsSize], indirect);
    }

    /** push_back of one parameter, whose blob is copied into the indirect area. */
    method PushBack(p: Param) returns (ok: bool)
      requires Valid() && ParamOk(p)
      requires KindOf(p.tag) == Blob ==> indirectSize <= indirectCapacity
      modifies this, elems, indirect
      ensures Valid() && error == old(error) && ok == (error == OK)
      ensures Rep() == if ok then Push(old(Rep()), p) else old(Rep())
      ensures old(indirectSize <= indirectCapacity) ==> indirectSize <= indirectCapacity
      ensures elems == old(elems) || fresh(elems)
      ensures indirect == old(indirect) || fresh(indirect)
    {
      hide ToElems, RepOk, PointInto;
      if error != OK {
        return false;
      }
      if elemsSize >= elems.Length {
        var grown := ReserveElems(if elems.Length > 0 then elems.Length * 2 else STARTING_ELEMS_CAPACITY);
      }
      if KindOf(p.tag) == Blob {
        var length := |p.value.bytes|;
        if indirectCapacity - indirectSize < length {
          var grown := ReserveIndirect(2 * (indirectCapacity + length));
        }
        StoreBlob(p);
      } else {
        StoreNumber(p);
      }
      return true;
    }

    /** Copies a blob behind the indirect data and appends an element that points to it. */
    method StoreBlob(p: Param)
      requires Valid() && ParamOk(p) && KindOf(p.tag) == Blob
      requires elemsSize < elems.Length && indirectSize + |p.value.bytes| <= indirect.Length
      modifies `elemsSize, `indirectSize, elems, indirect
      ensures Valid() && Rep() == Push(old(Rep()), p)
      ensures indirectSize == old(indirectSize) + |p.value.bytes|
    {
      var bytes := p.value.bytes;
      forall i | 0 <= i < |bytes| {
        indirect[indirectSize + i] := bytes[i];
      }
      elems[elemsSize] := Stored(p.tag, Pointer(indirect, indirectSize, |bytes|));
      indirectSize := indirectSize + |bytes|;
      elemsSize := elemsSize + 1;
      assert indirect[..indirectSize] == old(indirect[..indirectSize]) + bytes;
      assert elems[..elemsSize] == old(elems[..elemsSize]) + [elems[elemsSize - 1]];
      ToElemsSnoc(old(elems[..elemsSize]), elems[elemsSize - 1]);
      PushOk(old(Rep()), p);
    }

    method StoreNumber(p: Param)
      requires Valid() && ParamOk(p) && KindOf(p.tag) != Blob
      requires elemsSize < elems.Length
      modifies `elemsSize, elems
      ensures Valid() && Rep() == Push(old(Rep()), p)
    {
      elems[elemsSize] := Stored(p.tag, Inline(if p.value.Num? then p.value.n else 0));
      elemsSize := elemsSize + 1;
      assert elems[..elemsSize] == old(elems[..elemsSize]) + [elems[elemsSize - 1]];
      ToElemsSnoc(old(elems[..elemsSize]), elems[elemsSize - 1]);
      PushOk(old(Rep()), p);
    }

    /** push_back of a parameter set. */
    method PushBackAll(ps: seq<Param>) returns (ok: bool)
      requires Valid() && forall i | 0 <= i < |ps| :: ParamOk(ps[i])
      modifies this, elems, indirect
      ensures Valid() && error == old(error) && ok == (error == OK) && (ok ==> indirectSize <= indirectCapacity)
      ensures Rep() == if ok then PushAll(old(Rep()), ps) else old(Rep())
      ensures elems == old(elems) || fresh(elems)
      ensures indirect == old(indirect) || fresh(indirect)
    {
      hide ToElems, RepOk, PointInto, ParamOk, Push;
      if error != OK {
        return false;
      }
      var grown := ReserveElems(elemsSize + |ps|);
      grown := ReserveIndirect(indirectSize + BlobBytes(ps));
      ghost var r := Rep();
      for i := 0 to |ps|
        invariant Valid() && error == OK && indirectSize <= indirectCapacity
        invariant Rep() == PushAll(r, ps[..i])
        invariant elems == old(elems) || fresh(elems)
        invariant indirect == old(indirect) || fresh(indirect)
      {
        PushAllSnoc(r, ps, i);
        var pushed := PushBack(ps[i]);
      }
      assert ps[..|ps|] == ps;
      return true;
    }

    /** Reinitialize: replaces the contents by copies of the given parameters. */
    method Reinitialize(ps: seq<Param>) returns (ok: bool)
      requires forall i | 0 <= i < |ps| :: ParamOk(ps[i])
      modifies this
      ensures Valid() && ok && error == OK && indirectSize <= indirectCapacity
      ensures Rep() == PushAll(AuthData.Rep([], []), ps)
      ensures fresh(elems) && fresh(indirect)
    {
      FreeData();
      ok := PushBackAll(ps);
    }

    /** FreeData. */
    method FreeData()
      modifies this
      ensures Valid() && error == OK && Rep() == AuthData.Rep([], [])
      ensures indirectSize == indirectCapacity == 0
      ensures fresh(elems) && fresh(indirect)
    {
      elems := new Stored[0];
      indirect := new byte[0];
      elemsSize, indirectSize, indirectCapacity := 0, 0, 0;
      error := OK;
    }

    /** Sort by the comparator that le stands for. */
    method Sort(le: Order)
      requires Valid() && TotalOrder(le)
      modifies elems
      ensures Valid() && SortedFrom(le, old(Rep()), Rep())
    {
      hide ElemOk, ToElems, PointInto, AuthSorting.Sort, AuthOrder.Sorted, AuthData.Params;
      ghost var r := Rep();
      var sorted := AuthSorting.Sort(le, ToElems(elems[..elemsSize]), indirect[..indirectSize]);
      SortSorted(le, r.elems, r.area);
      SameMembers(sorted, r.elems);
      WriteElems(sorted);
    }

    /** Rewrites the elements in place. */
    method WriteElems(es: seq<Elem>)
      requires Valid() && |es| == elemsSize && RepOk(AuthData.Rep(es, Rep().area))
      modifies elems
      ensures Valid() && Rep() == AuthData.Rep(es, old(Rep()).area)
    {
      forall i | 0 <= i < elemsSize {
        elems[i] := FromElem(es[i], indirect);
      }
      assert ToElems(elems[..elemsSize]) == es by {
        assert forall i | 0 <= i < elemsSize :: ToElem(elems[i]) == es[i];
      }
      assert indirect[..indirectSize] == old(indirect[..indirectSize]);
    }

    ghost function Denotes(): seq<Param>
      reads this, elems, indirect
      requires Valid()
    {
      Params(Rep())
    }

    function At(i: nat): (p: Param)
      reads this, elems, indirect
      requires Valid() && i < elemsSize
      ensures p == Denotes()[i]
    {
      assert Rep().elems[i] == ToElem(elems[i]);
      Denote(ToElem(elems[i]), indirect[..indirectSize])
    }

    method MarkInvalid(k: nat)
      requires Valid() && k < elemsSize
      modifies elems
      ensures Valid() && Denotes() == old(Denotes())[k := INVALID_PARAM] && Rep().area == old(Rep().area)
    {
      elems[k] := elems[k].(tag := KM_TAG_INVALID);
      ghost var r := old(Rep());
      assert indirect[..indirectSize] == r.area;
      assert Rep().elems == r.elems[k := r.elems[k].(tag := KM_TAG_INVALID)];
    }

    /** The marking pass of Deduplicate over a sorted set. */
    method MarkDuplicates(le: Order) returns (invalid: nat)
      requires Valid() && TotalOrder(le)
      modifies elems
      ensures Valid() && Denotes() == Marked(old(Denotes())) && invalid == InvalidCount(Denotes())
    {
      hide RepOk, PointInto, ElemOk, ToElems, AuthData.Params, Marked, InvalidCount, MarkedUpTo, MarkedAt, TotalOrder;
      ghost var ps := Denotes();
      MarkedEnds(ps);
      invalid := 0;
      CountNone(ps);
      var i := 1;
      while i < elemsSize
        invariant 1 <= i && (i <= elemsSize || elemsSize == 0)
        invariant elemsSize == |ps| && Valid()
        invariant elemsSize > 0 ==> Denotes() == MarkedUpTo(ps, i - 1)
        invariant elemsSize > 0 ==> invalid == InvalidCount(MarkedUpTo(ps, i - 1)[..i - 1])
        invariant elemsSize == 0 ==> Denotes() == ps && invalid == 0
      {
        MarkedStep(ps, i - 1);
        MarkedCase(le, ps, i - 1);
        if At(i - 1).tag == KM_TAG_INVALID {
          invalid := invalid + 1;
        } else if le(At(i - 1), At(i)) && le(At(i), At(i - 1)) {
          MarkInvalid(i - 1);
          invalid := invalid + 1;
        }
        i := i + 1;
      }
      if elemsSize > 0 {
        MarkedStep(ps, i - 1);
        MarkedCase(le, ps, i - 1);
        if At(elemsSize - 1).tag == KM_TAG_INVALID {
          invalid := invalid + 1;
        }
      }
    }

    /** Drops the first elements and moves the others down. */
    method DropFirst(n: nat)
      requires Valid() && n <= elemsSize
      modifies `elemsSize, elems
      ensures Valid() && Denotes() == old(Denotes())[n..]
    {
      elemsSize := elemsSize - n;
      forall i | 0 <= i < elemsSize {
        elems[i] := elems[i + n];
      }
      assert elems[..elemsSize] == old(elems[..elemsSize])[n..];
      assert indirect[..indirectSize] == old(indirect[..indirectSize]);
      assert Rep().elems == old(Rep()).elems[n..];
    }

    /** Deduplicate: sort, mark every element equal to its successor, sort again, drop the marked. */
    method Deduplicate(le: Order)
      requires Valid() && TotalOrder(le)
      modifies `elemsSize, elems
      ensures Valid() && StrictlySorted(le, Denotes())
      ensures forall p :: p in Denotes() <==> p in old(Denotes()) && p != INVALID_PARAM
    {
      hide RepOk, PointInto, ElemOk, ToElems, AuthData.Params, Marked, Kept, InvalidCount, AuthOrder.Sorted,
           ValidStrict, StrictlySorted, TotalOrder;
      ghost var before := Rep();
      Sort(le);
      ghost var sorted := Denotes();
      ParamsKept(before.elems, Rep().elems, before.area);
      SameMembers(sorted, old(Denotes()));
      SameMembers(old(Denotes()), sorted);
      DeduplicatedCorrect(le, sorted);
      MarkedStrict(le, sorted);
      var invalid := MarkDuplicates(le);
      if invalid == 0 {
        NothingInvalid(Denotes());
        return;
      }
      ghost var marked := Rep();
      Sort(le);
      ParamsKept(marked.elems, Rep().elems, marked.area);
      DropInvalids(le, Params(marked), Denotes());
      DropFirst(invalid);
    }

    /** Overwrites the number of one entry. */
    method SetInteger(k: nat, v: nat)
      requires Valid() && k < elemsSize && KindOf(elems[k].tag) == Word && v < U32
      modifies elems
      ensures Valid()
      ensures Rep() == old(Rep()).(elems := old(Rep()).elems[k := Elem(old(elems[k].tag), Number(v))])
    {
      hide RepOk;
      elems[k] := elems[k].(cell := Inline(v));
      assert ToElems(elems[..elemsSize]) == old(ToElems(elems[..elemsSize]))[k := Elem(old(elems[k].tag), Number(v))];
      assert indirect[..indirectSize] == old(indirect[..indirectSize]);
      assert RepOk(Rep()) by {
        SetOk(old(Rep()), k, Elem(old(elems[k].tag), Number(v)));
      }
    }

    /** find: the first entry after begin with the given tag, or -1; past the end it returns the next position. */
    method Find(tag: nat, begin: int) returns (index: int)
      requires Valid() && -1 <= begin
      ensures error != OK ==> index == -1
      ensures error == OK && begin >= elemsSize ==> index == begin + 1
      ensures error == OK && index == -1 ==> forall j | begin < j < elemsSize :: elems[j].tag != tag
      ensures index != -1 && begin < elemsSize ==>
                && begin < index < elemsSize && elems[index].tag == tag
                && forall j | begin < j < index :: elems[j].tag != tag
    {
      if error != OK {
        return -1;
      }
      var i := begin + 1;
      while i < elemsSize && elems[i].tag != tag
        invariant begin < i && (i <= elemsSize || i == begin + 1)
        invariant forall j | begin < j < i && j < elemsSize :: elems[j].tag != tag
      {
        i := i + 1;
      }
      if i == elemsSize {
        return -1;
      } else {
        return i;
      }
    }

    /** erase: removes one entry; its blob bytes stay in the indirect area. */
    method Erase(index: int) returns (ok: bool)
      requires Valid()
      modifies `elemsSize, elems
      ensures ok == (0 <= index < old(elemsSize))
      ensures Valid() && Rep().area == old(Rep()).area
      ensures Rep().elems == if ok then old(Rep()).elems[..index] + old(Rep()).elems[index + 1..] else old(Rep()).elems
    {
      hide ToElems, RepOk;
      if index < 0 || index >= elemsSize {
        return false;
      }
      elemsSize := elemsSize - 1;
      ShiftDown(elems, index, elemsSize);
      ghost var was := old(elems[..elemsSize]);
      assert indirect[..indirectSize] == old(indirect[..indirectSize]);
      ToElemsErase(was, index);
      EraseOk(old(Rep()), index);
      return true;
    }

    /**
     Union: the parameters of either, strictly sorted; nothing happens for an empty
     argument, and nothing is added to an invalid set.
     */
    method Union(le: Order, ps: seq<Param>)
      requires Valid() && TotalOrder(le)
      requires forall i | 0 <= i < |ps| :: ParamOk(ps[i])
      modifies this, elems, indirect
      ensures Valid() && error == old(error)
      ensures ps == [] ==> Rep() == old(Rep())
      ensures ps != [] ==>
                && StrictlySorted(le, Denotes())
                && forall p :: p in Denotes() <==>
                               (p in old(Denotes()) || (error == OK && p in ps)) && p != INVALID_PARAM
    {
      hide RepOk, PointInto, ElemOk, ToElems, AuthData.Params, PushAll, StrictlySorted, TotalOrder, ParamOk;
      if |ps| == 0 {
        return;
      }
      PushAllOk(Rep(), ps);
      var ok := PushBackAll(ps);
      Deduplicate(le);
    }

    /** The search loop of Difference: the entry that compares equal to p, or -1. */
    method FindEqual(le: Order, p: Param) returns (index: int)
      requires Valid() && TotalOrder(le)
      ensures error != OK ==> index == -1
      ensures error == OK && index == -1 ==> p !in Denotes()
      ensures index != -1 ==> 0 <= index < elemsSize && Denotes()[index] == p
    {
      hide ToElems, RepOk, PointInto, AuthData.Params;
      TagsSeen(this);
      index := -1;
      while true
        invariant -1 <= index < elemsSize
        invariant forall j | 0 <= j <= index :: Denotes()[j] != p
        decreases elemsSize - index
      {
        index := Find(p.tag, index);
        if index == -1 {
          assert forall j | 0 <= j < elemsSize :: Denotes()[j].tag == elems[j].tag;
          return;
        }
        if le(At(index), p) && le(p, At(index)) {
          return;
        }
        assert forall j | 0 <= j < elemsSize :: Denotes()[j].tag == elems[j].tag;
      }
    }

    /** The body of Difference for one parameter; find sees nothing in an invalid set. */
    method EraseParam(le: Order, p: Param)
      requires Valid() && TotalOrder(le) && StrictlySorted(le, Denotes())
      modifies `elemsSize, elems
      ensures Valid() && StrictlySorted(le, Denotes())
      ensures forall q :: q in Denotes() <==> q in old(Denotes()) && (error == OK ==> q != p)
    {
      hide ToElems, RepOk, PointInto, AuthData.Params, StrictlySorted, TotalOrder;
      var index := FindEqual(le, p);
      if index != -1 {
        ghost var r := Rep();
        var ok := Erase(index);
        ErasedParams(r, Rep(), index);
        RemoveOne(le, Params(r), index);
      }
    }

    /** Difference: the parameters not in the argument; nothing happens for an empty argument. */
    method Difference(le: Order, ps: seq<Param>)
      requires Valid() && TotalOrder(le)
      modifies `elemsSize, elems
      ensures Valid()
      ensures ps == [] ==> Rep() == old(Rep())
      ensures ps != [] ==>
                && StrictlySorted(le, Denotes())
                && forall p :: p in Denotes() <==>
                               p in old(Denotes()) && (error == OK ==> p !in ps) && p != INVALID_PARAM
    {
      if |ps| == 0 {
        return;
      }
      Deduplicate(le);
      ghost var all := Denotes();
      for i := 0 to |ps|
        invariant Valid() && StrictlySorted(le, Denotes())
        invariant forall p :: p in Denotes() <==> p in all && (error == OK ==> p !in ps[..i])
      {
        EraseParam(le, ps[i]);
        assert ps[..i + 1] == ps[..i] + [ps[i]];
      }
      assert ps[..|ps|] == ps;
    }

    /** SerializedSize. */
    method SizeOf() returns (n: nat)
      requires Valid()
      ensures n == SerializedSize(Rep())
    {
      n := 4 + indirectSize + 4 + 4 + ElemsSize(ToElems(elems[..elemsSize]));
    }

    /**
     Serialize: with room for SerializedSize bytes it writes exactly the serialized
     form, and it never writes outside pos..end.
     */
    method Serialize(buf: array<byte>, pos: nat, end: nat) returns (next: nat)
      requires Valid() && buf != indirect && end <= buf.Length
      modifies buf
      ensures Framed(old(buf[..]), buf[..], pos, end)
      ensures pos + SerializedSize(Rep()) <= end ==>
                next == pos + SerializedSize(Rep()) && Placed(old(buf[..]), buf[..], pos, Encode(Rep()))
    {
      hide ToElems, RepOk, PutU32, PutData, EncodeElems, ElemsSize, Placed, ElemOk;
      ghost var r, b0 := Rep(), buf[..];
      next := Append(buf, pos, end, PutU32(indirectSize));
      ghost var b1 := buf[..];
      next := Append(buf, next, end, indirect[..indirectSize]);
      ghost var b2 := buf[..];
      next := Append(buf, next, end, PutU32(elemsSize));
      ghost var b3 := buf[..];
      next := Append(buf, next, end, PutU32(ElemsSize(ToElems(elems[..elemsSize]))));
      ghost var b4, p4 := buf[..], next;
      next := WriteElements(buf, next, end);
      ghost var room := pos + SerializedSize(r) <= end;
      if room {
        HeaderPlaced(r, pos, b0, b1, b2, b3, b4, buf[..]);
      }
    }

    /** The element loop of Serialize. */
    method WriteElements(buf: array<byte>, pos: nat, end: nat) returns (next: nat)
      requires Valid() && buf != indirect && end <= buf.Length
      modifies buf
      ensures Framed(old(buf[..]), buf[..], pos, end) && pos <= next
      ensures pos + ElemsSize(Rep().elems) <= end ==>
                && next == pos + ElemsSize(Rep().elems)
                && Placed(old(buf[..]), buf[..], pos, EncodeElems(Rep().elems, indirectSize))
    {
      hide EncodeElem, ElemOk;
      ghost var r := Rep();
      EncodeNone(r.elems, indirectSize, buf[..], pos);
      hide EncodeElems, ElemsSize, ElemSize, Placed;
      next := pos;
      var i := 0;
      while i < elemsSize
        invariant 0 <= i <= elemsSize
        invariant Framed(old(buf[..]), buf[..], pos, end) && pos <= next
        invariant pos + ElemsSize(r.elems) <= end ==>
                    && next == pos + ElemsSize(r.elems[..i])
                    && Placed(old(buf[..]), buf[..], pos, EncodeElems(r.elems[..i], indirectSize))
      {
        assert r.elems[i] == ToElem(elems[i]);
        next := WriteNext(ToElem(elems[i]), indirectSize, buf, next, end, r.elems, i, old(buf[..]), pos);
        i := i + 1;
      }
      assert r.elems[..i] == r.elems;
    }

    /** set_invalid. */
    method SetInvalid(e: Error)
      modifies this
      ensures Valid() && error == e && Rep() == AuthData.Rep([], [])
      ensures fresh(elems) && fresh(indirect)
    {
      FreeData();
      error := e;
    }

    /** The element loop of DeserializeElementsData. */
    method ReadElements(s: seq<byte>, count: nat) returns (ok: bool, left: seq<byte>)
      requires error == OK && elemsSize == 0 && Valid() && count <= elems.Length
      modifies `elemsSize, elems
      ensures ok == DecodeElems(s, count, indirectSize).Got?
      ensures ok ==>
                && Valid() && Rep().area == old(Rep().area)
                && Rep().elems == DecodeElems(s, count, indirectSize).value
                && left == DecodeElems(s, count, indirectSize).rest
    {
      hide DecodeElem, DecodeElems, ElemOk, RepOk, ToElems, PointInto;
      left := s;
      var i := 0;
      ghost var es: seq<Elem> := [];
      PrependNone(DecodeElems(left, count, indirectSize));
      while i < count
        invariant 0 <= i <= count && |es| == i
        invariant forall j | 0 <= j < i :: elems[j] == FromElem(es[j], indirect) && ElemOk(es[j], indirectSize)
        invariant DecodeElems(s, count, indirectSize) == Prepend(es, DecodeElems(left, count - i, indirectSize))
      {
        DecodeElemsStep(left, count - i, indirectSize);
        var e := DecodeElem(left, indirectSize);
        if e.Failed? {
          return false, left;
        }
        elems[i] := FromElem(e.value, indirect);
        PrependMore(es, e.value, DecodeElems(e.rest, count - i - 1, indirectSize));
        es := es + [e.value];
        left := e.rest;
        i := i + 1;
      }
      DecodeElemsStep(left, 0, indirectSize);
      elemsSize := count;
      StoredAs(elems[..elemsSize], es, indirect, indirect[..indirectSize]);
      assert indirect[..indirectSize] == old(indirect[..indirectSize]);
      assert es + [] == es;
      return true, left;
    }

    /**
     Deserialize: accepts exactly what Decode accepts and then holds what it reads.
     The capacity of the indirect area is left at zero.
     */
    method Deserialize(s: seq<byte>) returns (ok: bool, rest: seq<byte>)
      modifies this
      ensures Valid() && fresh(elems) && fresh(indirect)
      ensures ok == Decode(s).Got? && error == if ok then OK else MALFORMED_DATA
      ensures ok ==> Rep() == Decode(s).value && rest == Decode(s).rest
      ensures !ok ==> Rep() == AuthData.Rep([], [])
    {
      hide DecodeElems, GetData, GetU32, ToElems, RepOk;
      FreeData();
      rest := s;
      var area := GetData(s);
      if area.Failed? {
        SetInvalid(MALFORMED_DATA);
        return false, rest;
      }
      var bytes := area.value;
      indirect := new byte[|bytes|](i requires 0 <= i < |bytes| => bytes[i]);
      indirectSize := |bytes|;
      EmptyOk(elems[..elemsSize], indirect, bytes);
      assert indirect[..indirectSize] == bytes;
      var count := GetU32(area.rest);
      if count.Failed? {
        SetInvalid(MALFORMED_DATA);
        return false, rest;
      }
      var size := GetU32(count.rest);
      if size.Failed? || size.value > |size.rest| || 4 * count.value > size.value {
        SetInvalid(MALFORMED_DATA);
        return false, rest;
      }
      var reserved := ReserveElems(count.value);
      var read, left := ReadElements(size.rest[..size.value], count.value);
      if !read {
        SetInvalid(MALFORMED_DATA);
        return false, rest;
      }
      var es := ToElems(elems[..elemsSize]);
      if indirectSize != BlobTotal(es) {
        SetInvalid(MALFORMED_DATA);
        return false, rest;
      }
      return true, size.rest[ElemsSize(es)..];
    }
  }

  /** The loop of reserve_indirect: every blob pointer moves to the new area. */
  method MovePointers(a: array<Stored>, n: nat, ghost base: array<byte>, moved: array<byte>)
    requires n <= a.Length && PointInto(a[..n], base)
    modifies a
    ensures PointInto(a[..n], moved) && ToElems(a[..n]) == old(ToElems(a[..n]))
  {
    var i := 0;
    while i < n
      invariant 0 <= i <= n
      invariant forall j | 0 <= j < i :: ToElem(a[j]) == old(ToElem(a[j]))
      invariant forall j | 0 <= j < i && KindOf(a[j].tag) == Blob :: a[j].cell.Pointer? && a[j].cell.base == moved
      invariant forall j | i <= j < a.Length :: a[j] == old(a[j])
    {
      if KindOf(a[i].tag) == Blob {
        assert old(a[..n])[i] == a[i];
        a[i] := a[i].(cell := a[i].cell.(base := moved));
      }
      i := i + 1;
    }
  }

  /** The loop of erase: moves the n elements after an index one down. */
  method ShiftDown(a: array<Stored>, index: nat, n: nat)
    requires index <= n < a.Length
    modifies a
    ensures a[..n] == old(a[..n + 1])[..index] + old(a[..n + 1])[index + 1..]
  {
    var i := index;
    while i < n
      invariant index <= i <= n
      invariant forall j | 0 <= j < index :: a[j] == old(a[j])
      invariant forall j | index <= j < i :: a[j] == old(a[j + 1])
      invariant forall j | i <= j < a.Length :: a[j] == old(a[j])
    {
      a[i] := a[i + 1];
      i := i + 1;
    }
  }

  lemma ToElemsErase(s: seq<Stored>, i: nat)
    requires i < |s|
    ensures ToElems(s[..i] + s[i + 1..]) == ToElems(s)[..i] + ToElems(s)[i + 1..]
  {
  }

  lemma EraseOk(r: Rep, i: nat)
    requires RepOk(r) && i < |r.elems|
    ensures RepOk(AuthData.Rep(r.elems[..i] + r.elems[i + 1..], r.area))
  {
  }

  lemma ToElemsSnoc(s: seq<Stored>, x: Stored)
    ensures ToElems(s + [x]) == ToElems(s) + [ToElem(x)]
  {
  }

  /** ComputeIndirectDataSize of parameters given by a caller. */
  function BlobBytes(ps: seq<Param>): nat {
    if ps == [] then 0
    else (if ps[0].value.Data? then |ps[0].value.bytes| else 0) + BlobBytes(ps[1..])
  }

  lemma CountNone(ps: seq<Param>)
    ensures InvalidCount([]) == 0
    ensures ps == [] ==> Marked(ps) == ps
  {
  }

  /** serialize of one parameter into a buffer. */
  method WriteElement(e: Elem, areaSize: nat, buf: array<byte>, pos: nat, end: nat) returns (next: nat)
    requires ElemOk(e, areaSize) && end <= buf.Length
    modifies buf
    ensures Framed(old(buf[..]), buf[..], pos, end) && pos <= next
    ensures pos + ElemSize(e) <= end ==>
              next == pos + ElemSize(e) && Placed(old(buf[..]), buf[..], pos, EncodeElem(e, areaSize))
  {
    hide PutU32, PutU64, Placed, EncodeValue;
    ghost var b0 := buf[..];
    next := Append(buf, pos, end, PutU32(e.tag));
    ghost var b1 := buf[..];
    next := WriteValue(e, areaSize, buf, next, end);
    if pos + ElemSize(e) <= end {
      PlacedTwice(b0, b1, buf[..], pos, PutU32(e.tag), EncodeValue(e, areaSize));
    }
  }

  /** The switch over the tag's type; a bool advances even where it does not fit. */
  method WriteValue(e: Elem, areaSize: nat, buf: array<byte>, pos: nat, end: nat) returns (next: nat)
    requires ElemOk(e, areaSize) && end <= buf.Length
    modifies buf
    ensures Framed(old(buf[..]), buf[..], pos, end) && pos <= next
    ensures pos + ElemSize(e) - 4 <= end ==>
              next == pos + ElemSize(e) - 4 && Placed(old(buf[..]), buf[..], pos, EncodeValue(e, areaSize))
  {
    hide PutU32, PutU64, Placed;
    ghost var b0 := buf[..];
    match KindOf(e.tag)
    case Word =>
      next := Append(buf, pos, end, PutU32(e.payload.n));
    case Long =>
      next := Append(buf, pos, end, PutU64(e.payload.n));
    case Bool =>
      next := Append(buf, pos, end, [e.payload.n]);
      next := pos + 1;
    case Blob =>
      next := Append(buf, pos, end, PutU32(e.payload.length));
      ghost var b1 := buf[..];
      next := Append(buf, next, end, PutU32(e.payload.offset));
      if pos + 8 <= end {
        PlacedTwice(b0, b1, buf[..], pos, PutU32(e.payload.length), PutU32(e.payload.offset));
      }
    case _ =>
      next := pos;
      PlacedNothing(b0, pos);
  }

  lemma PlacedNothing(b: seq<byte>, pos: nat)
    ensures pos <= |b| ==> Placed(b, b, pos, [])
  {
  }

  /** One more element behind the first i. */
  method WriteNext(e: Elem, areaSize: nat, buf: array<byte>, at: nat, end: nat,
                   ghost es: seq<Elem>, ghost i: nat, ghost b0: seq<byte>, ghost pos: nat)
    returns (next: nat)
    requires i < |es| && e == es[i] && (forall j | 0 <= j < |es| :: ElemOk(es[j], areaSize)) && end <= buf.Length
    requires Framed(b0, buf[..], pos, end) && pos <= at
    requires pos + ElemsSize(es) <= end ==>
               at == pos + ElemsSize(es[..i]) && Placed(b0, buf[..], pos, EncodeElems(es[..i], areaSize))
    modifies buf
    ensures Framed(b0, buf[..], pos, end) && pos <= next
    ensures pos + ElemsSize(es) <= end ==>
              next == pos + ElemsSize(es[..i + 1]) && Placed(b0, buf[..], pos, EncodeElems(es[..i + 1], areaSize))
  {
    hide EncodeElem, ElemOk, EncodeElems, ElemsSize, ElemSize, Placed;
    ghost var before := buf[..];
    next := WriteElement(e, areaSize, buf, at, end);
    EncodeElemsSnoc(es, i, areaSize);
    if pos + ElemsSize(es) <= end {
      PlacedTwice(b0, before, buf[..], pos, EncodeElems(es[..i], areaSize), EncodeElem(es[i], areaSize));
    }
  }

  lemma EncodeNone(es: seq<Elem>, areaSize: nat, b: seq<byte>, pos: nat)
    ensures EncodeElems(es[..0], areaSize) == [] && ElemsSize(es[..0]) == 0
    ensures pos <= |b| ==> Placed(b, b, pos, [])
  {
  }

  lemma {:induction false} EncodeElemsSnoc(es: seq<Elem>, i: nat, areaSize: nat)
    requires i < |es| && forall j | 0 <= j < |es| :: ElemOk(es[j], areaSize)
    ensures EncodeElems(es[..i + 1], areaSize) == EncodeElems(es[..i], areaSize) + EncodeElem(es[i], areaSize)
    ensures ElemsSize(es[..i + 1]) == ElemsSize(es[..i]) + ElemSize(es[i]) <= ElemsSize(es)
  {
    hide EncodeElem, ElemOk, ElemSize;
    if i == 0 {
      assert es[..1] == [es[0]];
    } else {
      EncodeElemsSnoc(es[1..], i - 1, areaSize);
      assert es[..i + 1][1..] == es[1..][..i] && es[..i][1..] == es[1..][..i - 1];
    }
  }

  lemma HeaderPlaced(r: Rep, pos: nat, b0: seq<byte>, b1: seq<byte>, b2: seq<byte>, b3: seq<byte>, b4: seq<byte>,
                     b5: seq<byte>)
    requires RepOk(r)
    requires Placed(b0, b1, pos, PutU32(|r.area|)) && Placed(b1, b2, pos + 4, r.area)
    requires Placed(b2, b3, pos + 4 + |r.area|, PutU32(|r.elems|))
    requires Placed(b3, b4, pos + 8 + |r.area|, PutU32(ElemsSize(r.elems)))
    requires Placed(b4, b5, pos + 12 + |r.area|, EncodeElems(r.elems, |r.area|))
    ensures Placed(b0, b5, pos, Encode(r))
  {
    hide PutU32, EncodeElems, ElemsSize, Placed, ElemOk;
    PlacedTwice(b0, b1, b2, pos, PutU32(|r.area|), r.area);
    PlacedTwice(b0, b2, b3, pos, PutData(r.area), PutU32(|r.elems|));
    PlacedTwice(b0, b3, b4, pos, PutData(r.area) + PutU32(|r.elems|), PutU32(ElemsSize(r.elems)));
    PlacedTwice(b0, b4, b5, pos, PutData(r.area) + PutU32(|r.elems|) + PutU32(ElemsSize(r.elems)),
                EncodeElems(r.elems, |r.area|));
  }

  ghost function Prepend(es: seq<Elem>, r: Read<seq<Elem>>): Read<seq<Elem>> {
    if r.Failed? then Failed else Got(es + r.value, r.rest)
  }

  lemma PrependNone(r: Read<seq<Elem>>)
    ensures Prepend([], r) == r
  {
    if r.Got? {
      assert [] + r.value == r.value;
    }
  }

  lemma DecodeElemsStep(s: seq<byte>, n: nat, areaSize: nat)
    ensures n == 0 ==> DecodeElems(s, n, areaSize) == Got([], s)
    ensures n > 0 ==>
              var first := DecodeElem(s, areaSize);
              DecodeElems(s, n, areaSize) ==
              if first.Failed? then Failed else Prepend([first.value], DecodeElems(first.rest, n - 1, areaSize))
  {
  }

  /** Elements written out with pointers into base. */
  lemma StoredAs(s: seq<Stored>, es: seq<Elem>, base: array<byte>, area: seq<byte>)
    requires |s| == |es|
    requires forall j | 0 <= j < |es| :: s[j] == FromElem(es[j], base) && ElemOk(es[j], |area|)
    ensures ToElems(s) == es && PointInto(s, base) && RepOk(AuthData.Rep(es, area))
  {
  }

  lemma PrependMore(es: seq<Elem>, e: Elem, r: Read<seq<Elem>>)
    ensures Prepend(es, Prepend([e], r)) == Prepend(es + [e], r)
  {
    if r.Got? {
      assert es + ([e] + r.value) == es + [e] + r.value;
    }
  }

  lemma EmptyOk(s: seq<Stored>, base: array<byte>, area: seq<byte>)
    requires s == []
    ensures PointInto(s, base) && ToElems(s) == [] && RepOk(AuthData.Rep([], area))
  {
  }

  /** Entries show the tags they are stored with. */
  lemma TagsSeen(a: AuthorizationSet)
    requires a.Valid()
    ensures |a.Denotes()| == |a.Rep().elems| == a.elemsSize
    ensures forall j | 0 <= j < a.elemsSize ::
              a.Denotes()[j].tag == a.elems[j].tag && a.Rep().elems[j].tag == a.elems[j].tag
  {
  }

  lemma ErasedParams(r: Rep, r': Rep, k: nat)
    requires RepOk(r) && RepOk(r') && k < |r.elems|
    requires r'.elems == r.elems[..k] + r.elems[k + 1..] && r'.area == r.area
    ensures Params(r') == Params(r)[..k] + Params(r)[k + 1..]
  {
  }
}
