/** The circular doubly linked list of keymaster/List.h. */
module LinkedList {
  import opened Basics

  class Node<T(0)> {
    var val: T
    var prev: Node<T>
    var next: Node<T>

    /** A node that is linked to itself; the sentinel is one whose value is never read. */
    constructor Sentinel()
      ensures next == this && prev == this
    {
      prev := this;
      next := this;
    }

    constructor (val: T, prev: Node<T>, next: Node<T>)
      ensures this.val == val && this.prev == prev && this.next == next
    {
      this.val, this.prev, this.next := val, prev, next;
    }
  }

  /** Consecutive nodes are linked both ways. */
  ghost predicate Linked<T(0)>(c: seq<Node<T>>)
    reads c
  {
    && (forall i {:trigger c[i].next} | 0 <= i < |c| - 1 :: c[i].next == c[i + 1])
    && (forall i {:trigger c[i].prev} | 0 < i < |c| :: c[i].prev == c[i - 1])
  }

  ghost predicate Holds<T(0)>(nodes: seq<Node<T>>, contents: seq<T>)
    reads nodes
  {
    |contents| == |nodes| && forall i | 0 <= i < |nodes| :: nodes[i].val == contents[i]
  }

  /** The nodes with the sentinel at both ends. */
  ghost function Circle<T(0)>(middle: Node<T>, nodes: seq<Node<T>>): (c: seq<Node<T>>)
    ensures |c| == |nodes| + 2 && c[0] == middle && c[|c| - 1] == middle
    ensures forall i | 0 <= i < |nodes| :: c[i + 1] == nodes[i]
    ensures forall i | 0 <= i < |c| :: c[i] == middle || c[i] in nodes
  {
    [middle] + nodes + [middle]
  }

  lemma CircleDistinct<T(0)>(middle: Node<T>, nodes: seq<Node<T>>)
    requires middle !in nodes && Distinct(nodes)
    ensures Simple(Circle(middle, nodes))
  {
    var c := Circle(middle, nodes);
    forall i, j | 0 <= i < j <= |nodes| + 1 && j - i <= |nodes| ensures c[i] != c[j] {
      assert 0 < i ==> c[i] == nodes[i - 1];
      assert j <= |nodes| ==> c[j] == nodes[j - 1];
    }
  }

  lemma InsertHolds<T(0)>(nodes: seq<Node<T>>, contents: seq<T>, k: nat, n: Node<T>)
    requires k <= |nodes| && Holds(nodes, contents)
    ensures Holds(nodes[..k] + [n] + nodes[k..], contents[..k] + [n.val] + contents[k..])
  {
  }

  lemma EraseHolds<T(0)>(nodes: seq<Node<T>>, contents: seq<T>, k: nat)
    requires k < |nodes| && Holds(nodes, contents)
    ensures Holds(nodes[..k] + nodes[k + 1..], contents[..k] + contents[k + 1..])
  {
  }

  lemma InsertDistinct<T(0)>(nodes: seq<Node<T>>, k: nat, n: Node<T>)
    requires k <= |nodes| && Distinct(nodes) && n !in nodes
    ensures Distinct(nodes[..k] + [n] + nodes[k..])
  {
    var s := nodes[..k] + [n] + nodes[k..];
    forall i, j | 0 <= i < j < |s| ensures s[i] != s[j] {
      assert i < k ==> s[i] == nodes[i];
      assert i > k ==> s[i] == nodes[i - 1];
      assert j < k ==> s[j] == nodes[j];
      assert j > k ==> s[j] == nodes[j - 1];
    }
  }

  lemma EraseDistinct<T(0)>(nodes: seq<Node<T>>, k: nat)
    requires k < |nodes| && Distinct(nodes)
    ensures Distinct(nodes[..k] + nodes[k + 1..])
  {
    var s := nodes[..k] + nodes[k + 1..];
    forall i, j | 0 <= i < j < |s| ensures s[i] != s[j] {
      assert s[i] == if i < k then nodes[i] else nodes[i + 1];
      assert s[j] == if j < k then nodes[j] else nodes[j + 1];
    }
  }

  class List<T(0)> {
    const middle: Node<T>
    ghost var nodes: seq<Node<T>>
    ghost var contents: seq<T>

    ghost predicate Valid()
      reads this, middle, nodes
    {
      && middle !in nodes && Distinct(nodes)
      && Linked(Circle(middle, nodes))
      && Holds(nodes, contents)
    }

    /** The node at a position; the position behind the last node is that of the sentinel. */
    ghost predicate IsAt(n: Node<T>, k: nat)
      reads this
    {
      k <= |nodes| && n == if k == |nodes| then middle else nodes[k]
    }

    constructor ()
      ensures Valid() && contents == [] && nodes == [] && fresh(middle)
    {
      middle := new Node<T>.Sentinel();
      nodes, contents := [], [];
    }

    method Begin() returns (n: Node<T>)
      requires Valid()
      ensures IsAt(n, 0)
    {
      assert Circle(middle, nodes)[0].next == Circle(middle, nodes)[1];
      return middle.next;
    }

    method Empty() returns (b: bool)
      requires Valid()
      ensures b == (contents == [])
    {
      assert Circle(middle, nodes)[0].next == Circle(middle, nodes)[1];
      return middle.next == middle;
    }

    /** The step of an iterator. */
    method Next(n: Node<T>, ghost k: nat) returns (m: Node<T>)
      requires Valid() && k < |nodes| && IsAt(n, k)
      ensures IsAt(m, k + 1)
    {
      ghost var c := Circle(middle, nodes);
      assert n == c[k + 1];
      assert c[k + 1].next == c[k + 2];
      return n.next;
    }

    /** Inserts before a position and returns the new node. */
    method Insert(posn: Node<T>, val: T, ghost k: nat) returns (newNode: Node<T>)
      requires Valid() && IsAt(posn, k)
      modifies this, middle, nodes
      ensures Valid() && fresh(newNode)
      ensures nodes == old(nodes)[..k] + [newNode] + old(nodes)[k..]
      ensures contents == old(contents)[..k] + [val] + old(contents)[k..]
    {
      hide Circle, Linked, Distinct, Simple;
      ghost var c := Circle(middle, nodes);
      CircleDistinct(middle, nodes);
      newNode := LinkBefore(posn, val, c, k);
      InsertCircle(middle, nodes, k, newNode);
      InsertHolds(nodes, contents, k, newNode);
      InsertDistinct(nodes, k, newNode);
      nodes, contents := nodes[..k] + [newNode] + nodes[k..], contents[..k] + [val] + contents[k..];
    }

    /** Removes one node and returns its successor. */
    method Erase(posn: Node<T>, ghost k: nat) returns (next: Node<T>)
      requires Valid() && k < |nodes| && IsAt(posn, k)
      modifies this, middle, nodes
      ensures Valid() && nodes == old(nodes)[..k] + old(nodes)[k + 1..]
      ensures contents == old(contents)[..k] + old(contents)[k + 1..]
      ensures IsAt(next, k)
    {
      hide Circle, Linked, Distinct, Simple;
      ghost var c := Circle(middle, nodes);
      CircleDistinct(middle, nodes);
      next := Unlink(posn, c, k);
      EraseCircle(middle, nodes, k);
      EraseHolds(nodes, contents, k);
      EraseDistinct(nodes, k);
      nodes, contents := nodes[..k] + nodes[k + 1..], contents[..k] + contents[k + 1..];
    }

    lemma Lengths()
      requires Valid()
      ensures |contents| == |nodes|
    {
    }

    /** Different positions have different nodes. */
    lemma PositionsDiffer(m: Node<T>, n: Node<T>, i: nat, j: nat)
      requires Valid() && i <= j && IsAt(m, i) && IsAt(n, j)
      ensures m == n <==> i == j
    {
      assert i < j < |nodes| ==> nodes[i] != nodes[j];
    }

    lemma ValueAt(n: Node<T>, k: nat)
      requires Valid() && k < |nodes| && IsAt(n, k)
      ensures |contents| == |nodes| && n.val == contents[k]
    {
    }

    /** Forward and backward links are inverse to each other, also through the sentinel. */
    lemma LinksInverse(n: Node<T>, k: nat)
      requires Valid() && IsAt(n, k)
      ensures n.next.prev == n && n.prev.next == n
    {
      var c := Circle(middle, nodes);
      assert n == c[k + 1];
      if k < |nodes| {
        assert c[k + 1].next == c[k + 2] && c[k + 2].prev == c[k + 1];
      } else {
        assert c[0].next == c[1] && c[1].prev == c[0];
      }
      assert c[k + 1].prev == c[k] && c[k].next == c[k + 1];
    }

    method PushFront(val: T)
      requires Valid()
      modifies this, middle, nodes
      ensures Valid() && contents == [val] + old(contents)
      ensures forall m | 0 <= m < |nodes| :: nodes[m] in old(nodes) || fresh(nodes[m])
    {
      hide List.Valid;
      Lengths();
      var first := Begin();
      var n := Insert(first, val, 0);
      assert old(contents)[..0] + [val] + old(contents)[0..] == [val] + old(contents);
    }

    method PushBack(val: T)
      requires Valid()
      modifies this, middle, nodes
      ensures Valid() && contents == old(contents) + [val]
      ensures forall m | 0 <= m < |nodes| :: nodes[m] in old(nodes) || fresh(nodes[m])
    {
      hide List.Valid;
      Lengths();
      var n := Insert(middle, val, |nodes|);
      assert old(contents)[..|old(contents)|] + [val] + old(contents)[|old(contents)|..] == old(contents) + [val];
    }

    /** Counts the steps from one position to another. */
    method Distance(first: Node<T>, last: Node<T>, ghost i: nat, ghost j: nat) returns (count: nat)
      requires Valid() && i <= j && IsAt(first, i) && IsAt(last, j)
      ensures count == j - i
    {
      hide List.Valid;
      count := 0;
      var cur := first;
      PositionsDiffer(cur, last, i, j);
      while cur != last
        invariant i + count <= j && IsAt(cur, i + count)
        invariant cur == last <==> i + count == j
        decreases j - i - count
      {
        cur := Next(cur, i + count);
        count := count + 1;
        PositionsDiffer(cur, last, i + count, j);
      }
    }

    method Size() returns (n: nat)
      requires Valid()
      ensures n == |contents|
    {
      var first := Begin();
      n := Distance(first, middle, 0, |nodes|);
    }

    /** Removes the positions from i up to j. */
    method EraseRange(first: Node<T>, last: Node<T>, ghost i: nat, ghost j: nat)
      requires Valid() && i <= j && IsAt(first, i) && IsAt(last, j)
      modifies this, middle, nodes
      ensures Valid() && contents == old(contents)[..i] + old(contents)[j..]
      ensures forall m | 0 <= m < |nodes| :: nodes[m] in old(nodes)
    {
      hide List.Valid;
      var cur := first;
      ghost var p := i;
      Lengths();
      PositionsDiffer(cur, last, i, j);
      while cur != last
        invariant Valid() && i <= p <= j
        invariant IsAt(cur, i) && IsAt(last, i + j - p)
        invariant cur == last <==> p == j
        invariant contents == old(contents)[..i] + old(contents)[p..]
        invariant forall m | 0 <= m < |nodes| :: nodes[m] in old(nodes)
        decreases j - p
      {
        Lengths();
        cur := Erase(cur, i);
        assert contents == old(contents)[..i] + old(contents)[p + 1..];
        p := p + 1;
        PositionsDiffer(cur, last, i, i + j - p);
      }
    }

    method Clear()
      requires Valid()
      modifies this, middle
      ensures Valid() && contents == [] && nodes == []
    {
      var cur := Begin();
      ghost var k := 0;
      PositionsDiffer(cur, middle, 0, |nodes|);
      while cur != middle
        invariant k <= |nodes| && IsAt(cur, k) && (cur == middle <==> k == |nodes|)
        invariant Valid()
        decreases |nodes| - k
      {
        cur := Next(cur, k);
        k := k + 1;
        PositionsDiffer(cur, middle, k, |nodes|);
      }
      middle.prev := middle;
      middle.next := middle;
      nodes, contents := [], [];
    }

    /** Two lists without a common node. */
    ghost predicate Apart(other: List<T>)
      reads this, other
    {
      && this != other && middle != other.middle && middle !in other.nodes && other.middle !in nodes
      && forall m | 0 <= m < |nodes| :: nodes[m] !in other.nodes
    }

    /** Inserts a copy of one node of another list and steps on in that list. */
    method InsertStep(posn: Node<T>, source: List<T>, cur: Node<T>, ghost at: nat, ghost p: nat) returns (next: Node<T>)
      requires Valid() && source.Valid() && Apart(source)
      requires IsAt(posn, at) && p < |source.nodes| && source.IsAt(cur, p)
      modifies this, middle, nodes
      ensures Valid() && source.Valid() && Apart(source) && IsAt(posn, at + 1) && source.IsAt(next, p + 1)
      ensures at <= |old(contents)| && p < |source.contents|
      ensures contents == old(contents)[..at] + [source.contents[p]] + old(contents)[at..]
      ensures forall m | 0 <= m < |nodes| :: nodes[m] in old(nodes) || fresh(nodes[m])
    {
      hide List.Valid;
      Lengths();
      source.ValueAt(cur, p);
      var n := Insert(posn, cur.val, at);
      next := source.Next(cur, p);
    }

    /** Inserts copies of a range of another list before a position. */
    method InsertRange(posn: Node<T>, source: List<T>, first: Node<T>, last: Node<T>, ghost k: nat, ghost i: nat,
                       ghost j: nat)
      requires Valid() && source.Valid() && Apart(source)
      requires IsAt(posn, k) && i <= j && source.IsAt(first, i) && source.IsAt(last, j)
      modifies this, middle, nodes
      ensures Valid() && source.Valid() && Apart(source)
      ensures contents == old(contents)[..k] + source.contents[i..j] + old(contents)[k..]
      ensures forall m | 0 <= m < |nodes| :: nodes[m] in old(nodes) || fresh(nodes[m])
    {
      hide List.Valid;
      var cur := first;
      ghost var p := i;
      Lengths();
      source.Lengths();
      source.PositionsDiffer(cur, last, i, j);
      assert contents == old(contents)[..k] + source.contents[i..i] + old(contents)[k..];
      while cur != last
        invariant Valid() && source.Valid() && Apart(source)
        invariant i <= p <= j && source.IsAt(cur, p) && (cur == last <==> p == j) && IsAt(posn, k + p - i)
        invariant contents == old(contents)[..k] + source.contents[i..p] + old(contents)[k..]
        invariant forall m | 0 <= m < |nodes| :: nodes[m] in old(nodes) || fresh(nodes[m])
        decreases j - p
      {
        ghost var had := contents;
        cur := InsertStep(posn, source, cur, k + p - i, p);
        InsertOne(old(contents), source.contents, had, k, i, p);
        p := p + 1;
        source.PositionsDiffer(cur, last, p, j);
      }
    }

    /** Overwrites the value at a position. */
    method SetVal(n: Node<T>, val: T, ghost k: nat)
      requires Valid() && k < |nodes| && IsAt(n, k)
      modifies this, n
      ensures Valid() && nodes == old(nodes) && contents == old(contents)[k := val]
      ensures n.prev == old(n.prev) && n.next == old(n.next)
    {
      hide Circle;
      n.val := val;
      assert forall i | 0 <= i < |nodes| && i != k :: nodes[i] != nodes[k];
      contents := contents[k := val];
    }

    /** Copies one value and steps on in both lists. */
    method CopyStep(right: List<T>, dst: Node<T>, src: Node<T>, ghost k: nat) returns (dst': Node<T>, src': Node<T>)
      requires Valid() && right.Valid() && Apart(right)
      requires k < |nodes| && k < |right.nodes| && IsAt(dst, k) && right.IsAt(src, k)
      modifies this, dst
      ensures Valid() && right.Valid() && Apart(right) && nodes == old(nodes)
      ensures |contents| == |old(contents)| == |nodes| && |right.contents| == |right.nodes|
      ensures contents == old(contents)[k := right.contents[k]]
      ensures IsAt(dst', k + 1) && (dst' == middle <==> k + 1 == |nodes|)
      ensures right.IsAt(src', k + 1) && (src' == right.middle <==> k + 1 == |right.nodes|)
    {
      hide List.Valid;
      Lengths();
      right.ValueAt(src, k);
      SetVal(dst, src.val, k);
      dst' := Next(dst, k);
      src' := right.Next(src, k);
      PositionsDiffer(dst', middle, k + 1, |nodes|);
      right.PositionsDiffer(src', right.middle, k + 1, |right.nodes|);
    }

    /** The first loop of the assignment operator: copies values until one list ends. */
    method CopyOver(right: List<T>) returns (dst: Node<T>, src: Node<T>, ghost k: nat)
      requires Valid() && right.Valid() && Apart(right)
      modifies this, nodes
      ensures Valid() && right.Valid() && Apart(right) && nodes == old(nodes)
      ensures k <= |nodes| && k <= |right.nodes| && (k == |nodes| || k == |right.nodes|)
      ensures IsAt(dst, k) && right.IsAt(src, k) && (src == right.middle <==> k == |right.nodes|)
      ensures contents == right.contents[..k] + old(contents)[k..]
    {
      hide List.Valid;
      Lengths();
      right.Lengths();
      dst := Begin();
      src := right.Begin();
      k := 0;
      PositionsDiffer(dst, middle, 0, |nodes|);
      right.PositionsDiffer(src, right.middle, 0, |right.nodes|);
      while src != right.middle && dst != middle
        invariant Valid() && right.Valid() && Apart(right) && nodes == old(nodes) && |contents| == |nodes|
        invariant k <= |nodes| && k <= |right.nodes| && IsAt(dst, k) && right.IsAt(src, k)
        invariant dst == middle <==> k == |nodes|
        invariant src == right.middle <==> k == |right.nodes|
        invariant contents == right.contents[..k] + old(contents)[k..]
        decreases |nodes| - k
      {
        dst, src := CopyStep(right, dst, src, k);
        CopyOne(old(contents), right.contents, k);
        k := k + 1;
      }
    }

    method AssignOther(right: List<T>)
      requires Valid() && right.Valid() && Apart(right)
      modifies this, middle, nodes
      ensures Valid() && right.Valid() && contents == right.contents && Apart(right)
    {
      hide List.Valid;
      Lengths();
      right.Lengths();
      var dst, src, k := CopyOver(right);
      Lengths();
      ghost var had := contents;
      if src == right.middle {
        EraseRange(dst, middle, k, |nodes|);
        assert had[..k] + had[|had|..] == right.contents;
      } else {
        InsertRange(middle, right, src, right.middle, |nodes|, k, |right.nodes|);
        assert had[..|had|] + right.contents[k..|right.contents|] + had[|had|..] == right.contents;
      }
    }

    /**
     The assignment operator: reuses the nodes there are, then erases what is left
     over or inserts what is missing.
     */
    method Assign(right: List<T>)
      requires Valid() && right.Valid() && (right == this || Apart(right))
      modifies this, middle, nodes
      ensures Valid() && right.Valid() && contents == right.contents == old(right.contents)
      ensures right != this ==> Apart(right) && right.nodes == old(right.nodes)
    {
      hide List.Valid;
      if this != right {
        AssignOther(right);
      }
    }
  }

  lemma CopyOne<T>(was: seq<T>, source: seq<T>, k: nat)
    requires k < |was| && k < |source|
    ensures (source[..k] + was[k..])[k := source[k]] == source[..k + 1] + was[k + 1..]
  {
  }

  lemma InsertOne<T>(was: seq<T>, source: seq<T>, had: seq<T>, k: nat, i: nat, p: nat)
    requires k <= |was| && i <= p < |source| && had == was[..k] + source[i..p] + was[k..]
    ensures had[..k + p - i] + [source[p]] + had[k + p - i..] == was[..k] + source[i..p + 1] + was[k..]
  {
    assert had[..k + p - i] == was[..k] + source[i..p];
    assert had[k + p - i..] == was[k..];
    assert source[i..p + 1] == source[i..p] + [source[p]];
  }

  /** A circle in which only the sentinel at the ends occurs twice. */
  ghost predicate Simple<T(0)>(c: seq<Node<T>>) {
    && (forall i, j | 0 <= i < j < |c| - 1 :: c[i] != c[j])
    && (forall i, j | 1 <= i < j < |c| :: c[i] != c[j])
  }

  /** The pointer updates of insert. */
  method LinkBefore<T(0)>(posn: Node<T>, val: T, ghost c: seq<Node<T>>, ghost k: nat) returns (newNode: Node<T>)
    requires k + 1 < |c| && Linked(c) && Simple(c) && posn == c[k + 1]
    modifies c
    ensures fresh(newNode) && newNode.val == val && Linked(c[..k + 1] + [newNode] + c[k + 1..])
    ensures forall n | n in c :: n.val == old(n.val)
  {
    assert posn.prev == c[k];
    newNode := new Node<T>(val, posn.prev, posn);
    posn.prev.next := newNode;
    posn.prev := newNode;
    LinkedInsert(c, k, newNode);
  }

  /** The pointer updates of erase. */
  method Unlink<T(0)>(posn: Node<T>, ghost c: seq<Node<T>>, ghost k: nat) returns (next: Node<T>)
    requires k + 2 < |c| && Linked(c) && Simple(c) && posn == c[k + 1]
    modifies c
    ensures next == c[k + 2] && Linked(c[..k + 1] + c[k + 2..])
    ensures forall n | n in c :: n.val == old(n.val)
  {
    assert posn.prev == c[k] && posn.next == c[k + 2];
    next := posn.next;
    var prev := posn.prev;
    prev.next := next;
    next.prev := prev;
    LinkedErase(c, k);
  }

  /** Every link of c except the one between k and k + 1. */
  ghost predicate LinkedExcept<T(0)>(c: seq<Node<T>>, k: nat)
    reads c
  {
    && (forall i {:trigger c[i].next} | 0 <= i < |c| - 1 && i != k :: c[i].next == c[i + 1])
    && (forall i {:trigger c[i].prev} | 0 < i < |c| && i != k + 1 :: c[i].prev == c[i - 1])
  }

  lemma LinkedInsert<T(0)>(c: seq<Node<T>>, k: nat, n: Node<T>)
    requires k + 1 < |c| && LinkedExcept(c, k)
    requires c[k].next == n && n.prev == c[k] && n.next == c[k + 1] && c[k + 1].prev == n
    ensures Linked(c[..k + 1] + [n] + c[k + 1..])
  {
    var d := c[..k + 1] + [n] + c[k + 1..];
    assert forall i | 0 <= i <= k :: d[i] == c[i];
    assert forall i | k + 1 < i < |d| :: d[i] == c[i - 1];
    forall i | 0 <= i < |d| - 1 ensures d[i].next == d[i + 1] {
      if i > k + 1 {
        assert c[i - 1].next == c[i];
      } else if i < k {
        assert c[i].next == c[i + 1];
      }
    }
    forall i | 0 < i < |d| ensures d[i].prev == d[i - 1] {
      if i > k + 2 {
        assert c[i - 1].prev == c[i - 2];
      } else if i <= k {
        assert c[i].prev == c[i - 1];
      }
    }
  }

  lemma LinkedErase<T(0)>(c: seq<Node<T>>, k: nat)
    requires k + 2 < |c| && c[k].next == c[k + 2] && c[k + 2].prev == c[k]
    requires forall i {:trigger c[i].next} | 0 <= i < |c| - 1 && i != k && i != k + 1 :: c[i].next == c[i + 1]
    requires forall i {:trigger c[i].prev} | 0 < i < |c| && i != k + 1 && i != k + 2 :: c[i].prev == c[i - 1]
    ensures Linked(c[..k + 1] + c[k + 2..])
  {
    var d := c[..k + 1] + c[k + 2..];
    assert forall i | 0 <= i <= k :: d[i] == c[i];
    assert forall i | k < i < |d| :: d[i] == c[i + 1];
    forall i | 0 <= i < |d| - 1 ensures d[i].next == d[i + 1] {
      if i > k {
        assert c[i + 1].next == c[i + 2];
      } else if i < k {
        assert c[i].next == c[i + 1];
      }
    }
    forall i | 0 < i < |d| ensures d[i].prev == d[i - 1] {
      if i > k + 1 {
        assert c[i + 1].prev == c[i];
      } else if i <= k {
        assert c[i].prev == c[i - 1];
      }
    }
  }

  lemma InsertCircle<T(0)>(middle: Node<T>, nodes: seq<Node<T>>, k: nat, n: Node<T>)
    requires k <= |nodes|
    ensures Circle(middle, nodes[..k] + [n] + nodes[k..]) ==
            Circle(middle, nodes)[..k + 1] + [n] + Circle(middle, nodes)[k + 1..]
  {
    Wrapped(middle, nodes, k);
    Assoc4([middle], nodes[..k], [n], nodes[k..], [middle]);
  }

  lemma EraseCircle<T(0)>(middle: Node<T>, nodes: seq<Node<T>>, k: nat)
    requires k < |nodes|
    ensures Circle(middle, nodes[..k] + nodes[k + 1..]) ==
            Circle(middle, nodes)[..k + 1] + Circle(middle, nodes)[k + 2..]
  {
    Wrapped(middle, nodes, k);
    Wrapped(middle, nodes, k + 1);
    Assoc4([middle], nodes[..k], [], nodes[k + 1..], [middle]);
    assert nodes[..k] + [] + nodes[k + 1..] == nodes[..k] + nodes[k + 1..];
    assert Circle(middle, nodes)[..k + 1] + [] == Circle(middle, nodes)[..k + 1];
  }

  lemma Wrapped<T>(m: T, s: seq<T>, k: nat)
    requires k <= |s|
    ensures ([m] + s + [m])[..k + 1] == [m] + s[..k]
    ensures ([m] + s + [m])[k + 1..] == s[k..] + [m]
  {
  }

  lemma Assoc4<T>(a: seq<T>, b: seq<T>, c: seq<T>, d: seq<T>, e: seq<T>)
    ensures a + (b + c + d) + e == (a + b) + c + (d + e)
  {
  }
}
