/** Byte buffers and the block-wise accesses keymaster/ocb.c makes to them. */
module Memory {
  import opened Bytes
  import opened Blocks

  /** memcpy into a buffer. */
  method Write(a: array<byte>, pos: nat, s: seq<byte>)
    requires pos + |s| <= a.Length
    modifies a
    ensures a[..] == old(a[..])[..pos] + s + old(a[..])[pos + |s|..]
  {
    forall i | 0 <= i < |s| {
      a[pos + i] := s[i];
    }
  }

  lemma SplitCount(s: seq<byte>, n: nat)
    requires |s| == 16 * n
    ensures |Split(s)| == n && Tail(s) == []
  {
    SplitDrop(s, n);
    assert s[16 * n..] == [];
  }

  /** Writing behind the part of a buffer that is done already. */
  lemma AppendAt(b: seq<byte>, done: seq<byte>, s: seq<byte>, b0: seq<byte>)
    requires |done| + |s| <= |b0| && b == done + b0[|done|..]
    ensures b[..|done|] + s + b[|done| + |s|..] == (done + s) + b0[|done + s|..]
  {
  }

  /** Extensionality, stated without the theory of the element type. */
  lemma SameSeq<T>(a: seq<T>, b: seq<T>)
    requires |a| == |b| && forall i | 0 <= i < |a| :: a[i] == b[i]
    ensures a == b
  {
  }

  lemma InitLast<T>(a: seq<T>, n: nat)
    requires |a| == n + 1
    ensures a == a[..n] + [a[n]]
  {
  }

  lemma ConcatAssoc<T>(a: seq<T>, b: seq<T>, c: seq<T>)
    ensures a + (b + c) == (a + b) + c
  {
  }

  /** The four blocks at a 64-byte boundary and what follows them. */
  lemma SplitFour(s: seq<byte>, i: nat)
    requires 64 * i + 64 <= |s|
    ensures |Split(s[64 * i..64 * i + 64])| == 4
    ensures Split(s[64 * i..]) == Split(s[64 * i..64 * i + 64]) + Split(s[64 * (i + 1)..])
    ensures Tail(s[64 * i..]) == Tail(s[64 * (i + 1)..])
  {
    hide Split, Tail;
    var t := s[64 * i..];
    SplitDrop(t, 4);
    assert t[..64] == s[64 * i..64 * i + 64] && t[64..] == s[64 * (i + 1)..];
    SplitCount(t[..64], 4);
    assert Split(t) == Split(t)[..4] + Split(t)[4..];
  }
}
