/**
 128-bit blocks and 64-bit words of the OCB implementation (keymaster/ocb.c).

 A block is the bit string it holds in memory order.  A word is a uint64_t in
 register order, most significant bit first, so that the conversion the source
 calls swap_if_le splits a block into its two words.
 */
module Blocks {
  import opened Bytes

  type Block = s: Bits | |s| == 128 witness Zeros(128)

  type Word = s: Bits | |s| == 64 witness Zeros(64)

  function Zeros(n: nat): (s: Bits)
    ensures |s| == n
    ensures forall i | 0 <= i < n :: !s[i]
  {
    seq(n, i => false)
  }

  function Xor(a: Bits, b: Bits): (c: Bits)
    requires |a| == |b|
    ensures |c| == |a|
    ensures forall i | 0 <= i < |a| :: c[i] == (a[i] != b[i])
  {
    seq(|a|, i requires 0 <= i < |a| => a[i] != b[i])
  }

  function Cat(a: Bits, b: Bits): (c: Bits)
    ensures |c| == |a| + |b|
  {
    a + b
  }

  const ZERO_BLOCK: Block := Zeros(128)

  lemma XorComm(a: Bits, b: Bits)
    requires |a| == |b|
    ensures Xor(a, b) == Xor(b, a)
  {
  }

  /** Swaps the last two operands of a left-nested sum. */
  lemma XorSwap(a: Bits, b: Bits, c: Bits)
    requires |a| == |b| == |c|
    ensures Xor(Xor(a, b), c) == Xor(Xor(a, c), b)
  {
  }

  /** Adding a value twice cancels it. */
  lemma XorCancel(a: Bits, b: Bits)
    requires |a| == |b|
    ensures Xor(Xor(a, b), b) == a
  {
  }

  lemma XorZero(a: Bits)
    ensures Xor(a, Zeros(|a|)) == a
  {
  }

  lemma XorCat(a: Bits, b: Bits, c: Bits, d: Bits)
    requires |a| == |c| && |b| == |d|
    ensures Xor(a + b, c + d) == Xor(a, c) + Xor(b, d)
  {
  }

  function LoadBlock(s: seq<byte>): (b: Block)
    requires |s| == 16
  {
    ToBits(s)
  }

  function StoreBlock(b: Block): (s: seq<byte>)
    ensures |s| == 16
  {
    FromBits(b)
  }

  lemma LoadStore(b: Block)
    ensures LoadBlock(StoreBlock(b)) == b
  {
    ToFromBits(b);
  }

  lemma StoreLoad(s: seq<byte>)
    requires |s| == 16
    ensures StoreBlock(LoadBlock(s)) == s
  {
    FromToBits(s);
  }

  /** The whole 16-byte blocks at the front of a byte string. */
  function Split(s: seq<byte>): (bs: seq<Block>) {
    if |s| < 16 then [] else [LoadBlock(s[..16])] + Split(s[16..])
  }

  /** The bytes after the last whole block. */
  function Tail(s: seq<byte>): (t: seq<byte>)
    ensures |t| < 16 && |s| == 16 * |Split(s)| + |t|
  {
    if |s| < 16 then s else Tail(s[16..])
  }

  function Join(bs: seq<Block>): (s: seq<byte>)
    ensures |s| == 16 * |bs|
  {
    if bs == [] then [] else StoreBlock(bs[0]) + Join(bs[1..])
  }

  lemma SplitTailCons(b: Block, s: seq<byte>)
    ensures Split(StoreBlock(b) + s) == [b] + Split(s)
    ensures Tail(StoreBlock(b) + s) == Tail(s)
  {
    var t := StoreBlock(b) + s;
    assert t[..16] == StoreBlock(b) && t[16..] == s;
    LoadStore(b);
  }

  lemma ConsConcat<T>(a: seq<T>, b: seq<T>)
    requires a != []
    ensures [a[0]] + (a[1..] + b) == a + b
  {
    assert a == [a[0]] + a[1..];
  }

  lemma {:induction false} SplitTailJoin(bs: seq<Block>, s: seq<byte>)
    ensures Split(Join(bs) + s) == bs + Split(s)
    ensures Tail(Join(bs) + s) == Tail(s)
  {
    if bs == [] {
      assert Join(bs) + s == s;
    } else {
      var t := Join(bs[1..]) + s;
      assert Join(bs) + s == StoreBlock(bs[0]) + t;
      assert Split(t) == bs[1..] + Split(s) && Tail(t) == Tail(s) by {
        SplitTailJoin(bs[1..], s);
      }
      assert Split(Join(bs) + s) == [bs[0]] + Split(t) && Tail(Join(bs) + s) == Tail(t) by {
        SplitTailCons(bs[0], t);
      }
      ConsConcat(bs, Split(s));
    }
  }

  lemma {:induction false} JoinSplitTail(s: seq<byte>)
    ensures Join(Split(s)) + Tail(s) == s
  {
    if |s| >= 16 {
      StoreLoad(s[..16]);
      JoinSplitTail(s[16..]);
      assert s == s[..16] + s[16..];
    }
  }

  lemma CutTwice(s: seq<byte>, i: nat, j: nat)
    requires i <= j <= |s|
    ensures s[..j][..i] == s[..i] && s[..j][i..] == s[i..][..j - i] && s[i..][j - i..] == s[j..]
  {
  }

  lemma ConsCut(b: Block, bs: seq<Block>, k: nat)
    requires 0 < k <= |bs| + 1
    ensures ([b] + bs)[..k] == [b] + bs[..k - 1] && ([b] + bs)[k..] == bs[k - 1..]
  {
  }

  lemma SplitCons(s: seq<byte>)
    requires |s| >= 16
    ensures Split(s) == [LoadBlock(s[..16])] + Split(s[16..]) && Tail(s) == Tail(s[16..])
  {
  }

  /** Cutting a string at a block boundary cuts its block sequence there. */
  lemma {:induction false} SplitDrop(s: seq<byte>, k: nat)
    requires 16 * k <= |s|
    ensures k <= |Split(s)|
    ensures Split(s)[..k] == Split(s[..16 * k])
    ensures Split(s)[k..] == Split(s[16 * k..])
    ensures Tail(s) == Tail(s[16 * k..])
  {
    if k == 0 {
      assert s[0..] == s;
    } else {
      hide Split, Tail, LoadBlock;
      var m := 16 * k;
      SplitDrop(s[16..], k - 1);
      CutTwice(s, 16, m);
      SplitCons(s);
      SplitCons(s[..m]);
      ConsCut(LoadBlock(s[..16]), Split(s[16..]), k);
    }
  }

  lemma {:induction false} JoinConcat(a: seq<Block>, b: seq<Block>)
    ensures Join(a + b) == Join(a) + Join(b)
  {
    if a == [] {
      assert a + b == b;
    } else {
      assert (a + b)[1..] == a[1..] + b;
      JoinConcat(a[1..], b);
    }
  }

  /**
   A 128-bit permutation and its inverse.  AES under a fixed key is used only
   through these two functions.
   */
  datatype Cipher = Cipher(enc: Block -> Block, dec: Block -> Block)

  ghost predicate IsPermutation(c: Cipher) {
    forall b: Block :: c.dec(c.enc(b)) == b
  }

  // Register arithmetic on words.

  function ShiftLeft(w: Word, n: nat): (r: Word)
    requires n <= 64
  {
    w[n..] + Zeros(n)
  }

  function ShiftRight(w: Word, n: nat): (r: Word)
    requires n <= 64
  {
    Zeros(n) + w[..64 - n]
  }

  function Or(a: Word, b: Word): (r: Word)
    ensures forall i | 0 <= i < 64 :: r[i] == (a[i] || b[i])
  {
    seq(64, i requires 0 <= i < 64 => a[i] || b[i])
  }

  /** Joining the shifted ends of two adjacent words selects a 64-bit window. */
  lemma ShiftWindow(a: Word, b: Word, n: nat)
    requires n <= 64
    ensures Or(ShiftLeft(a, n), ShiftRight(b, 64 - n)) == Cat(a, b)[n..n + 64]
  {
  }
}
