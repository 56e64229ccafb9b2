/**
 Sums and offset chains of OCB over groups of blocks: what lets four blocks, or a
 short rest in any order, stand for the block-by-block definitions.
 */
module OcbSums {
  import opened Blocks
  import opened OcbSpec
  import opened OcbWords

  /** A running sum extended by the given terms, first term first. */
  function XorAll(sum: Block, terms: seq<Block>): Block {
    if terms == [] then sum
    else Xor(XorAll(sum, terms[..|terms| - 1]), terms[|terms| - 1])
  }

  lemma XorAllSnoc(sum: Block, terms: seq<Block>, t: Block)
    ensures XorAll(sum, terms + [t]) == Xor(XorAll(sum, terms), t)
  {
    assert (terms + [t])[..|terms|] == terms;
  }

  /** A term may be added before all the others. */
  lemma {:induction false} XorAllShift(sum: Block, t: Block, terms: seq<Block>)
    ensures XorAll(Xor(sum, t), terms) == Xor(XorAll(sum, terms), t)
  {
    if terms != [] {
      var n := |terms| - 1;
      XorAllShift(sum, t, terms[..n]);
      XorSwap(XorAll(sum, terms[..n]), t, terms[n]);
    }
  }

  lemma {:induction false} XorAllConcat(sum: Block, a: seq<Block>, b: seq<Block>)
    ensures XorAll(sum, a + b) == XorAll(XorAll(sum, a), b)
  {
    if b == [] {
      assert a + b == a;
    } else {
      var n := |b| - 1;
      XorAllConcat(sum, a, b[..n]);
      assert (a + b[..n]) + [b[n]] == a + b;
      XorAllSnoc(sum, a + b[..n], b[n]);
    }
  }

  /** Four terms added one after the other. */
  lemma XorAllFour(sum: Block, a: Block, b: Block, c: Block, d: Block)
    ensures XorAll(sum, [a, b, c, d]) == Xor(Xor(Xor(Xor(sum, a), b), c), d)
  {
    hide Xor;
    XorAllSnoc(sum, [], a);
    XorAllSnoc(sum, [a], b);
    XorAllSnoc(sum, [a, b], c);
    XorAllSnoc(sum, [a, b, c], d);
    assert [] + [a] == [a] && [a] + [b] == [a, b] && [a, b] + [c] == [a, b, c];
    assert [a, b, c] + [d] == [a, b, c, d];
  }

  lemma {:induction false} ChecksumConcat(p: seq<Block>, q: seq<Block>)
    ensures Checksum(p + q) == XorAll(Checksum(p), q)
  {
    if q == [] {
      assert p + q == p;
    } else {
      var n := |q| - 1;
      ChecksumConcat(p, q[..n]);
      assert (p + q)[..|p| + n] == p + q[..n];
    }
  }

  /** What the blocks after the first `from` contribute to HASH. */
  function HashTerms(c: Cipher, from: nat, a: seq<Block>): (t: seq<Block>)
    ensures |t| == |a|
  {
    seq(|a|, i requires 0 <= i < |a| => c.enc(Xor(a[i], Offset(c, ZERO_BLOCK, from + i + 1))))
  }

  lemma {:induction false} HashSumConcat(c: Cipher, a: seq<Block>, b: seq<Block>)
    ensures HashSum(c, a + b) == XorAll(HashSum(c, a), HashTerms(c, |a|, b))
  {
    hide Offset, Xor;
    if b == [] {
      assert a + b == a;
    } else {
      var n := |b| - 1;
      HashSumConcat(c, a, b[..n]);
      assert (a + b)[..|a| + n] == a + b[..n];
      assert HashTerms(c, |a|, b)[..n] == HashTerms(c, |a|, b[..n]);
    }
  }

  /** The four offsets that follow a block number divisible by four. */
  lemma OffsetsOfFour(c: Cipher, start: Block, n: nat)
    requires n % 4 == 0
    ensures Offset(c, start, n + 1) == Xor(Offset(c, start, n), L(c, 0))
    ensures Offset(c, start, n + 2) == Xor(Offset(c, start, n + 1), L(c, 1))
    ensures Offset(c, start, n + 3) == Xor(Offset(c, start, n + 2), L(c, 0))
    ensures Offset(c, start, n + 3) == Xor(Offset(c, start, n), L(c, 1))
    ensures Offset(c, start, n + 4) == Xor(Offset(c, start, n + 3), L(c, Ntz(n + 4)))
  {
    hide L, Xor;
    NtzOfFour(n);
    ThirdOffset(Offset(c, start, n), L(c, 0), L(c, 1));
  }

  lemma EncryptBlocksConcat(c: Cipher, start: Block, from: nat, p: seq<Block>, q: seq<Block>)
    ensures EncryptBlocks(c, start, from, p + q) ==
            EncryptBlocks(c, start, from, p) + EncryptBlocks(c, start, from + |p|, q)
  {
    hide Offset, EncryptBlock;
  }

  lemma DecryptBlocksConcat(c: Cipher, start: Block, from: nat, p: seq<Block>, q: seq<Block>)
    ensures DecryptBlocks(c, start, from, p + q) ==
            DecryptBlocks(c, start, from, p) + DecryptBlocks(c, start, from + |p|, q)
  {
    hide Offset, DecryptBlock;
  }
}
