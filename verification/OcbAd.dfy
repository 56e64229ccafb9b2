/** Associated data: process_ad of keymaster/ocb.c. */
module OcbAd {
  import opened Bytes
  import opened Blocks
  import opened OcbSpec
  import opened OcbWords
  import opened OcbSums
  import opened OcbKeys
  import opened Memory

  /** One iteration of the bulk loop, with its rearranged offsets. */
  method AdFour(k: Keyed, adOffset: Block, adChecksum: Block, blockNum: nat, adp: seq<Block>)
    returns (adOffset': Block, adChecksum': Block)
    requires k.Ok() && |adp| == 4
    requires blockNum % 4 == 0 && blockNum + 4 < BLOCK_LIMIT
    requires adOffset == Offset(k.cipher, ZERO_BLOCK, blockNum)
    ensures adOffset' == Offset(k.cipher, ZERO_BLOCK, blockNum + 4)
    ensures adChecksum' == XorAll(adChecksum, HashTerms(k.cipher, blockNum, adp))
  {
    hide L, Offset, Xor, XorAll, HashTerms, Ntz;
    OffsetsOfFour(k.cipher, ZERO_BLOCK, blockNum);
    TableIndex(blockNum + 4);
    var tz := Ntz(blockNum + 4);
    var oa0 := Xor(adOffset, k.lTable[0]);
    var oa1 := Xor(oa0, k.lTable[1]);
    var oa2 := Xor(adOffset, k.lTable[1]);
    adOffset' := Xor(oa2, k.lTable[tz]);
    var ta := [Xor(oa0, adp[0]), Xor(oa1, adp[1]), Xor(oa2, adp[2]), Xor(adOffset', adp[3])];
    var e := EcbEncrypt(k.cipher, ta, 4);
    adChecksum' := Xor(Xor(Xor(Xor(adChecksum, e[0]), e[1]), e[2]), e[3]);
    XorAllFour(adChecksum, e[0], e[1], e[2], e[3]);
    assert e == [e[0], e[1], e[2], e[3]];
    HashTermsAre(k.cipher, blockNum, adp, ta, e);
  }

  /** Each cipher input is a block with its offset. */
  ghost predicate Masked(c: Cipher, from: nat, a: seq<Block>, ta: seq<Block>) {
    |ta| == |a| && forall i | 0 <= i < |a| :: ta[i] == Xor(Offset(c, ZERO_BLOCK, from + i + 1), a[i])
  }

  ghost predicate Enciphered(c: Cipher, ta: seq<Block>, e: seq<Block>) {
    |e| == |ta| && forall i | 0 <= i < |ta| :: e[i] == c.enc(ta[i])
  }

  /** Enciphered blocks are the hash terms when each input carries its offset. */
  lemma HashTermsAre(c: Cipher, from: nat, a: seq<Block>, ta: seq<Block>, e: seq<Block>)
    requires Masked(c, from, a, ta) && Enciphered(c, ta, e)
    ensures e == HashTerms(c, from, a)
  {
    hide Xor, Offset;
    forall i | 0 <= i < |a| ensures HashTerms(c, from, a)[i] == e[i] {
      XorComm(Offset(c, ZERO_BLOCK, from + i + 1), a[i]);
    }
    SameSeq(e, HashTerms(c, from, a));
  }

  /** The blocks that start a rest of fewer than 64 bytes, and what follows them. */
  lemma RestBlocks(r: seq<byte>)
    ensures |r| >= 32 ==> Split(r) == [LoadBlock(r[..16]), LoadBlock(r[16..32])] + Split(r[32..])
    ensures |r| >= 32 ==> Tail(r) == Tail(r[32..])
    ensures 16 <= |r| < 32 ==> Split(r) == [LoadBlock(r[..16])] && Tail(r) == r[16..]
    ensures |r| < 16 ==> Split(r) == [] && Tail(r) == r
  {
    hide LoadBlock, Split, Tail;
    if |r| >= 32 {
      TwoBlocks(r);
    } else if |r| >= 16 {
      OneBlock(r);
    } else {
      NoBlock(r);
    }
  }

  lemma TwoBlocks(r: seq<byte>)
    requires |r| >= 32
    ensures Split(r) == [LoadBlock(r[..16]), LoadBlock(r[16..32])] + Split(r[32..]) && Tail(r) == Tail(r[32..])
  {
    hide LoadBlock, Split, Tail;
    SplitCons(r);
    SplitCons(r[16..]);
    SliceAgain(r);
    ConsCons(LoadBlock(r[..16]), LoadBlock(r[16..32]), Split(r[32..]));
  }

  lemma SliceAgain(r: seq<byte>)
    requires |r| >= 32
    ensures r[16..][..16] == r[16..32] && r[16..][16..] == r[32..]
  {
  }

  lemma ConsCons(a: Block, b: Block, rest: seq<Block>)
    ensures [a] + ([b] + rest) == [a, b] + rest
  {
  }

  lemma OneBlock(r: seq<byte>)
    requires 16 <= |r| < 32
    ensures Split(r) == [LoadBlock(r[..16])] && Tail(r) == r[16..]
  {
    hide LoadBlock, Split, Tail;
    SplitCons(r);
    NoBlock(r[16..]);
  }

  lemma NoBlock(r: seq<byte>)
    requires |r| < 16
    ensures Split(r) == [] && Tail(r) == r
  {
  }

  /** The inputs to the cipher for a rest of fewer than 64 bytes. */
  method AdRest(k: Keyed, adOffset: Block, blockNum: nat, r: seq<byte>) returns (ta: seq<Block>)
    requires k.Ok() && |r| < 64 && blockNum % 4 == 0
    requires adOffset == Offset(k.cipher, ZERO_BLOCK, blockNum)
    ensures |ta| == |Split(r)| + if Tail(r) == [] then 0 else 1
    ensures Masked(k.cipher, blockNum, Split(r), ta[..|Split(r)|])
    ensures Tail(r) != [] ==>
              ta[|Split(r)|] == Xor(Xor(Offset(k.cipher, ZERO_BLOCK, blockNum + |Split(r)|), k.lStar), Pad(Tail(r)))
  {
    hide L, Offset, Xor, LoadBlock, Split, Tail, Pad, Masked, ZeroBytes;
    var o, rest;
    ta, o, rest := WholeInputs(k, adOffset, blockNum, r);
    if |rest| > 0 {
      o := Xor(o, k.lStar);
      var tmp := LoadBlock(rest + [0x80] + ZeroBytes(15 - |rest|));
      PadBytes(rest);
      InputAdded(ta, Xor(o, tmp));
      ta := ta + [Xor(o, tmp)];
    } else {
      assert ta[..|ta|] == ta;
    }
  }

  lemma InputAdded(ta: seq<Block>, b: Block)
    ensures (ta + [b])[..|ta|] == ta && (ta + [b])[|ta|] == b
  {
  }

  /** The inputs for the whole blocks of the rest, and the bytes behind them. */
  method WholeInputs(k: Keyed, adOffset: Block, blockNum: nat, r: seq<byte>)
    returns (ta: seq<Block>, o: Block, rest: seq<byte>)
    requires k.Ok() && |r| < 64 && blockNum % 4 == 0
    requires adOffset == Offset(k.cipher, ZERO_BLOCK, blockNum)
    ensures |ta| == |Split(r)| && Masked(k.cipher, blockNum, Split(r), ta)
    ensures o == Offset(k.cipher, ZERO_BLOCK, blockNum + |ta|) && rest == Tail(r)
  {
    hide L, Offset, Xor, LoadBlock, Split, Tail, Ntz;
    OffsetsOfFour(k.cipher, ZERO_BLOCK, blockNum);
    RestBlocks(r);
    o, rest, ta := adOffset, r, [];
    if |rest| >= 32 {
      RestBlocks(rest[32..]);
      o := Xor(o, k.lTable[0]);
      ta := [Xor(o, LoadBlock(rest[..16]))];
      NtzOfFour(0);
      o := Xor(o, k.lTable[Ntz(2)]);
      ta := ta + [Xor(o, LoadBlock(rest[16..32]))];
      rest := rest[32..];
    }
    if |rest| >= 16 {
      o := Xor(o, k.lTable[0]);
      ta := ta + [Xor(o, LoadBlock(rest[..16]))];
      rest := rest[16..];
    }
  }

  /** The fall-through switch that adds the enciphered rest, last block first. */
  method AddDown(sum: Block, e: seq<Block>) returns (r: Block)
    ensures r == XorAll(sum, e)
  {
    hide Xor;
    r := sum;
    var k := |e|;
    assert e[..k] == e;
    while k > 0
      invariant 0 <= k <= |e|
      invariant XorAll(r, e[..k]) == XorAll(sum, e)
    {
      k := k - 1;
      assert e[..k + 1] == e[..k] + [e[k]];
      XorAllSnoc(r, e[..k], e[k]);
      XorAllShift(r, e[k], e[..k]);
      r := Xor(r, e[k]);
    }
  }

  /** The enciphered whole blocks of the rest. */
  lemma HashOfBlocks(c: Cipher, seen: seq<Block>, bs: seq<Block>, ta: seq<Block>, e: seq<Block>)
    requires Masked(c, |seen|, bs, ta) && Enciphered(c, ta, e)
    ensures XorAll(HashSum(c, seen), e) == HashSum(c, seen + bs)
  {
    hide HashSum, XorAll, HashTerms, Masked, Enciphered;
    HashSumConcat(c, seen, bs);
    HashTermsAre(c, |seen|, bs, ta, e);
  }

  /** The enciphered short block at the end. */
  lemma HashOfTail(k: Keyed, a: seq<Block>, tail: seq<byte>, last: Block)
    requires k.Ok() && 0 < |tail| < 16
    requires last == k.cipher.enc(Xor(Xor(Offset(k.cipher, ZERO_BLOCK, |a|), k.lStar), Pad(tail)))
    ensures Xor(HashSum(k.cipher, a), last) == HashOf(k.cipher, a, tail)
  {
    hide L, Offset, Xor, Pad, HashSum, LDollar;
    XorComm(Pad(tail), Xor(Offset(k.cipher, ZERO_BLOCK, |a|), k.lStar));
  }

  /** The sum after the rest is HASH of all blocks and the short tail. */
  lemma HashOfRest(k: Keyed, seen: seq<Block>, r: seq<byte>, ta: seq<Block>, e: seq<Block>)
    requires k.Ok() && |ta| == |Split(r)| + if Tail(r) == [] then 0 else 1
    requires Masked(k.cipher, |seen|, Split(r), ta[..|Split(r)|])
    requires Tail(r) != [] ==>
               ta[|Split(r)|] == Xor(Xor(Offset(k.cipher, ZERO_BLOCK, |seen| + |Split(r)|), k.lStar), Pad(Tail(r)))
    requires Enciphered(k.cipher, ta, e)
    ensures XorAll(HashSum(k.cipher, seen), e) == HashOf(k.cipher, seen + Split(r), Tail(r))
  {
    hide L, Offset, Xor, Pad, HashSum, HashOf, XorAll, Split, Tail, Keyed.Ok, Masked, Enciphered;
    var bs, c := Split(r), k.cipher;
    var m := |bs|;
    EncipheredParts(c, ta, e, m);
    HashOfBlocks(c, seen, bs, ta[..m], e[..m]);
    if Tail(r) == [] {
      HashOfNoTail(c, seen + bs);
    } else {
      XorAllSnoc(HashSum(c, seen), e[..m], e[m]);
      HashOfTail(k, seen + bs, Tail(r), e[m]);
    }
  }

  lemma HashOfNoTail(c: Cipher, a: seq<Block>)
    ensures HashOf(c, a, []) == HashSum(c, a)
  {
  }

  lemma EncipheredParts(c: Cipher, ta: seq<Block>, e: seq<Block>, m: nat)
    requires Enciphered(c, ta, e) && m <= |ta| <= m + 1
    ensures |e| == |ta| && Enciphered(c, ta[..m], e[..m])
    ensures if |ta| == m then e[..m] == e else e == e[..m] + [e[m]] && e[m] == c.enc(ta[m])
  {
    if |ta| > m {
      InitLast(e, m);
    }
  }

  lemma HashOfWhole(c: Cipher, seen: seq<Block>, r: seq<byte>)
    requires r == []
    ensures HashSum(c, seen) == HashOf(c, seen + Split(r), Tail(r))
  {
    assert seen + Split(r) == seen;
  }

  /** The end of process_ad: the rest of fewer than 64 bytes completes HASH. */
  method AdFinal(k: Keyed, adOffset: Block, adChecksum: Block, blockNum: nat, rest: seq<byte>, ghost seen: seq<Block>)
    returns (sum: Block)
    requires k.Ok() && |rest| < 64 && blockNum == |seen| && blockNum % 4 == 0
    requires adOffset == Offset(k.cipher, ZERO_BLOCK, blockNum) && adChecksum == HashSum(k.cipher, seen)
    ensures sum == HashOf(k.cipher, seen + Split(rest), Tail(rest))
  {
    hide L, Offset, Xor, Split, Tail, Pad, HashSum, HashOf, XorAll, Masked, Keyed.Ok;
    sum := adChecksum;
    if |rest| > 0 {
      var ta := AdRest(k, adOffset, blockNum, rest);
      var e := EcbEncrypt(k.cipher, ta, |ta|);
      sum := AddDown(sum, e);
      HashOfRest(k, seen, rest, ta, e);
    } else {
      HashOfWhole(k.cipher, seen, rest);
    }
  }

  /** process_ad: continues HASH over `done` with the next piece of associated data. */
  method ProcessAd(k: Keyed, adOffset0: Block, adChecksum0: Block, blockNum0: nat,
                   ad: seq<byte>, final: bool, ghost done: seq<Block>)
    returns (adOffset: Block, adChecksum: Block, blockNum: nat)
    requires k.Ok() && |done| == blockNum0 && blockNum0 % 4 == 0
    requires 16 * blockNum0 + |ad| < 16 * BLOCK_LIMIT
    requires final || |ad| % 64 == 0
    requires adOffset0 == Offset(k.cipher, ZERO_BLOCK, blockNum0)
    requires adChecksum0 == HashSum(k.cipher, done)
    ensures adOffset == Offset(k.cipher, ZERO_BLOCK, blockNum) && blockNum % 4 == 0
    ensures !final ==> blockNum == |done + Split(ad)| && adChecksum == HashSum(k.cipher, done + Split(ad))
    ensures final ==> adChecksum == Hash(k.cipher, Join(done) + ad)
  {
    hide L, Offset, Xor, Split, Tail, HashSum, HashOf, XorAll, HashTerms, Keyed.Ok;
    adOffset, adChecksum, blockNum := adOffset0, adChecksum0, blockNum0;
    var i := 0;
    ghost var seen := done;
    while i < |ad| / 64
      invariant 0 <= i <= |ad| / 64
      invariant blockNum == blockNum0 + 4 * i == |seen| && blockNum % 4 == 0
      invariant adOffset == Offset(k.cipher, ZERO_BLOCK, blockNum)
      invariant adChecksum == HashSum(k.cipher, seen)
      invariant seen + Split(ad[64 * i..]) == done + Split(ad)
      invariant Tail(ad[64 * i..]) == Tail(ad)
    {
      var adp := Split(ad[64 * i..64 * i + 64]);
      SplitFour(ad, i);
      adOffset, adChecksum := AdFour(k, adOffset, adChecksum, blockNum, adp);
      HashSumConcat(k.cipher, seen, adp);
      ConcatAssoc(seen, adp, Split(ad[64 * (i + 1)..]));
      seen := seen + adp;
      blockNum := blockNum + 4;
      i := i + 1;
    }
    var rest := ad[64 * i..];
    if final {
      adChecksum := AdFinal(k, adOffset, adChecksum, blockNum, rest, seen);
      SplitTailJoin(done, ad);
    } else {
      assert Split(rest) == [] by { RestBlocks(rest); }
      assert seen + [] == seen;
    }
  }
}
