/** Text: the bulk loops and the final blocks of ae_encrypt and ae_decrypt. */
module OcbText {
  import opened Bytes
  import opened Blocks
  import opened OcbSpec
  import opened OcbWords
  import opened OcbSums
  import opened OcbKeys
  import opened OcbAd
  import opened Memory

  /** The offsets of four blocks, as both bulk loops compute them. */
  method FourOffsets(k: Keyed, offset: Block, blockNum: nat, ghost start: Block) returns (oa: seq<Block>)
    requires k.Ok() && blockNum % 4 == 0 && blockNum + 4 < BLOCK_LIMIT
    requires offset == Offset(k.cipher, start, blockNum)
    ensures |oa| == 4
    ensures forall i | 0 <= i < 4 :: oa[i] == Offset(k.cipher, start, blockNum + i + 1)
  {
    hide L, Offset, Xor, Ntz;
    OffsetsOfFour(k.cipher, start, blockNum);
    TableIndex(blockNum + 4);
    var oa0 := Xor(offset, k.lTable[0]);
    var oa1 := Xor(oa0, k.lTable[1]);
    var oa2 := Xor(oa1, k.lTable[0]);
    var oa3 := Xor(oa2, k.lTable[Ntz(blockNum + 4)]);
    oa := [oa0, oa1, oa2, oa3];
  }

  /** Blocks masked, enciphered and masked again are the encrypted blocks. */
  lemma EncryptBlocksAre(c: Cipher, start: Block, from: nat, p: seq<Block>, oa: seq<Block>, s: seq<Block>)
    requires |oa| == |p| == |s|
    requires forall i | 0 <= i < |p| :: oa[i] == Offset(c, start, from + i + 1)
    requires forall i | 0 <= i < |p| :: s[i] == Xor(c.enc(Xor(oa[i], p[i])), oa[i])
    ensures s == EncryptBlocks(c, start, from, p)
  {
    hide Offset;
    forall i | 0 <= i < |p|
      ensures s[i] == EncryptBlock(c, oa[i], p[i])
    {
      XorComm(oa[i], p[i]);
      XorComm(c.enc(Xor(oa[i], p[i])), oa[i]);
    }
  }

  lemma DecryptBlocksAre(c: Cipher, start: Block, from: nat, s: seq<Block>, oa: seq<Block>, p: seq<Block>)
    requires |oa| == |p| == |s|
    requires forall i | 0 <= i < |p| :: oa[i] == Offset(c, start, from + i + 1)
    requires forall i | 0 <= i < |p| :: p[i] == Xor(c.dec(Xor(oa[i], s[i])), oa[i])
    ensures p == DecryptBlocks(c, start, from, s)
  {
    hide Offset;
    forall i | 0 <= i < |p|
      ensures p[i] == DecryptBlock(c, oa[i], s[i])
    {
      XorComm(oa[i], s[i]);
      XorComm(c.dec(Xor(oa[i], s[i])), oa[i]);
    }
  }

  /** One iteration of the bulk loop of ae_encrypt. */
  method EncryptFour(k: Keyed, offset: Block, checksum: Block, blockNum: nat, p: seq<Block>, ghost start: Block)
    returns (offset': Block, checksum': Block, s: seq<Block>)
    requires k.Ok() && blockNum % 4 == 0 && blockNum + 4 < BLOCK_LIMIT && |p| == 4
    requires offset == Offset(k.cipher, start, blockNum)
    ensures offset' == Offset(k.cipher, start, blockNum + 4)
    ensures checksum' == XorAll(checksum, p)
    ensures s == EncryptBlocks(k.cipher, start, blockNum, p)
  {
    hide L, Offset, Xor, Ntz, XorAll, EncryptBlocks;
    var oa := FourOffsets(k, offset, blockNum, start);
    var ta := [Xor(oa[0], p[0]), Xor(oa[1], p[1]), Xor(oa[2], p[2]), Xor(oa[3], p[3])];
    checksum' := Xor(Xor(Xor(Xor(checksum, p[0]), p[1]), p[2]), p[3]);
    XorAllFour(checksum, p[0], p[1], p[2], p[3]);
    assert p == [p[0], p[1], p[2], p[3]];
    var e := EcbEncrypt(k.cipher, ta, 4);
    s := [Xor(e[0], oa[0]), Xor(e[1], oa[1]), Xor(e[2], oa[2]), Xor(e[3], oa[3])];
    EncryptBlocksAre(k.cipher, start, blockNum, p, oa, s);
    offset' := oa[3];
  }

  /** One iteration of the bulk loop of ae_decrypt. */
  method DecryptFour(k: Keyed, offset: Block, checksum: Block, blockNum: nat, s: seq<Block>, ghost start: Block)
    returns (offset': Block, checksum': Block, p: seq<Block>)
    requires k.Ok() && blockNum % 4 == 0 && blockNum + 4 < BLOCK_LIMIT && |s| == 4
    requires offset == Offset(k.cipher, start, blockNum)
    ensures offset' == Offset(k.cipher, start, blockNum + 4)
    ensures checksum' == XorAll(checksum, p)
    ensures p == DecryptBlocks(k.cipher, start, blockNum, s)
  {
    hide L, Offset, Xor, Ntz, XorAll, DecryptBlocks;
    var oa := FourOffsets(k, offset, blockNum, start);
    var ta := [Xor(oa[0], s[0]), Xor(oa[1], s[1]), Xor(oa[2], s[2]), Xor(oa[3], s[3])];
    var d := EcbDecrypt(k.cipher, ta, 4);
    p := [Xor(d[0], oa[0]), Xor(d[1], oa[1]), Xor(d[2], oa[2]), Xor(d[3], oa[3])];
    DecryptBlocksAre(k.cipher, start, blockNum, s, oa, p);
    checksum' := Xor(Xor(Xor(Xor(checksum, p[0]), p[1]), p[2]), p[3]);
    XorAllFour(checksum, p[0], p[1], p[2], p[3]);
    assert p == [p[0], p[1], p[2], p[3]];
    offset' := oa[3];
  }

  /** Encrypts the four blocks at pos from pt to ct. */
  method EncryptStep(k: Keyed, offset: Block, checksum: Block, blockNum: nat,
                     pt: array<byte>, ct: array<byte>, pos: nat, ghost start: Block)
    returns (offset': Block, checksum': Block)
    requires k.Ok() && blockNum % 4 == 0 && blockNum + 4 < BLOCK_LIMIT
    requires pos + 64 <= pt.Length && pos + 64 <= ct.Length
    requires offset == Offset(k.cipher, start, blockNum)
    modifies ct
    ensures offset' == Offset(k.cipher, start, blockNum + 4)
    ensures checksum' == XorAll(checksum, Split(old(pt[pos..pos + 64])))
    ensures ct[..] == old(ct[..])[..pos] +
                      Join(EncryptBlocks(k.cipher, start, blockNum, Split(old(pt[pos..pos + 64])))) +
                      old(ct[..])[pos + 64..]
  {
    hide L, Offset, Xor, Ntz, XorAll, EncryptBlocks, Split, Join;
    var four := Split(pt[pos..pos + 64]);
    SplitCount(pt[pos..pos + 64], 4);
    var out;
    offset', checksum', out := EncryptFour(k, offset, checksum, blockNum, four, start);
    Write(ct, pos, Join(out));
  }

  /** The bytes of the first i groups of four blocks. */
  ghost function CipherSoFar(c: Cipher, start: Block, n: nat, p: seq<byte>, i: nat): (r: seq<byte>)
    requires 64 * i <= |p|
    ensures |r| == 64 * i
  {
    SplitCount(p[..64 * i], 4 * i);
    Join(EncryptBlocks(c, start, n, Split(p[..64 * i])))
  }

  /** The bytes of the next group. */
  ghost function CipherFour(c: Cipher, start: Block, n: nat, p: seq<byte>, i: nat): (r: seq<byte>)
    requires 64 * i + 64 <= |p|
    ensures |r| == 64
  {
    SplitCount(p[64 * i..64 * i + 64], 4);
    Join(EncryptBlocks(c, start, n + 4 * i, Split(p[64 * i..64 * i + 64])))
  }

  /** The checksum over the text and the first i groups. */
  ghost function PlainSum(c: Cipher, start: Block, text: seq<Block>, p: seq<byte>, i: nat): Block
    requires 64 * i <= |p|
  {
    Checksum(text + Split(p[..64 * i]))
  }

  lemma EncryptNothing(c: Cipher, start: Block, text: seq<Block>, p: seq<byte>, ct0: seq<byte>)
    ensures CipherMixed(c, start, |text|, p, 0, ct0) == ct0
    ensures PlainSum(c, start, text, p, 0) == Checksum(text)
  {
    hide OcbSpec.Checksum;
    assert p[..0] == [];
    assert text + [] == text;
  }

  lemma EncryptMore(c: Cipher, start: Block, text: seq<Block>, p: seq<byte>, i: nat)
    requires 64 * i + 64 <= |p|
    ensures CipherSoFar(c, start, |text|, p, i + 1) ==
            CipherSoFar(c, start, |text|, p, i) + CipherFour(c, start, |text|, p, i)
    ensures PlainSum(c, start, text, p, i + 1) == XorAll(PlainSum(c, start, text, p, i), Split(p[64 * i..64 * i + 64]))
  {
    hide Split, Tail, Join, EncryptBlocks, OcbSpec.Checksum, XorAll;
    var seen, four := Split(p[..64 * i]), Split(p[64 * i..64 * i + 64]);
    SplitGrow(p, i);
    EncryptBlocksConcat(c, start, |text|, seen, four);
    var a, b := EncryptBlocks(c, start, |text|, seen), EncryptBlocks(c, start, |text| + 4 * i, four);
    JoinConcat(a, b);
    ConcatAssoc(text, seen, four);
    ChecksumConcat(text + seen, four);
  }

  /** The target buffer after i groups. */
  ghost function CipherMixed(c: Cipher, start: Block, n: nat, p: seq<byte>, i: nat, ct0: seq<byte>): (r: seq<byte>)
    requires 64 * i <= |p| && 64 * i <= |ct0|
    ensures |r| == |ct0|
  {
    CipherSoFar(c, start, n, p, i) + ct0[64 * i..]
  }

  /** One turn of the bulk loop of ae_encrypt: the source is as it was, or it is the target itself. */
  method EncryptTurn(k: Keyed, offset: Block, checksum: Block, blockNum: nat, pt: array<byte>, ct: array<byte>, i: nat,
                     ghost start: Block, ghost text: seq<Block>, ghost n: nat, ghost pt0: seq<byte>,
                     ghost ct0: seq<byte>)
    returns (offset': Block, checksum': Block)
    requires k.Ok() && |text| % 4 == 0 && blockNum == |text| + 4 * i && blockNum + 4 < BLOCK_LIMIT
    requires 64 * i + 64 <= n <= |pt0| == pt.Length && n <= ct.Length == |ct0|
    requires offset == Offset(k.cipher, start, blockNum) && checksum == PlainSum(k.cipher, start, text, pt0[..n], i)
    requires if pt == ct then pt0 == ct0 else pt[..] == pt0
    requires ct[..] == CipherMixed(k.cipher, start, |text|, pt0[..n], i, ct0)
    modifies ct
    ensures offset' == Offset(k.cipher, start, blockNum + 4)
            && checksum' == PlainSum(k.cipher, start, text, pt0[..n], i + 1)
    ensures ct[..] == CipherMixed(k.cipher, start, |text|, pt0[..n], i + 1, ct0)
  {
    hide L, Offset, Xor, Ntz, XorAll, EncryptBlocks, Split, Tail, Join, OcbSpec.Checksum, Keyed.Ok, CipherSoFar,
         PlainSum;
    ghost var before, p := ct[..], pt0[..n];
    ReadAt(pt0, n, i, pt[..], CipherSoFar(k.cipher, start, |text|, p, i));
    assert pt[64 * i..64 * i + 64] == p[64 * i..64 * i + 64];
    FourMore(|text|, i);
    offset', checksum' := EncryptStep(k, offset, checksum, blockNum, pt, ct, 64 * i, start);
    EncryptMore(k.cipher, start, text, p, i);
    WriteAt(before, ct0, i, CipherSoFar(k.cipher, start, |text|, p, i), CipherFour(k.cipher, start, |text|, p, i));
  }

  /** The bulk loop of ae_encrypt; pt and ct may be the same buffer. */
  method EncryptBulk(k: Keyed, offset0: Block, checksum0: Block, blockNum0: nat,
                     pt: array<byte>, ct: array<byte>, quads: nat, ghost start: Block, ghost text: seq<Block>)
    returns (offset: Block, checksum: Block, blockNum: nat)
    requires k.Ok() && |text| == blockNum0 && blockNum0 % 4 == 0
    requires blockNum0 + 4 * quads < BLOCK_LIMIT
    requires 64 * quads <= ct.Length && 64 * quads <= pt.Length
    requires offset0 == Offset(k.cipher, start, blockNum0) && checksum0 == Checksum(text)
    modifies ct
    ensures blockNum == blockNum0 + 4 * quads
    ensures offset == Offset(k.cipher, start, blockNum)
    ensures checksum == Checksum(text + Split(old(pt[..64 * quads])))
    ensures ct[..] == Join(EncryptBlocks(k.cipher, start, blockNum0, Split(old(pt[..64 * quads])))) +
                      old(ct[64 * quads..])
  {
    hide L, Offset, Xor, Ntz, XorAll, EncryptBlocks, Split, Tail, Join, OcbSpec.Checksum, Keyed.Ok, CipherMixed,
         PlainSum;
    offset, checksum, blockNum := offset0, checksum0, blockNum0;
    ghost var n, pt0, ct0 := 64 * quads, pt[..], ct[..];
    ghost var p := pt0[..n];
    var i := 0;
    EncryptNothing(k.cipher, start, text, p, ct0);
    while i < quads
      invariant 0 <= i <= quads
      invariant blockNum == blockNum0 + 4 * i
      invariant offset == Offset(k.cipher, start, blockNum)
      invariant checksum == PlainSum(k.cipher, start, text, p, i)
      invariant ct[..] == CipherMixed(k.cipher, start, |text|, p, i, ct0)
      invariant pt != ct ==> pt[..] == pt0
    {
      offset, checksum := EncryptTurn(k, offset, checksum, blockNum, pt, ct, i, start, text, n, pt0, ct0);
      blockNum := blockNum + 4;
      i := i + 1;
    }
    EncryptAll(k.cipher, start, text, p, quads, ct0);
    assert pt0[..n] == old(pt[..64 * quads]) && ct0[n..] == old(ct[64 * quads..]);
  }

  lemma EncryptAll(c: Cipher, start: Block, text: seq<Block>, p: seq<byte>, quads: nat, ct0: seq<byte>)
    requires |p| == 64 * quads <= |ct0|
    ensures CipherMixed(c, start, |text|, p, quads, ct0) ==
            Join(EncryptBlocks(c, start, |text|, Split(p))) + ct0[64 * quads..]
    ensures PlainSum(c, start, text, p, quads) == Checksum(text + Split(p))
  {
    assert p[..64 * quads] == p;
  }

  lemma FourMore(n: nat, i: nat)
    requires n % 4 == 0
    ensures (n + 4 * i) % 4 == 0
  {
  }

  /** The source at the current position is as it was, also when it is the target. */
  lemma ReadAt(src0: seq<byte>, n: nat, i: nat, src: seq<byte>, done: seq<byte>)
    requires 64 * i + 64 <= n <= |src0| == |src| && |done| == 64 * i
    requires src == src0 || src == done + src0[64 * i..]
    ensures src[64 * i..64 * i + 64] == src0[..n][64 * i..64 * i + 64]
  {
    if src != src0 {
      assert forall j | 64 * i <= j < |src| :: src[j] == src0[j];
    }
  }

  /** Replacing 64 bytes after the part already written. */
  lemma WriteAt(s: seq<byte>, s0: seq<byte>, i: nat, done: seq<byte>, more: seq<byte>)
    requires |done| == 64 * i && |more| == 64 && 64 * i + 64 <= |s0|
    requires s == done + s0[64 * i..]
    ensures s[..64 * i] + more + s[64 * i + 64..] == (done + more) + s0[64 * (i + 1)..]
  {
  }

  lemma SplitGrow(p: seq<byte>, i: nat)
    requires 64 * i + 64 <= |p|
    ensures |Split(p[..64 * i])| == 4 * i
    ensures Split(p[..64 * (i + 1)]) == Split(p[..64 * i]) + Split(p[64 * i..64 * i + 64])
  {
    hide Split, Tail, Join;
    var t := p[..64 * (i + 1)];
    SplitDrop(t, 4 * i);
    assert t[..16 * (4 * i)] == p[..64 * i] && t[16 * (4 * i)..] == p[64 * i..64 * i + 64];
    SplitCount(p[..64 * i], 4 * i);
  }

  /** The offsets of the whole blocks in a rest of fewer than 64 bytes. */
  method RestOffsets(k: Keyed, offset: Block, remaining: nat, ghost start: Block, ghost n: nat)
    returns (oa: seq<Block>, offset': Block)
    requires k.Ok() && remaining < 64 && n % 4 == 0
    requires offset == Offset(k.cipher, start, n)
    ensures 16 * |oa| <= remaining < 16 * |oa| + 16
    ensures forall i | 0 <= i < |oa| :: oa[i] == Offset(k.cipher, start, n + i + 1)
    ensures offset' == Offset(k.cipher, start, n + |oa|)
  {
    hide L, Offset, Xor, Ntz;
    OffsetsOfFour(k.cipher, start, n);
    var left := remaining;
    oa, offset' := [], offset;
    if left >= 32 {
      offset' := Xor(offset', k.lTable[0]);
      oa := oa + [offset'];
      offset' := Xor(offset', k.lTable[1]);
      oa := oa + [offset'];
      left := left - 32;
    }
    if left >= 16 {
      offset' := Xor(offset', k.lTable[0]);
      oa := oa + [offset'];
      left := left - 16;
    }
  }

  /** Each block combined with its offset. */
  function XorEach(a: seq<Block>, b: seq<Block>): (r: seq<Block>)
    requires |a| == |b|
    ensures |r| == |a| && forall i | 0 <= i < |r| :: r[i] == Xor(a[i], b[i])
  {
    seq(|a|, i requires 0 <= i < |a| => Xor(a[i], b[i]))
  }

  method AddUp(sum: Block, terms: seq<Block>) returns (r: Block)
    ensures r == XorAll(sum, terms)
  {
    r := sum;
    for i := 0 to |terms|
      invariant r == XorAll(sum, terms[..i])
    {
      r := Xor(r, terms[i]);
      assert terms[..i + 1] == terms[..i] + [terms[i]];
      XorAllSnoc(sum, terms[..i], terms[i]);
    }
    assert terms[..|terms|] == terms;
  }

  /** The final blocks of ae_encrypt and the tag. */
  method EncryptRest(k: Keyed, offset0: Block, checksum0: Block, r: seq<byte>, adChecksum: Block,
                     ghost start: Block, ghost text: seq<Block>)
    returns (out: seq<byte>, tag: Block)
    requires k.Ok() && |r| < 64 && |text| % 4 == 0
    requires offset0 == Offset(k.cipher, start, |text|) && checksum0 == Checksum(text)
    ensures out == CipherPiece(k.cipher, start, |text|, r)
    ensures tag == TagOf(k.cipher, start, adChecksum, text + Split(r), Tail(r))
  {
    hide L, Offset, Xor, LoadBlock, StoreBlock, Split, Tail, Pad, Ntz, XorAll, OcbSpec.Checksum, Join, EncryptBlocks,
         XorTail, TagOf, XorEach, ZeroBytes, LStar, LDollar;
    var oa, offset := RestOffsets(k, offset0, |r|, start, |text|);
    var p := Split(r);
    RestTail(r);
    var last := r[16 * |p|..];
    var checksum := AddUp(checksum0, p);
    ChecksumConcat(text, p);
    var ta := XorEach(oa, p);
    var tmp := ZERO_BLOCK;
    if |last| > 0 {
      tmp := LoadBlock(last + [0x80] + ZeroBytes(15 - |last|));
      PadBytes(last);
      checksum := Xor(checksum, tmp);
      offset := Xor(offset, k.lStar);
      ta := ta + [offset];
    }
    offset := Xor(offset, k.lDollar);
    ta := ta + [Xor(offset, checksum)];
    var e := EcbEncrypt(k.cipher, ta, |ta|);
    tag := Xor(e[|ta| - 1], adChecksum);
    var s := XorEach(e[..|p|], oa);
    EncryptBlocksAre(k.cipher, start, |text|, p, oa, s);
    if |last| > 0 {
      tmp := Xor(tmp, e[|p|]);
      out := Join(s) + StoreBlock(tmp)[..|last|];
      PadXor(last, e[|p|]);
      TagOfShort(k.cipher, start, adChecksum, text + p, last);
    } else {
      out := Join(s);
      TagOfWhole(k.cipher, start, adChecksum, text + p);
    }
  }

  lemma MarkEnd(s: seq<byte>, n: nat)
    requires n > 0
    ensures (s + ZeroBytes(n))[..|s|] == s && (s + ZeroBytes(n))[|s| := 0x80] == s + [0x80] + ZeroBytes(n - 1)
  {
  }

  /** What follows the whole blocks of a string is its tail. */
  lemma RestTail(r: seq<byte>)
    ensures |r| == 16 * |Split(r)| + |Tail(r)| && r[16 * |Split(r)|..] == Tail(r)
  {
    var n := |Split(r)|;
    assert |r| == 16 * n + |Tail(r)|;
    SplitDrop(r, n);
  }

  /** The tag as the source adds it up, for text that ends with a whole block. */
  lemma TagOfWhole(c: Cipher, start: Block, hash: Block, p: seq<Block>)
    ensures Xor(c.enc(Xor(Xor(Offset(c, start, |p|), LDollar(c)), Checksum(p))), hash) == TagOf(c, start, hash, p, [])
  {
    hide Offset, OcbSpec.Checksum, LDollar, Xor;
    XorOrder(Offset(c, start, |p|), LDollar(c), Checksum(p));
  }

  /** The tag as the source adds it up, for text that ends with a short block. */
  lemma TagOfShort(c: Cipher, start: Block, hash: Block, p: seq<Block>, rest: seq<byte>)
    requires 0 < |rest| < 16
    ensures Xor(c.enc(Xor(Xor(Xor(Offset(c, start, |p|), LStar(c)), LDollar(c)), Xor(Checksum(p), Pad(rest)))), hash)
            == TagOf(c, start, hash, p, rest)
  {
    hide Offset, OcbSpec.Checksum, LDollar, LStar, Xor, Pad;
    XorOrder(Xor(Offset(c, start, |p|), LStar(c)), LDollar(c), Xor(Checksum(p), Pad(rest)));
  }

  lemma XorOrder(offset: Block, lDollar: Block, checksum: Block)
    ensures Xor(Xor(offset, lDollar), checksum) == Xor(Xor(checksum, offset), lDollar)
  {
  }

  /** Decrypts the four blocks at pos from ct to pt. */
  method DecryptStep(k: Keyed, offset: Block, checksum: Block, blockNum: nat,
                     ct: array<byte>, pt: array<byte>, pos: nat, ghost start: Block)
    returns (offset': Block, checksum': Block)
    requires k.Ok() && blockNum % 4 == 0 && blockNum + 4 < BLOCK_LIMIT
    requires pos + 64 <= pt.Length && pos + 64 <= ct.Length
    requires offset == Offset(k.cipher, start, blockNum)
    modifies pt
    ensures offset' == Offset(k.cipher, start, blockNum + 4)
    ensures checksum' == XorAll(checksum, DecryptBlocks(k.cipher, start, blockNum, Split(old(ct[pos..pos + 64]))))
    ensures pt[..] == old(pt[..])[..pos] +
                      Join(DecryptBlocks(k.cipher, start, blockNum, Split(old(ct[pos..pos + 64])))) +
                      old(pt[..])[pos + 64..]
  {
    hide L, Offset, Xor, Ntz, XorAll, DecryptBlocks, Split, Join;
    var four := Split(ct[pos..pos + 64]);
    SplitCount(ct[pos..pos + 64], 4);
    var out;
    offset', checksum', out := DecryptFour(k, offset, checksum, blockNum, four, start);
    Write(pt, pos, Join(out));
  }

  /** The bytes of the first i groups of four blocks. */
  ghost function PlainSoFar(c: Cipher, start: Block, n: nat, s: seq<byte>, i: nat): (r: seq<byte>)
    requires 64 * i <= |s|
    ensures |r| == 64 * i
  {
    SplitCount(s[..64 * i], 4 * i);
    Join(DecryptBlocks(c, start, n, Split(s[..64 * i])))
  }

  /** The bytes of the next group. */
  ghost function PlainFour(c: Cipher, start: Block, n: nat, s: seq<byte>, i: nat): (r: seq<byte>)
    requires 64 * i + 64 <= |s|
    ensures |r| == 64
  {
    SplitCount(s[64 * i..64 * i + 64], 4);
    Join(DecryptBlocks(c, start, n + 4 * i, Split(s[64 * i..64 * i + 64])))
  }

  /** The checksum over the text and the first i groups. */
  ghost function DecryptedSum(c: Cipher, start: Block, text: seq<Block>, s: seq<byte>, i: nat): Block
    requires 64 * i <= |s|
  {
    Checksum(text + DecryptBlocks(c, start, |text|, Split(s[..64 * i])))
  }

  lemma DecryptNothing(c: Cipher, start: Block, text: seq<Block>, s: seq<byte>, pt0: seq<byte>)
    ensures PlainMixed(c, start, |text|, s, 0, pt0) == pt0
    ensures DecryptedSum(c, start, text, s, 0) == Checksum(text)
  {
    hide OcbSpec.Checksum;
    assert s[..0] == [];
    assert text + [] == text;
  }

  lemma DecryptMore(c: Cipher, start: Block, text: seq<Block>, s: seq<byte>, i: nat)
    requires 64 * i + 64 <= |s|
    ensures PlainSoFar(c, start, |text|, s, i + 1) ==
            PlainSoFar(c, start, |text|, s, i) + PlainFour(c, start, |text|, s, i)
    ensures DecryptedSum(c, start, text, s, i + 1) ==
            XorAll(DecryptedSum(c, start, text, s, i),
                   DecryptBlocks(c, start, |text| + 4 * i, Split(s[64 * i..64 * i + 64])))
  {
    hide Split, Tail, Join, DecryptBlocks, OcbSpec.Checksum, XorAll;
    var seen, four := Split(s[..64 * i]), Split(s[64 * i..64 * i + 64]);
    SplitGrow(s, i);
    DecryptBlocksConcat(c, start, |text|, seen, four);
    var a, b := DecryptBlocks(c, start, |text|, seen), DecryptBlocks(c, start, |text| + 4 * i, four);
    JoinConcat(a, b);
    ConcatAssoc(text, a, b);
    ChecksumConcat(text + a, b);
  }

  /** The target buffer after i groups. */
  ghost function PlainMixed(c: Cipher, start: Block, n: nat, s: seq<byte>, i: nat, pt0: seq<byte>): (r: seq<byte>)
    requires 64 * i <= |s| && 64 * i <= |pt0|
    ensures |r| == |pt0|
  {
    PlainSoFar(c, start, n, s, i) + pt0[64 * i..]
  }

  /** One turn of the bulk loop of ae_decrypt: the source is as it was, or it is the target itself. */
  method DecryptTurn(k: Keyed, offset: Block, checksum: Block, blockNum: nat, ct: array<byte>, pt: array<byte>, i: nat,
                     ghost start: Block, ghost text: seq<Block>, ghost n: nat, ghost ct0: seq<byte>,
                     ghost pt0: seq<byte>)
    returns (offset': Block, checksum': Block)
    requires k.Ok() && |text| % 4 == 0 && blockNum == |text| + 4 * i && blockNum + 4 < BLOCK_LIMIT
    requires 64 * i + 64 <= n <= |ct0| == ct.Length && n <= pt.Length == |pt0|
    requires offset == Offset(k.cipher, start, blockNum) && checksum == DecryptedSum(k.cipher, start, text, ct0[..n], i)
    requires if ct == pt then ct0 == pt0 else ct[..] == ct0
    requires pt[..] == PlainMixed(k.cipher, start, |text|, ct0[..n], i, pt0)
    modifies pt
    ensures offset' == Offset(k.cipher, start, blockNum + 4)
            && checksum' == DecryptedSum(k.cipher, start, text, ct0[..n], i + 1)
    ensures pt[..] == PlainMixed(k.cipher, start, |text|, ct0[..n], i + 1, pt0)
  {
    hide L, Offset, Xor, Ntz, XorAll, DecryptBlocks, Split, Tail, Join, OcbSpec.Checksum, Keyed.Ok, PlainSoFar,
         DecryptedSum;
    ghost var before, s := pt[..], ct0[..n];
    ReadAt(ct0, n, i, ct[..], PlainSoFar(k.cipher, start, |text|, s, i));
    assert ct[64 * i..64 * i + 64] == s[64 * i..64 * i + 64];
    FourMore(|text|, i);
    offset', checksum' := DecryptStep(k, offset, checksum, blockNum, ct, pt, 64 * i, start);
    DecryptMore(k.cipher, start, text, s, i);
    WriteAt(before, pt0, i, PlainSoFar(k.cipher, start, |text|, s, i), PlainFour(k.cipher, start, |text|, s, i));
  }

  /** The bulk loop of ae_decrypt; ct and pt may be the same buffer. */
  method DecryptBulk(k: Keyed, offset0: Block, checksum0: Block, blockNum0: nat,
                     ct: array<byte>, pt: array<byte>, quads: nat, ghost start: Block, ghost text: seq<Block>)
    returns (offset: Block, checksum: Block, blockNum: nat)
    requires k.Ok() && |text| == blockNum0 && blockNum0 % 4 == 0
    requires blockNum0 + 4 * quads < BLOCK_LIMIT
    requires 64 * quads <= pt.Length && 64 * quads <= ct.Length
    requires offset0 == Offset(k.cipher, start, blockNum0) && checksum0 == Checksum(text)
    modifies pt
    ensures blockNum == blockNum0 + 4 * quads
    ensures offset == Offset(k.cipher, start, blockNum)
    ensures checksum == Checksum(text + DecryptBlocks(k.cipher, start, blockNum0, Split(old(ct[..64 * quads]))))
    ensures pt[..] == Join(DecryptBlocks(k.cipher, start, blockNum0, Split(old(ct[..64 * quads])))) +
                      old(pt[64 * quads..])
  {
    hide L, Offset, Xor, Ntz, XorAll, DecryptBlocks, Split, Tail, Join, OcbSpec.Checksum, Keyed.Ok, PlainMixed,
         DecryptedSum;
    offset, checksum, blockNum := offset0, checksum0, blockNum0;
    ghost var n, ct0, pt0 := 64 * quads, ct[..], pt[..];
    ghost var s := ct0[..n];
    var i := 0;
    DecryptNothing(k.cipher, start, text, s, pt0);
    while i < quads
      invariant 0 <= i <= quads
      invariant blockNum == blockNum0 + 4 * i
      invariant offset == Offset(k.cipher, start, blockNum)
      invariant checksum == DecryptedSum(k.cipher, start, text, s, i)
      invariant pt[..] == PlainMixed(k.cipher, start, |text|, s, i, pt0)
      invariant ct != pt ==> ct[..] == ct0
    {
      offset, checksum := DecryptTurn(k, offset, checksum, blockNum, ct, pt, i, start, text, n, ct0, pt0);
      blockNum := blockNum + 4;
      i := i + 1;
    }
    DecryptAll(k.cipher, start, text, s, quads, pt0);
    assert ct0[..n] == old(ct[..64 * quads]) && pt0[n..] == old(pt[64 * quads..]);
  }

  lemma DecryptAll(c: Cipher, start: Block, text: seq<Block>, s: seq<byte>, quads: nat, pt0: seq<byte>)
    requires |s| == 64 * quads <= |pt0|
    ensures PlainMixed(c, start, |text|, s, quads, pt0) ==
            Join(DecryptBlocks(c, start, |text|, Split(s))) + pt0[64 * quads..]
    ensures DecryptedSum(c, start, text, s, quads) == Checksum(text + DecryptBlocks(c, start, |text|, Split(s)))
  {
    assert s[..64 * quads] == s;
  }

  /** The short final block of the plaintext of s. */
  function PlainTail(c: Cipher, start: Block, from: nat, s: seq<byte>): (t: seq<byte>)
    ensures |t| < 16
  {
    XorTail(Tail(s), FinalPad(c, start, from + |Split(s)|))
  }

  /** The final blocks of ae_decrypt and the expected tag. */
  method DecryptRest(k: Keyed, offset0: Block, checksum0: Block, r: seq<byte>, adChecksum: Block,
                     ghost start: Block, ghost text: seq<Block>)
    returns (out: seq<byte>, tag: Block)
    requires k.Ok() && |r| < 64 && |text| % 4 == 0
    requires offset0 == Offset(k.cipher, start, |text|) && checksum0 == Checksum(text)
    ensures out == PlainPiece(k.cipher, start, |text|, r)
    ensures tag == TagOf(k.cipher, start, adChecksum, text + DecryptBlocks(k.cipher, start, |text|, Split(r)),
                         PlainTail(k.cipher, start, |text|, r))
  {
    hide L, Offset, Xor, LoadBlock, StoreBlock, Split, Tail, Pad, Ntz, XorAll, OcbSpec.Checksum, Join, DecryptBlocks,
         XorTail, TagOf, XorEach, ZeroBytes, LStar, LDollar;
    var oa, offset := RestOffsets(k, offset0, |r|, start, |text|);
    var s := Split(r);
    RestTail(r);
    var last := r[16 * |s|..];
    var checksum, tail := checksum0, [];
    if |last| > 0 {
      offset := Xor(offset, k.lStar);
      var pad := k.cipher.enc(offset);
      var tmp := StoreBlock(Xor(LoadBlock(last + StoreBlock(pad)[|last|..]), pad));
      PadCancel(last, pad);
      tmp := tmp[|last| := 0x80];
      tail := tmp[..|last|];
      MarkEnd(tail, 16 - |last|);
      PadBytes(tail);
      checksum := Xor(checksum, LoadBlock(tmp));
    }
    var d := EcbDecrypt(k.cipher, XorEach(oa, s), |s|);
    var p := XorEach(d, oa);
    DecryptBlocksAre(k.cipher, start, |text|, s, oa, p);
    checksum := AddDown(checksum, p);
    ChecksumConcat(text, p);
    offset := Xor(offset, k.lDollar);
    tag := Xor(k.cipher.enc(Xor(offset, checksum)), adChecksum);
    out := Join(p) + tail;
    if |last| > 0 {
      XorAllShift(checksum0, Pad(tail), p);
      TagOfShort(k.cipher, start, adChecksum, text + p, tail);
    } else {
      TagOfWhole(k.cipher, start, adChecksum, text + p);
    }
  }

  /** The bulk part and the rest of a buffer together are the whole piece. */
  lemma PieceOfParts(c: Cipher, start: Block, text: seq<Block>, p: seq<byte>, quads: nat)
    requires 64 * quads <= |p|
    ensures |Split(p[..64 * quads])| == 4 * quads
    ensures Split(p) == Split(p[..64 * quads]) + Split(p[64 * quads..])
    ensures Tail(p) == Tail(p[64 * quads..])
    ensures (text + Split(p[..64 * quads])) + Split(p[64 * quads..]) == text + Split(p)
    ensures CipherPiece(c, start, |text|, p) ==
            Join(EncryptBlocks(c, start, |text|, Split(p[..64 * quads]))) +
            CipherPiece(c, start, |text| + 4 * quads, p[64 * quads..])
  {
    hide Split, Tail, Join, EncryptBlocks, XorTail, FinalPad;
    var head, rest := Split(p[..64 * quads]), Split(p[64 * quads..]);
    SplitDrop(p, 4 * quads);
    assert p[..16 * (4 * quads)] == p[..64 * quads] && p[16 * (4 * quads)..] == p[64 * quads..];
    SplitCount(p[..64 * quads], 4 * quads);
    ConcatAssoc(text, head, rest);
    EncryptBlocksConcat(c, start, |text|, head, rest);
    JoinConcat(EncryptBlocks(c, start, |text|, head), EncryptBlocks(c, start, |text| + 4 * quads, rest));
  }

  /** The end of ae_encrypt: the rest of the text, and the tag in its own buffer or behind the ciphertext. */
  method EncryptFinal(k: Keyed, offset: Block, checksum: Block, rest: seq<byte>, adChecksum: Block,
                      ct: array<byte>, pos: nat, tag: array?<byte>,
                      ghost start: Block, ghost text: seq<Block>, ghost done: seq<byte>, ghost ct0: seq<byte>)
    returns (written: nat)
    requires k.Ok() && |rest| < 64 && |text| % 4 == 0
    requires offset == Offset(k.cipher, start, |text|) && checksum == Checksum(text)
    requires pos + |rest| + (if tag == null then 16 else 0) <= ct.Length == |ct0|
    requires |done| == pos && ct[..] == done + ct0[pos..]
    requires tag != null ==> tag.Length >= 16 && tag != ct
    modifies ct, tag
    ensures written == pos + |rest| + if tag == null then 16 else 0
    ensures ct[..pos + |rest|] == done + CipherPiece(k.cipher, start, |text|, rest) && ct[written..] == ct0[written..]
    ensures (if tag == null then ct[pos + |rest|..written] else tag[..16]) ==
            StoreBlock(TagOf(k.cipher, start, adChecksum, text + Split(rest), Tail(rest)))
    ensures tag != null ==> tag[16..] == old(tag[16..])
  {
    hide L, Offset, Xor, Ntz, XorAll, EncryptBlocks, Split, Tail, Join, OcbSpec.Checksum, Keyed.Ok, CipherPiece,
         TagOf, StoreBlock;
    var out, t := EncryptRest(k, offset, checksum, rest, adChecksum, start, text);
    AppendAt(ct[..], done, out, ct0);
    Write(ct, pos, out);
    written := PlaceTag(ct, pos + |rest|, tag, t, done + out, ct0);
  }

  /** The tag in its own buffer, or behind the ciphertext. */
  method PlaceTag(ct: array<byte>, pos: nat, tag: array?<byte>, t: Block, ghost done: seq<byte>, ghost ct0: seq<byte>)
    returns (written: nat)
    requires pos + (if tag == null then 16 else 0) <= ct.Length == |ct0|
    requires |done| == pos && ct[..] == done + ct0[pos..]
    requires tag != null ==> tag.Length >= 16 && tag != ct
    modifies ct, tag
    ensures written == pos + if tag == null then 16 else 0
    ensures ct[..pos] == done && ct[written..] == ct0[written..]
    ensures (if tag == null then ct[pos..written] else tag[..16]) == StoreBlock(t)
    ensures tag != null ==> tag[16..] == old(tag[16..])
  {
    hide StoreBlock;
    written := pos;
    if tag != null {
      Write(tag, 0, StoreBlock(t));
    } else {
      AppendAt(ct[..], done, StoreBlock(t), ct0);
      Write(ct, pos, StoreBlock(t));
      written := pos + 16;
      assert ct[..] == done + StoreBlock(t) + ct0[written..];
    }
  }

  /**
   The text part of ae_encrypt.  A null tag asks for the tag behind the
   ciphertext.
   */
  method EncryptText(k: Keyed, offset0: Block, checksum0: Block, blockNum0: nat, adChecksum: Block,
                     pt: array<byte>, len: nat, ct: array<byte>, tag: array?<byte>, final: bool,
                     ghost start: Block, ghost text: seq<Block>)
    returns (offset: Block, checksum: Block, blockNum: nat, written: nat)
    requires k.Ok() && |text| == blockNum0 && blockNum0 % 4 == 0
    requires 16 * blockNum0 + len < 16 * BLOCK_LIMIT
    requires len <= pt.Length && len <= ct.Length
    requires final && tag == null ==> len + 16 <= ct.Length
    requires tag != null ==> tag.Length >= 16 && tag != ct && tag != pt
    requires final || len % 64 == 0
    requires offset0 == Offset(k.cipher, start, blockNum0) && checksum0 == Checksum(text)
    modifies ct, tag
    ensures offset == Offset(k.cipher, start, blockNum)
    ensures !final ==>
              && blockNum == |text + Split(old(pt[..len]))| && blockNum % 4 == 0
              && checksum == Checksum(text + Split(old(pt[..len])))
    ensures ct[..len] == CipherPiece(k.cipher, start, |text|, old(pt[..len]))
    ensures written == len + if final && tag == null then 16 else 0
    ensures ct[written..] == old(ct[written..])
    ensures final ==>
              (if tag == null then ct[len..written] else tag[..16]) ==
              StoreBlock(TagOf(k.cipher, start, adChecksum, text + Split(old(pt[..len])), Tail(old(pt[..len]))))
    ensures tag != null ==> if final then tag[16..] == old(tag[16..]) else tag[..] == old(tag[..])
  {
    hide L, Offset, Xor, Ntz, XorAll, EncryptBlocks, Split, Tail, Join, OcbSpec.Checksum, Keyed.Ok,
         CipherPiece, TagOf, StoreBlock, XorTail, FinalPad;
    var quads := len / 64;
    ghost var p, ct0 := pt[..len], ct[..];
    PieceOfParts(k.cipher, start, text, p, quads);
    FourMore(blockNum0, quads);
    var rest := pt[64 * quads..len];
    assert p[..64 * quads] == pt[..64 * quads] && p[64 * quads..] == rest;
    offset, checksum, blockNum := EncryptBulk(k, offset0, checksum0, blockNum0, pt, ct, quads, start, text);
    ghost var done := Join(EncryptBlocks(k.cipher, start, |text|, Split(p[..64 * quads])));
    assert ct[..] == done + ct0[64 * quads..];
    written := len;
    if final {
      written := EncryptFinal(k, offset, checksum, rest, adChecksum, ct, 64 * quads, tag,
                              start, text + Split(p[..64 * quads]), done, ct0);
    }
  }

  lemma PlainOfParts(c: Cipher, start: Block, text: seq<Block>, s: seq<byte>, quads: nat)
    requires 64 * quads <= |s|
    ensures |Split(s[..64 * quads])| == 4 * quads
    ensures |Split(s)| == 4 * quads + |Split(s[64 * quads..])| && Tail(s) == Tail(s[64 * quads..])
    ensures (text + DecryptBlocks(c, start, |text|, Split(s[..64 * quads]))) +
            DecryptBlocks(c, start, |text| + 4 * quads, Split(s[64 * quads..])) ==
            text + DecryptBlocks(c, start, |text|, Split(s))
    ensures PlainPiece(c, start, |text|, s) ==
            Join(DecryptBlocks(c, start, |text|, Split(s[..64 * quads]))) +
            PlainPiece(c, start, |text| + 4 * quads, s[64 * quads..])
    ensures PlainTail(c, start, |text|, s) == PlainTail(c, start, |text| + 4 * quads, s[64 * quads..])
  {
    hide Split, Tail, Join, DecryptBlocks, XorTail, FinalPad;
    var head, rest := Split(s[..64 * quads]), Split(s[64 * quads..]);
    SplitDrop(s, 4 * quads);
    assert s[..16 * (4 * quads)] == s[..64 * quads] && s[16 * (4 * quads)..] == s[64 * quads..];
    SplitCount(s[..64 * quads], 4 * quads);
    DecryptBlocksConcat(c, start, |text|, head, rest);
    var p, q := DecryptBlocks(c, start, |text|, head), DecryptBlocks(c, start, |text| + 4 * quads, rest);
    assert Split(s) == head + rest;
    ConcatAssoc(text, p, q);
    JoinConcat(p, q);
  }

  /**
   The text part of ae_decrypt.  With a null tag the tag stands behind the len
   bytes of ciphertext.
   */
  method DecryptText(k: Keyed, offset0: Block, checksum0: Block, blockNum0: nat, adChecksum: Block,
                     ct: array<byte>, len: nat, pt: array<byte>, tag: array?<byte>, final: bool,
                     ghost start: Block, ghost text: seq<Block>)
    returns (offset: Block, checksum: Block, blockNum: nat, result: int)
    requires k.Ok() && |text| == blockNum0 && blockNum0 % 4 == 0
    requires 16 * blockNum0 + len < 16 * BLOCK_LIMIT
    requires len <= pt.Length && len <= ct.Length
    requires final && tag == null ==> len + 16 <= ct.Length
    requires tag != null ==> tag.Length >= 16 && tag != ct && tag != pt
    requires final || len % 64 == 0
    requires offset0 == Offset(k.cipher, start, blockNum0) && checksum0 == Checksum(text)
    modifies pt
    ensures offset == Offset(k.cipher, start, blockNum)
    ensures !final ==>
              && blockNum == |text| + |Split(old(ct[..len]))| && blockNum % 4 == 0
              && checksum == Checksum(text + DecryptBlocks(k.cipher, start, |text|, Split(old(ct[..len]))))
              && result == len
    ensures pt[..len] == PlainPiece(k.cipher, start, |text|, old(ct[..len]))
    ensures pt[len..] == old(pt[len..])
    ensures final ==>
              result ==
              if old(if tag == null then ct[len..len + 16] else tag[..16]) ==
                 StoreBlock(TagOf(k.cipher, start, adChecksum,
                                  text + DecryptBlocks(k.cipher, start, |text|, Split(old(ct[..len]))),
                                  PlainTail(k.cipher, start, |text|, old(ct[..len]))))
              then len else AE_INVALID
  {
    hide L, Offset, Xor, Ntz, XorAll, DecryptBlocks, Split, Tail, Join, OcbSpec.Checksum, Keyed.Ok,
         PlainPiece, PlainTail, TagOf, StoreBlock, LoadBlock, XorTail, FinalPad;
    var quads := len / 64;
    ghost var s := ct[..len];
    PlainOfParts(k.cipher, start, text, s, quads);
    FourMore(blockNum0, quads);
    var rest := ct[64 * quads..len];
    assert s[..64 * quads] == ct[..64 * quads] && s[64 * quads..] == rest;
    offset, checksum, blockNum := DecryptBulk(k, offset0, checksum0, blockNum0, ct, pt, quads, start, text);
    result := len;
    if final {
      var out, t := DecryptRest(k, offset, checksum, rest, adChecksum, start,
                                text + DecryptBlocks(k.cipher, start, |text|, Split(s[..64 * quads])));
      Write(pt, 64 * quads, out);
      assert pt[len..] == old(pt[len..]);
      assert ct[len..] == old(ct[len..]);
      assert tag == null ==> ct[len..len + 16] == ct[len..][..16] == old(ct[len..len + 16]);
      var same := TagMatches(ct, len, tag, t);
      if !same {
        result := AE_INVALID;
      }
    }
  }

  /** The comparison with the given tag, or with the one behind the ciphertext. */
  method TagMatches(ct: array<byte>, len: nat, tag: array?<byte>, t: Block) returns (same: bool)
    requires if tag == null then len + 16 <= ct.Length else tag.Length >= 16
    ensures same == ((if tag == null then ct[len..len + 16] else tag[..16]) == StoreBlock(t))
  {
    hide StoreBlock, LoadBlock;
    if tag != null {
      StoreLoad(tag[..16]);
      LoadStore(t);
      return t == LoadBlock(tag[..16]);
    } else {
      var diff := ConstantTimeCompare(ct[len..len + 16], StoreBlock(t));
      return diff == Zeros(8);
    }
  }
}
