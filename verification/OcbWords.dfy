/**
 The value-level operations of keymaster/ocb.c and their agreement with the bit
 strings of RFC 7253.
 */
module OcbWords {
  import opened Bytes
  import opened Blocks
  import opened OcbSpec

  const L_TABLE_SZ: nat := 16

  /** The register value 135. */
  const WORD_135: Word := Zeros(56) + [true, false, false, false, false, true, true, true]

  /** double_block on the two register words of a block. */
  function DoubleWords(l: Word, r: Word): (Word, Word) {
    var mask: Word := if l[0] then WORD_135 else Zeros(64);
    (Xor(ShiftLeft(l, 1), ShiftRight(r, 63)), Xor(ShiftLeft(r, 1), mask))
  }

  lemma DoubleWordsDoubles(l: Word, r: Word)
    ensures Cat(DoubleWords(l, r).0, DoubleWords(l, r).1) == Double(Cat(l, r))
  {
    var (l', r') := DoubleWords(l, r);
    var shifted := Cat(l, r)[1..] + [false];
    assert l' == l[1..] + [r[0]];
    assert shifted == l' + ShiftLeft(r, 1);
    if l[0] {
      XorCat(l', ShiftLeft(r, 1), Zeros(64), WORD_135);
      assert REDUCTION == Zeros(64) + WORD_135;
      XorZero(l');
    } else {
      XorZero(ShiftLeft(r, 1));
    }
  }

  /** gen_offset: the 128 bits that start at bit `bot` of the three words. */
  function GenOffset(k: seq<Word>, bot: nat): (b: Block)
    requires |k| == 3 && bot < 64
  {
    if bot != 0 then
      Cat(Or(ShiftLeft(k[0], bot), ShiftRight(k[1], 64 - bot)),
          Or(ShiftLeft(k[1], bot), ShiftRight(k[2], 64 - bot)))
    else
      Cat(k[0], k[1])
  }

  lemma GenOffsetIsSlice(k: seq<Word>, bot: nat)
    requires |k| == 3 && bot < 64
    ensures GenOffset(k, bot) == Cat(Cat(k[0], k[1]), k[2])[bot..bot + 128]
  {
    ShiftWindow(k[0], k[1], bot);
    ShiftWindow(k[1], k[2], bot);
  }

  /** The words the source keeps in KtopStr for an enciphered nonce top. */
  function KtopWords(ktop: Block): (k: seq<Word>)
    ensures |k| == 3
  {
    var k0: Word := ktop[..64];
    var k1: Word := ktop[64..];
    [k0, k1, Xor(Xor(k0, ShiftLeft(k0, 8)), ShiftRight(k1, 56))]
  }

  lemma KtopWordsStretch(ktop: Block)
    ensures var k := KtopWords(ktop); Cat(Cat(k[0], k[1]), k[2]) == Stretch(ktop)
  {
    var k := KtopWords(ktop);
    assert Cat(k[0], k[1]) == ktop;
    var s := Xor(ktop[..64], ktop[8..72]);
    forall i | 0 <= i < 64
      ensures k[2][i] == s[i]
    {
    }
    assert k[2] == s;
  }

  // The nonce block.

  function NonceBytes(nonce: seq<byte>): (s: seq<byte>)
    requires |nonce| == 12
  {
    [(16 * 8 % 128) * 2, 0, 0, 1] + nonce
  }

  /** The last nonce byte and 0x3f. */
  function NonceIndex(nonce: seq<byte>): (n: nat)
    requires |nonce| == 12
    ensures n < 64
  {
    nonce[11] % 64
  }

  /** A byte and 0xc0. */
  function ClearLowBits(b: byte): byte {
    b / 64 * 64
  }

  function NonceTop(nonce: seq<byte>): (b: Block)
    requires |nonce| == 12
  {
    LoadBlock(NonceBytes(nonce)[15 := ClearLowBits(nonce[11])])
  }

  lemma HalveJoin(q: nat, r: nat, d: nat)
    ensures (q * (2 * d) + r) / 2 == q * d + r / 2
    ensures (q * (2 * d) + r) % 2 == r % 2
  {
    assert q * (2 * d) == 2 * (q * d);
  }

  /** The bits of a number written with a high and a low part. */
  lemma {:induction false} NumToBitsJoin(q: nat, r: nat, n: nat, k: nat)
    requires r < Pow2(k)
    ensures NumToBits(q * Pow2(k) + r, n + k) == NumToBits(q, n) + NumToBits(r, k)
    decreases k
  {
    if k > 0 {
      HalveJoin(q, r, Pow2(k - 1));
      NumToBitsJoin(q, r / 2, n, k - 1);
    }
  }

  lemma {:induction false} NumToBitsZero(n: nat)
    ensures NumToBits(0, n) == Zeros(n)
  {
    if n > 0 {
      NumToBitsZero(n - 1);
    }
  }

  lemma ZerosConcat(m: nat, n: nat)
    ensures Zeros(m) + Zeros(n) == Zeros(m + n)
  {
  }

  lemma BitsOfOne()
    ensures ByteToBits(1) == Zeros(7) + [true]
  {
    assert NumToBits(1, 8) == NumToBits(0, 7) + [true];
    NumToBitsZero(7);
  }

  lemma BitsOfByte(b: byte)
    ensures ToBits([b]) == ByteToBits(b)
  {
    hide ByteToBits;
    assert [b][1..] == [];
  }

  /** The word written at the front of the nonce block is the RFC's header. */
  lemma NonceHeader()
    ensures ToBits([0, 0, 0, 1]) == Zeros(31) + [true]
  {
    hide ToBits, ByteToBits, Zeros;
    var front := ZeroBytes(3);
    assert front + [1] == [0, 0, 0, 1];
    ToBitsConcat(front, [1]);
    ZeroBytesBits(3);
    BitsOfByte(1);
    BitsOfOne();
    ZerosConcat(24, 7);
    assert Zeros(24) + (Zeros(7) + [true]) == (Zeros(24) + Zeros(7)) + [true];
  }

  lemma LastByteBits(b: byte)
    ensures ByteToBits(b)[..2] + Zeros(6) == ByteToBits(ClearLowBits(b))
    ensures BitsToNum(ByteToBits(b)[2..]) == b % 64
  {
    hide NumToBits, BitsToNum, Zeros;
    var q, r := b / 64, b % 64;
    ByteInTwo(q, r);
    ByteInTwo(q, 0);
    NumToBitsZero(6);
    assert Pow2(6) == 64;
    NumRoundTrip(r, 6);
  }

  lemma ByteInTwo(q: nat, r: nat)
    requires q < 4 && r < 64
    ensures ByteToBits(64 * q + r) == NumToBits(q, 2) + NumToBits(r, 6)
  {
    hide NumToBits;
    assert Pow2(6) == 64 && q * Pow2(6) == 64 * q;
    NumToBitsJoin(q, r, 2, 6);
  }

  lemma NonceBitsLast(nonce: seq<byte>)
    requires |nonce| == 12
    ensures NonceBits(nonce) == ToBits([0, 0, 0, 1] + nonce[..11]) + ByteToBits(nonce[11])
  {
    hide ToBits, ByteToBits, Zeros, NumToBits;
    var head, init, last := [0, 0, 0, 1], nonce[..11], [nonce[11]];
    assert nonce == init + last;
    ToBitsConcat(head, init);
    ToBitsConcat(init, last);
    BitsOfByte(nonce[11]);
    NonceHeader();
    NumToBitsZero(7);
    ZerosConcat(7, 24);
    assert ToBits(head) + (ToBits(init) + ToBits(last)) == (ToBits(head) + ToBits(init)) + ToBits(last);
  }

  lemma NonceTopBits(nonce: seq<byte>)
    requires |nonce| == 12
    ensures NonceTop(nonce) == ToBits([0, 0, 0, 1] + nonce[..11]) + ByteToBits(ClearLowBits(nonce[11]))
  {
    var head := [0, 0, 0, 1] + nonce[..11];
    var last := ClearLowBits(nonce[11]);
    assert NonceBytes(nonce)[15 := last] == head + [last];
    ToBitsConcat(head, [last]);
    assert ToBits([last]) == ByteToBits(last);
  }

  /** The nonce block and index of the source are Top and Bottom of the RFC. */
  lemma NonceSplit(nonce: seq<byte>)
    requires |nonce| == 12
    ensures NonceIndex(nonce) == Bottom(nonce)
    ensures NonceTop(nonce) == Top(nonce)
  {
    NonceBitsLast(nonce);
    NonceTopBits(nonce);
    LastByteBits(nonce[11]);
    assert NonceBits(nonce)[122..] == ByteToBits(nonce[11])[2..];
  }

  /** No nonce block is the zero block that ae_init leaves in the cache. */
  lemma NonceTopNotZero(nonce: seq<byte>)
    requires |nonce| == 12
    ensures NonceTop(nonce) != ZERO_BLOCK
  {
    hide NonceTop, ToBits, ByteToBits;
    NonceTopBits(nonce);
    ToBitsConcat([0, 0, 0, 1], nonce[..11]);
    NonceHeader();
    assert NonceTop(nonce)[31];
  }

  /** The offset the source derives from a nonce is Offset_0 of section 4.2. */
  lemma NonceOffset(c: Cipher, nonce: seq<byte>)
    requires |nonce| == 12
    ensures GenOffset(KtopWords(c.enc(NonceTop(nonce))), NonceIndex(nonce)) == Offset0(c, nonce)
  {
    NonceSplit(nonce);
    var ktop := c.enc(NonceTop(nonce));
    GenOffsetIsSlice(KtopWords(ktop), NonceIndex(nonce));
    KtopWordsStretch(ktop);
  }

  // Which L value each block needs.

  /** In a group of four blocks only the last needs the trailing-zero count. */
  lemma NtzOfFour(n: nat)
    requires n % 4 == 0
    ensures Ntz(n + 1) == 0 && Ntz(n + 2) == 1 && Ntz(n + 3) == 0
  {
    var m := n / 4;
    assert n == 4 * m;
    NtzOdd(2 * m);
    NtzOdd(2 * m + 1);
    NtzOdd(m);
    assert (n + 2) / 2 == 2 * m + 1 && (n + 2) % 2 == 0;
    assert Ntz(n + 2) == 1 + Ntz(2 * m + 1);
  }

  lemma NtzOdd(m: nat)
    ensures Ntz(2 * m + 1) == 0
  {
  }

  lemma {:induction false} NtzBound(n: nat, k: nat)
    requires 0 < n < Pow2(k)
    ensures Ntz(n) < k
    decreases k
  {
    if n % 2 == 0 {
      NtzBound(n / 2, k - 1);
    }
  }

  /** Every index into the L table is below its size. */
  lemma TableIndex(n: nat)
    requires 0 < n < 0x1_0000
    ensures Ntz(n) < L_TABLE_SZ
  {
    assert Pow2(16) == 256 * Pow2(8) && Pow2(8) == 256;
    NtzBound(n, 16);
  }

  /** Leaving L[0] out of the third offset is the rearrangement in process_ad. */
  lemma ThirdOffset(o: Block, l0: Block, l1: Block)
    ensures Xor(Xor(Xor(o, l0), l1), l0) == Xor(o, l1)
  {
  }

  // Partial blocks.

  function ZeroBytes(n: nat): (s: seq<byte>)
    ensures |s| == n
  {
    seq(n, i => 0)
  }

  lemma {:induction false} ZeroBytesBits(n: nat)
    ensures ToBits(ZeroBytes(n)) == Zeros(8 * n)
  {
    if n > 0 {
      assert ZeroBytes(n)[1..] == ZeroBytes(n - 1);
      ZeroBytesBits(n - 1);
      NumToBitsZero(8);
    }
  }

  /** A zeroed block with a short string and then 0x80 copied in. */
  lemma PadBytes(s: seq<byte>)
    requires |s| < 16
    ensures LoadBlock(s + [0x80] + ZeroBytes(15 - |s|)) == Pad(s)
  {
    hide ToBits, Zeros, ZeroBytes;
    var n := 8 * (15 - |s|);
    ToBitsConcat(s + [0x80], ZeroBytes(15 - |s|));
    ToBitsConcat(s, [0x80]);
    ZeroBytesBits(15 - |s|);
    MarkerBits();
    ZerosConcat(7, n);
    MiddleJoin(ToBits(s), [true], Zeros(7), Zeros(n));
  }

  lemma MarkerBits()
    ensures ToBits([0x80]) == [true] + Zeros(7)
  {
    assert NumToBits(1, 1) == [true] && ToBits([]) == [] && [0x80] + [] == [0x80];
    hide ToBits, NumToBits, Zeros;
    assert Pow2(7) == 128;
    NumToBitsJoin(1, 0, 1, 7);
    NumToBitsZero(7);
    ToBitsCons(0x80, []);
  }

  lemma MiddleJoin(a: Bits, b: Bits, c: Bits, d: Bits)
    ensures (a + (b + c)) + d == a + b + (c + d)
  {
  }

  lemma {:induction false} FromBitsPrefix(t: Bits, n: nat)
    requires |t| % 8 == 0 && 8 * n <= |t|
    ensures FromBits(t)[..n] == FromBits(t[..8 * n])
  {
    assert |t[8 * n..]| % 8 == 0;
    assert t == t[..8 * n] + t[8 * n..];
    FromBitsConcat(t[..8 * n], t[8 * n..]);
  }

  /** The leading bytes of a padded block xor a pad are the encrypted short block. */
  lemma PadXor(s: seq<byte>, pad: Block)
    requires |s| < 16
    ensures StoreBlock(Xor(Pad(s), pad))[..|s|] == XorTail(s, pad)
  {
    FromBitsPrefix(Xor(Pad(s), pad), |s|);
    assert Xor(Pad(s), pad)[..8 * |s|] == Xor(ToBits(s), pad[..8 * |s|]);
  }

  /**
   Copying the short ciphertext over the front of the pad and adding the pad
   cancels everything behind it.
   */
  lemma PadCancel(s: seq<byte>, pad: Block)
    requires |s| < 16
    ensures var t := s + StoreBlock(pad)[|s|..];
            StoreBlock(Xor(LoadBlock(t), pad)) == XorTail(s, pad) + ZeroBytes(16 - |s|)
  {
    hide ToBits, FromBits, Zeros, ZeroBytes, Xor;
    var t := s + StoreBlock(pad)[|s|..];
    var n := 8 * |s|;
    var head := Xor(ToBits(s), pad[..n]);
    assert LoadBlock(t) == ToBits(s) + pad[n..] by {
      PadSuffix(pad, |s|);
      ToBitsConcat(s, StoreBlock(pad)[|s|..]);
    }
    assert Xor(LoadBlock(t), pad) == head + Zeros(8 * (16 - |s|)) by {
      XorPrefix(ToBits(s), pad);
    }
    ZeroBitsBytes(16 - |s|);
    FromBitsConcat(head, Zeros(8 * (16 - |s|)));
  }

  lemma XorPrefix(a: Bits, b: Bits)
    requires |a| <= |b|
    ensures Xor(a + b[|a|..], b) == Xor(a, b[..|a|]) + Zeros(|b| - |a|)
  {
  }

  lemma ZeroBitsBytes(k: nat)
    ensures FromBits(Zeros(8 * k)) == ZeroBytes(k)
  {
    ZeroBytesBits(k);
    FromToBits(ZeroBytes(k));
  }

  lemma PadSuffix(pad: Block, k: nat)
    requires k <= 16
    ensures ToBits(StoreBlock(pad)[k..]) == pad[8 * k..]
  {
    var s := StoreBlock(pad);
    assert s == s[..k] + s[k..];
    ToBitsConcat(s[..k], s[k..]);
    LoadStore(pad);
  }
}
