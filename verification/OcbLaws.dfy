/**
 What the values of OCB are, apart from how they are computed: doubling as a linear
 map, offsets by the Gray code, every ciphertext byte and the tag by position, and
 which sealed messages open.
 */
module OcbLaws {
  import opened Bytes
  import opened Blocks
  import opened OcbSpec
  import opened OcbWords

  // Doubling.

  /** The power x^k of the field GF(2^128): one bit, counted from the end. */
  function Unit(k: nat): (b: Block)
    requires k < 128
    ensures forall i | 0 <= i < 128 :: b[i] == (i == 127 - k)
  {
    Zeros(127 - k) + [true] + Zeros(k)
  }

  /** Doubling is linear. */
  lemma DoubleLinear(a: Block, b: Block)
    ensures Double(Xor(a, b)) == Xor(Double(a), Double(b))
  {
    SameBits(Double(Xor(a, b)), Xor(Double(a), Double(b)));
  }

  lemma SameBits(a: Bits, b: Bits)
    requires |a| == |b| && forall i | 0 <= i < |a| :: a[i] == b[i]
    ensures a == b
  {
  }

  /** Doubling multiplies by x, and x^128 is x^7 + x^2 + x + 1. */
  lemma DoubleUnit(k: nat)
    requires k < 128
    ensures Double(Unit(k)) == if k < 127 then Unit(k + 1) else Xor(Xor(Unit(7), Unit(2)), Xor(Unit(1), Unit(0)))
  {
    if k < 127 {
      SameBits(Double(Unit(k)), Unit(k + 1));
    } else {
      SameBits(Double(Unit(127)), Xor(Xor(Unit(7), Unit(2)), Xor(Unit(1), Unit(0))));
    }
  }

  /** Only zero doubles to zero. */
  lemma DoubleNonzero(b: Block)
    requires b != Zeros(128)
    ensures Double(b) != Zeros(128)
  {
    if b[0] {
      assert Double(b)[127];
    } else {
      var i :| 0 <= i < 128 && b[i];
      assert Double(b)[i - 1];
    }
  }

  /** x^k times a block. */
  function Times(k: nat, b: Block): Block {
    if k == 0 then b else Double(Times(k - 1, b))
  }

  lemma {:induction false} TimesNonzero(k: nat, b: Block)
    requires b != Zeros(128)
    ensures Times(k, b) != Zeros(128)
  {
    hide Double;
    if k > 0 {
      TimesNonzero(k - 1, b);
      DoubleNonzero(Times(k - 1, b));
    }
  }

  /** The key-dependent values are the enciphered zero block times 1, x, x^2 and so on. */
  lemma {:induction false} LIsTimes(c: Cipher, i: nat)
    ensures LStar(c) == c.enc(Zeros(128)) && LDollar(c) == Times(1, c.enc(Zeros(128)))
    ensures L(c, i) == Times(i + 2, c.enc(Zeros(128)))
  {
    hide Double;
    var z := c.enc(Zeros(128));
    assert Times(0, z) == z && Times(1, z) == Double(z) && Times(2, z) == Double(Double(z));
    if i > 0 {
      LIsTimes(c, i - 1);
    }
  }

  // Offsets.

  /** The number of trailing zeros is the exponent of two in a number. */
  lemma {:induction false} NtzMeans(n: nat) returns (q: nat)
    requires n > 0
    ensures n == Pow2(Ntz(n)) * (2 * q + 1)
  {
    if n % 2 == 1 {
      q := n / 2;
    } else {
      q := NtzMeans(n / 2);
      var p := Pow2(Ntz(n / 2));
      assert n == 2 * (n / 2) == 2 * (p * (2 * q + 1)) == (2 * p) * (2 * q + 1);
    }
  }

  /** Each offset differs from the one before by the enciphered zero block times x^(2 + ntz). */
  lemma OffsetStep(c: Cipher, start: Block, i: nat)
    ensures Offset(c, start, 0) == start
    ensures Offset(c, start, i + 1) == Xor(Offset(c, start, i), Times(Ntz(i + 1) + 2, c.enc(Zeros(128))))
  {
    hide Xor, Ntz, L, Times;
    LIsTimes(c, Ntz(i + 1));
  }

  /** Offsets move at every block unless the cipher maps zero to zero. */
  lemma OffsetMoves(c: Cipher, start: Block, i: nat)
    requires c.enc(Zeros(128)) != Zeros(128)
    ensures Offset(c, start, i + 1) != Offset(c, start, i)
  {
    hide Double, L, Ntz, Offset;
    var l := Times(Ntz(i + 1) + 2, c.enc(Zeros(128)));
    OffsetStep(c, start, i);
    TimesNonzero(Ntz(i + 1) + 2, c.enc(Zeros(128)));
    AddsNothing(Offset(c, start, i), l);
  }

  lemma AddsNothing(a: Block, b: Block)
    ensures Xor(a, b) == a <==> b == Zeros(128)
  {
    if Xor(a, b) == a {
      forall i | 0 <= i < 128 ensures !b[i] {
        assert Xor(a, b)[i] == a[i];
      }
      SameBits(b, Zeros(128));
    } else if b == Zeros(128) {
      SameBits(Xor(a, b), a);
    }
  }

  /** The values of the one bits of the Gray code of i, from the lowest bit on. */
  function GraySum(c: Cipher, d: nat, i: nat): Block
    decreases i
  {
    if i == 0 then Zeros(128)
    else Xor(Entry(c, d, (i + 1) / 2 % 2 == 1), GraySum(c, d + 1, i / 2))
  }

  /** The sum of the increments of the first i blocks, with the table shifted by d. */
  function StepSum(c: Cipher, d: nat, i: nat): Block {
    if i == 0 then Zeros(128) else Xor(StepSum(c, d, i - 1), Times(d + Ntz(i) + 2, c.enc(Zeros(128))))
  }

  lemma {:induction false} OffsetIsStepSum(c: Cipher, start: Block, i: nat)
    ensures Offset(c, start, i) == Xor(start, StepSum(c, 0, i))
  {
    hide Times, Ntz, Xor;
    if i == 0 {
      XorZero(start);
    } else {
      OffsetIsStepSum(c, start, i - 1);
      OffsetStep(c, start, i - 1);
      XorAssoc(start, StepSum(c, 0, i - 1), Times(Ntz(i) + 2, c.enc(Zeros(128))));
    }
  }

  lemma XorAssoc(a: Block, b: Block, c: Block)
    ensures Xor(Xor(a, b), c) == Xor(a, Xor(b, c))
  {
    SameBits(Xor(Xor(a, b), c), Xor(a, Xor(b, c)));
  }

  /** The entry d of the table if a condition holds, or nothing. */
  function Entry(c: Cipher, d: nat, has: bool): Block {
    if has then Times(d + 2, c.enc(Zeros(128))) else Zeros(128)
  }

  /** Odd blocks add the lowest table entry, even ones what half their number adds one entry up. */
  lemma {:induction false} StepSumHalves(c: Cipher, d: nat, i: nat)
    ensures StepSum(c, d, i) == Xor(Entry(c, d, (i + 1) / 2 % 2 == 1), StepSum(c, d + 1, i / 2))
  {
    hide Entry, StepSum, Xor, Ntz;
    if i == 0 {
      NoSteps(c, d);
    } else {
      StepSumHalves(c, d, i - 1);
      if i % 2 == 1 {
        OddBlock(i);
        OddStep(c, d, i);
      } else {
        EvenBlock(i);
        EvenStep(c, d, i);
      }
    }
  }

  lemma NoSteps(c: Cipher, d: nat)
    ensures StepSum(c, d, 0) == Xor(Entry(c, d, false), StepSum(c, d + 1, 0))
  {
    XorZero(Zeros(128));
  }

  lemma OddStep(c: Cipher, d: nat, i: nat)
    requires i > 0 && Ntz(i) == 0
    requires StepSum(c, d, i - 1) == Xor(Entry(c, d, i / 2 % 2 == 1), StepSum(c, d + 1, i / 2))
    ensures StepSum(c, d, i) == Xor(Entry(c, d, i / 2 % 2 != 1), StepSum(c, d + 1, i / 2))
  {
    hide Times, Xor, Ntz;
    AddOnce(Times(d + 2, c.enc(Zeros(128))), StepSum(c, d + 1, i / 2), i / 2 % 2 == 1);
  }

  lemma EvenStep(c: Cipher, d: nat, i: nat)
    requires i > 1 && Ntz(i) == 1 + Ntz(i / 2)
    requires StepSum(c, d, i - 1) == Xor(Entry(c, d, i / 2 % 2 == 1), StepSum(c, d + 1, i / 2 - 1))
    ensures StepSum(c, d, i) == Xor(Entry(c, d, i / 2 % 2 == 1), StepSum(c, d + 1, i / 2))
  {
    hide Times, Xor, Ntz, Entry;
    var m := i / 2;
    XorAssoc(Entry(c, d, m % 2 == 1), StepSum(c, d + 1, m - 1), Times(d + 1 + Ntz(m) + 2, c.enc(Zeros(128))));
  }

  lemma OddBlock(i: nat)
    requires i % 2 == 1
    ensures Ntz(i) == 0 && (i - 1) / 2 == i / 2 && (i - 1 + 1) / 2 == i / 2 && (i + 1) / 2 == i / 2 + 1
    ensures (i / 2 + 1) % 2 == 1 <==> i / 2 % 2 != 1
  {
  }

  lemma EvenBlock(i: nat)
    requires i % 2 == 0 && i > 0
    ensures Ntz(i) == 1 + Ntz(i / 2) && (i - 1) / 2 == i / 2 - 1 && (i - 1 + 1) / 2 == i / 2 == (i + 1) / 2
  {
  }

  /** Adding a value to a sum that has it, or lacks it, takes it out, or puts it in. */
  lemma AddOnce(l: Block, rest: Block, has: bool)
    ensures Xor(Xor(if has then l else Zeros(128), rest), l) == Xor(if has then Zeros(128) else l, rest)
  {
    SameBits(Xor(Xor(if has then l else Zeros(128), rest), l), Xor(if has then Zeros(128) else l, rest));
  }

  lemma {:induction false} StepSumIsGray(c: Cipher, d: nat, i: nat)
    ensures StepSum(c, d, i) == GraySum(c, d, i)
    decreases i
  {
    hide Entry, Xor;
    if i > 0 {
      StepSumHalves(c, d, i);
      StepSumIsGray(c, d + 1, i / 2);
    }
  }

  /** The offset of block i without the offsets before it: the start and the table entries of the Gray code of i. */
  lemma OffsetByGray(c: Cipher, start: Block, i: nat)
    ensures Offset(c, start, i) == Xor(start, GraySum(c, 0, i))
  {
    OffsetIsStepSum(c, start, i);
    StepSumIsGray(c, 0, i);
  }

  // The nonce.

  /** Which bits of a nonce choose the cached block, and which choose the window. */
  lemma NonceParts(nonce: seq<byte>)
    requires |nonce| == 12
    ensures Bottom(nonce) == nonce[11] % 64
    ensures Top(nonce) == ToBits([0, 0, 0, 1] + nonce[..11] + [nonce[11] / 64 * 64])
  {
    hide ToBits, Top, NonceTop, Bottom;
    NonceSplit(nonce);
    NonceTopBits(nonce);
    ToBitsConcat([0, 0, 0, 1] + nonce[..11], [nonce[11] / 64 * 64]);
    BitsOfByte(nonce[11] / 64 * 64);
  }

  /** Two nonces share a block, and so a hit in the cache, exactly if they agree but for their last six bits. */
  lemma SameTop(m: seq<byte>, n: seq<byte>)
    requires |m| == |n| == 12
    ensures Top(m) == Top(n) <==> m[..11] == n[..11] && m[11] / 64 == n[11] / 64
  {
    hide ToBits, Top;
    var s, t := [0, 0, 0, 1] + m[..11] + [m[11] / 64 * 64], [0, 0, 0, 1] + n[..11] + [n[11] / 64 * 64];
    NonceParts(m);
    NonceParts(n);
    if Top(m) == Top(n) {
      FromToBits(s);
      FromToBits(t);
      assert s[4..15] == m[..11] && t[4..15] == n[..11] && s[15] == t[15];
    }
  }

  /** Offset_0 bit by bit: a window of the enciphered block followed by its first 64 bits plus those 8 further on. */
  lemma FirstOffsetBits(c: Cipher, nonce: seq<byte>, j: nat)
    requires |nonce| == 12 && j < 128
    ensures var k := c.enc(Top(nonce));
            var i := nonce[11] % 64 + j;
            Offset0(c, nonce)[j] == if i < 128 then k[i] else k[i - 128] != k[i - 120]
  {
    hide Top, Bottom, Stretch;
    NonceParts(nonce);
    StretchBits(c.enc(Top(nonce)), nonce[11] % 64 + j);
  }

  lemma StretchBits(k: Block, i: nat)
    requires i < 192
    ensures Stretch(k)[i] == if i < 128 then k[i] else k[i - 128] != k[i - 120]
  {
    if i >= 128 {
      assert k[..64][i - 128] == k[i - 128] && k[8..72][i - 128] == k[i - 120];
    }
  }

  // Ciphertext and tag.

  lemma SplitAt(s: seq<byte>, i: nat)
    requires 16 * i + 16 <= |s|
    ensures i < |Split(s)| && Split(s)[i] == LoadBlock(s[16 * i..16 * i + 16])
  {
    hide LoadBlock, Split, Tail;
    SplitDrop(s, i);
    var t := s[16 * i..];
    SplitCons(t);
    assert Split(s)[i..][0] == Split(s)[i];
    assert t[..16] == s[16 * i..16 * i + 16];
  }

  lemma JoinAt(bs: seq<Block>, i: nat)
    requires i < |bs|
    ensures Join(bs)[16 * i..16 * i + 16] == StoreBlock(bs[i])
  {
    hide StoreBlock, Join;
    var head, tail := bs[..i], bs[i..];
    JoinConcat(head, tail);
    JoinCons(tail);
    assert head + tail == bs;
    MiddleOf(Join(head), StoreBlock(bs[i]), Join(tail[1..]));
  }

  lemma JoinCons(bs: seq<Block>)
    requires bs != []
    ensures Join(bs) == StoreBlock(bs[0]) + Join(bs[1..])
  {
  }

  lemma MiddleOf(a: seq<byte>, b: seq<byte>, c: seq<byte>)
    ensures (a + (b + c))[|a|..|a| + |b|] == b
  {
  }

  function BlockAt(s: seq<byte>, i: nat): (b: Block)
    requires 16 * i + 16 <= |s|
  {
    LoadBlock(s[16 * i..16 * i + 16])
  }

  /** The offset of block i of a message. */
  function GrayOffset(c: Cipher, nonce: seq<byte>, i: nat): Block
    requires |nonce| == 12
  {
    Xor(Offset0(c, nonce), GraySum(c, 0, i))
  }

  /** The ciphertext of every whole block, found by its position alone. */
  lemma BlockOfCiphertext(c: Cipher, nonce: seq<byte>, a: seq<byte>, p: seq<byte>, i: nat)
    requires |nonce| == 12 && 16 * i + 16 <= |p|
    ensures var o := GrayOffset(c, nonce, i + 1);
            var s := Encrypt(c, nonce, a, p).text;
            |s| == |p| && s[16 * i..16 * i + 16] == StoreBlock(Xor(o, c.enc(Xor(BlockAt(p, i), o))))
  {
    hide Split, Tail, Join, Offset, Offset0, XorTail, FinalPad, GraySum, LoadBlock, StoreBlock, Xor;
    var start := Offset0(c, nonce);
    SplitAt(p, i);
    OffsetByGray(c, start, i + 1);
    var bs := EncryptBlocks(c, start, 0, Split(p));
    JoinAt(bs, i);
    var s := Encrypt(c, nonce, a, p).text;
    assert s[16 * i..16 * i + 16] == Join(bs)[16 * i..16 * i + 16];
  }

  lemma TailAt(s: seq<byte>, m: nat)
    requires 16 * m <= |s| < 16 * m + 16
    ensures |Split(s)| == m && Tail(s) == s[16 * m..]
  {
    hide Split, Tail, LoadBlock;
    assert |s| == 16 * |Split(s)| + |Tail(s)| && |Tail(s)| < 16;
    SplitDrop(s, m);
    ShortSplit(s[16 * m..]);
  }

  /** The ciphertext of the last bytes: they are added to the leading bits of an enciphered offset. */
  lemma TailOfCiphertext(c: Cipher, nonce: seq<byte>, a: seq<byte>, p: seq<byte>, m: nat)
    requires |nonce| == 12 && 16 * m <= |p| < 16 * m + 16
    ensures var pad := c.enc(Xor(GrayOffset(c, nonce, m), c.enc(Zeros(128))));
            var s := Encrypt(c, nonce, a, p).text;
            |s| == |p| && ToBits(s[16 * m..]) == Xor(ToBits(p[16 * m..]), pad[..8 * |p[16 * m..]|])
  {
    hide Split, Tail, Join, Offset, Offset0, EncryptBlocks, GraySum, ToBits, FromBits, Xor;
    var start := Offset0(c, nonce);
    TailAt(p, m);
    OffsetByGray(c, start, m);
    LIsTimes(c, 0);
    var pad := FinalPad(c, start, m);
    ToFromBits(Xor(ToBits(p[16 * m..]), pad[..8 * |p[16 * m..]|]));
    assert Encrypt(c, nonce, a, p).text[16 * m..] == XorTail(Tail(p), pad);
  }

  /** How many of the blocks have a one at a position. */
  function Ones(p: seq<Block>, j: nat): nat
    requires j < 128
  {
    if p == [] then 0 else Ones(p[..|p| - 1], j) + if p[|p| - 1][j] then 1 else 0
  }

  /** Every bit of the checksum is the parity of that bit over all blocks. */
  lemma {:induction false} ChecksumBits(p: seq<Block>, j: nat)
    requires j < 128
    ensures Checksum(p)[j] == (Ones(p, j) % 2 == 1)
  {
    if p != [] {
      ChecksumBits(p[..|p| - 1], j);
    }
  }

  /** The tag of a message of whole blocks: checksum, last offset and x times the enciphered zero block, and the hash. */
  lemma TagOfWholeMessage(c: Cipher, nonce: seq<byte>, a: seq<byte>, p: seq<byte>, m: nat)
    requires |nonce| == 12 && |p| == 16 * m
    ensures Encrypt(c, nonce, a, p).tag ==
            Xor(c.enc(Xor(Xor(Checksum(Split(p)), GrayOffset(c, nonce, m)), Times(1, c.enc(Zeros(128))))), Hash(c, a))
  {
    hide Split, Tail, Offset, Offset0, OcbSpec.Checksum, GraySum, Pad, Xor, OcbSpec.Hash, Times, CipherText;
    TailAt(p, m);
    OffsetByGray(c, Offset0(c, nonce), m);
    LIsTimes(c, 0);
  }

  /** The tag of any other message: the padded rest joins the checksum, the enciphered zero block the offset. */
  lemma TagOfShortMessage(c: Cipher, nonce: seq<byte>, a: seq<byte>, p: seq<byte>, m: nat)
    requires |nonce| == 12 && 16 * m < |p| < 16 * m + 16
    ensures var z := c.enc(Zeros(128));
            var sum := Xor(Checksum(Split(p)), Pad(p[16 * m..]));
            Encrypt(c, nonce, a, p).tag ==
            Xor(c.enc(Xor(Xor(sum, Xor(GrayOffset(c, nonce, m), z)), Times(1, z))), Hash(c, a))
  {
    hide Split, Tail, Offset, Offset0, OcbSpec.Checksum, GraySum, Pad, Xor, OcbSpec.Hash, Times, CipherText;
    TailAt(p, m);
    OffsetByGray(c, Offset0(c, nonce), m);
    LIsTimes(c, 0);
  }

  /** The terms of HASH for the whole blocks, each found by its position. */
  lemma {:induction false} HashOfBlocksBits(c: Cipher, a: seq<Block>, j: nat)
    requires j < 128
    ensures HashSum(c, a)[j] == (Ones(HashInputs(c, a), j) % 2 == 1)
  {
    hide Offset, GraySum;
    if a != [] {
      var n := |a| - 1;
      HashOfBlocksBits(c, a[..n], j);
      OffsetByGray(c, Zeros(128), n + 1);
      XorComm(Zeros(128), GraySum(c, 0, n + 1));
      XorZero(GraySum(c, 0, n + 1));
      assert HashInputs(c, a)[..n] == HashInputs(c, a[..n]);
    }
  }

  /** Every block of associated data, added to its Gray-code sum and enciphered. */
  function HashInputs(c: Cipher, a: seq<Block>): (t: seq<Block>)
    ensures |t| == |a|
  {
    seq(|a|, i requires 0 <= i < |a| => c.enc(Xor(a[i], GraySum(c, 0, i + 1))))
  }

  /** HASH: the enciphered blocks, and a padded short block under the last sum plus the enciphered zero block. */
  lemma HashOfData(c: Cipher, a: seq<byte>, m: nat)
    requires 16 * m <= |a| < 16 * m + 16
    ensures var rest := a[16 * m..];
            var pad := Xor(GraySum(c, 0, m), c.enc(Zeros(128)));
            Hash(c, a) == if rest == [] then HashSum(c, Split(a))
                          else Xor(HashSum(c, Split(a)), c.enc(Xor(Pad(rest), pad)))
  {
    hide Split, Tail, Offset, GraySum, Pad, HashSum, Xor;
    TailAt(a, m);
    OffsetByGray(c, Zeros(128), m);
    XorComm(Zeros(128), GraySum(c, 0, m));
    XorZero(GraySum(c, 0, m));
    LIsTimes(c, 0);
  }

  // Which sealed messages open.

  /** Every block. */
  function AllBits(n: nat): set<Bits> {
    if n == 0 then {[]}
    else (set s | s in AllBits(n - 1) :: s + [true]) + (set s | s in AllBits(n - 1) :: s + [false])
  }

  lemma {:induction false} AllBitsAre(n: nat, s: Bits)
    ensures s in AllBits(n) <==> |s| == n
  {
    if n > 0 {
      if |s| == n {
        var t := s[..n - 1];
        AllBitsAre(n - 1, t);
        assert s == if s[n - 1] then t + [true] else t + [false];
      }
      if s in AllBits(n) {
        var t :| t in AllBits(n - 1) && (s == t + [true] || s == t + [false]);
        AllBitsAre(n - 1, t);
      }
    }
  }

  ghost function Image(f: Block -> Block, a: set<Block>): set<Block> {
    set b | b in a :: f(b)
  }

  lemma {:induction false} ImageSize(f: Block -> Block, a: set<Block>)
    requires forall x, y | x in a && y in a && f(x) == f(y) :: x == y
    ensures |Image(f, a)| == |a|
    decreases a
  {
    if a != {} {
      var x :| x in a;
      ImageSize(f, a - {x});
      assert Image(f, a) == Image(f, a - {x}) + {f(x)};
      assert f(x) !in Image(f, a - {x});
    }
  }

  lemma SameSize(a: set<Block>, b: set<Block>)
    requires a <= b && |a| == |b|
    ensures a == b
  {
    assert b == a + (b - a);
    assert |b| == |a| + |b - a|;
  }

  /** What a permutation undoes one way it undoes the other way, because there are finitely many blocks. */
  lemma PermutationIsOnto(c: Cipher, b: Block)
    requires IsPermutation(c)
    ensures c.enc(c.dec(b)) == b
  {
    var all := set x: Block | x in AllBits(128);
    forall x: Block ensures x in all {
      AllBitsAre(128, x);
    }
    assert Image(c.enc, all) == all by {
      forall x, y | x in all && y in all && c.enc(x) == c.enc(y) ensures x == y {
        assert c.dec(c.enc(x)) == x && c.dec(c.enc(y)) == y;
      }
      ImageSize(c.enc, all);
      SameSize(Image(c.enc, all), all);
    }
    assert b in Image(c.enc, all);
    var x :| x in all && c.enc(x) == b;
    assert c.dec(c.enc(x)) == x;
  }

  lemma EncryptDecryptBlock(c: Cipher, offset: Block, s: Block)
    requires IsPermutation(c)
    ensures EncryptBlock(c, offset, DecryptBlock(c, offset, s)) == s
  {
    var x := Xor(s, offset);
    PermutationIsOnto(c, x);
    hide IsPermutation;
    XorComm(offset, c.dec(x));
    XorCancel(c.dec(x), offset);
    XorCancel(s, offset);
    XorComm(offset, x);
  }

  lemma EncryptDecryptBlocks(c: Cipher, start: Block, from: nat, s: seq<Block>)
    requires IsPermutation(c)
    ensures EncryptBlocks(c, start, from, DecryptBlocks(c, start, from, s)) == s
  {
    hide Offset, EncryptBlock, DecryptBlock;
    hide IsPermutation;
    forall i | 0 <= i < |s|
      ensures EncryptBlocks(c, start, from, DecryptBlocks(c, start, from, s))[i] == s[i]
    {
      EncryptDecryptBlock(c, Offset(c, start, from + i + 1), s[i]);
    }
  }

  lemma CipherPlainText(c: Cipher, start: Block, s: seq<byte>)
    requires IsPermutation(c)
    ensures CipherText(c, start, PlainText(c, start, s)) == s
  {
    hide Split, Tail, Join, EncryptBlocks, DecryptBlocks, XorTail, FinalPad;
    var p := DecryptBlocks(c, start, 0, Split(s));
    var rest := XorTail(Tail(s), FinalPad(c, start, |Split(s)|));
    ShortSplit(rest);
    SplitTailJoin(p, rest);
    assert p + [] == p;
    EncryptDecryptBlocks(c, start, 0, Split(s));
    XorTailTwice(Tail(s), FinalPad(c, start, |Split(s)|));
    JoinSplitTail(s);
  }

  /** A sealed message opens to a text if and only if it is the sealing of that text. */
  lemma OpensIff(c: Cipher, nonce: seq<byte>, a: seq<byte>, s: Sealed, p: seq<byte>)
    requires IsPermutation(c) && |nonce| == 12
    ensures Decrypt(c, nonce, a, s) == Opened(p) <==> s == Encrypt(c, nonce, a, p)
  {
    hide CipherText, PlainText, Tag, Offset0;
    if s == Encrypt(c, nonce, a, p) {
      DecryptEncrypt(c, nonce, a, p);
    }
    if Decrypt(c, nonce, a, s) == Opened(p) {
      CipherPlainText(c, Offset0(c, nonce), s.text);
    }
  }
}
