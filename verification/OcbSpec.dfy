/**
 The OCB authenticated-encryption algorithm block by block, as RFC 7253 states
 it, for a 128-bit tag and 96-bit nonces.
 */
module OcbSpec {
  import opened Bytes
  import opened Blocks

  const TAG_BITS: nat := 128

  /** The constant 10000111 in the low byte. */
  const REDUCTION: Block := Zeros(120) + [true, false, false, false, false, true, true, true]

  /** Doubling in GF(2^128), section 2 of RFC 7253. */
  function Double(s: Block): (r: Block) {
    var shifted := s[1..] + [false];
    if s[0] then Xor(shifted, REDUCTION) else shifted
  }

  /** The number of trailing zeros. */
  function Ntz(n: nat): (z: nat)
    requires n > 0
  {
    if n % 2 == 1 then 0 else 1 + Ntz(n / 2)
  }

  // Key-dependent variables, section 4.1.

  function LStar(c: Cipher): Block { c.enc(ZERO_BLOCK) }

  function LDollar(c: Cipher): Block { Double(LStar(c)) }

  function L(c: Cipher, i: nat): Block {
    if i == 0 then Double(LDollar(c)) else Double(L(c, i - 1))
  }

  /** Offset_i of a chain that starts at the given offset. */
  function Offset(c: Cipher, start: Block, i: nat): Block {
    if i == 0 then start else Xor(Offset(c, start, i - 1), L(c, Ntz(i)))
  }

  /** A short final block S padded to S || 1 || zeros. */
  function Pad(s: seq<byte>): (b: Block)
    requires |s| < 16
  {
    ToBits(s) + [true] + Zeros(127 - 8 * |s|)
  }

  // HASH, section 4.1.

  /** The sum over the whole blocks of the associated data. */
  function HashSum(c: Cipher, a: seq<Block>): Block {
    if a == [] then ZERO_BLOCK
    else
      var m := |a| - 1;
      Xor(HashSum(c, a[..m]), c.enc(Xor(a[m], Offset(c, ZERO_BLOCK, m + 1))))
  }

  /** HASH of whole blocks and a short rest. */
  function HashOf(c: Cipher, a: seq<Block>, rest: seq<byte>): Block
    requires |rest| < 16
  {
    if rest == [] then HashSum(c, a)
    else
      var offset := Xor(Offset(c, ZERO_BLOCK, |a|), LStar(c));
      Xor(HashSum(c, a), c.enc(Xor(Pad(rest), offset)))
  }

  function Hash(c: Cipher, a: seq<byte>): Block {
    HashOf(c, Split(a), Tail(a))
  }

  // Nonce-dependent and per-encryption variables, section 4.2.

  function NonceBits(nonce: seq<byte>): (b: Block)
    requires |nonce| == 12
  {
    NumToBits(TAG_BITS % 128, 7) + Zeros(120 - 96) + [true] + ToBits(nonce)
  }

  function Bottom(nonce: seq<byte>): (n: nat)
    requires |nonce| == 12
    ensures n < 64
  {
    assert Pow2(6) == 64;
    BitsToNum(NonceBits(nonce)[122..])
  }

  function Top(nonce: seq<byte>): (b: Block)
    requires |nonce| == 12
  {
    NonceBits(nonce)[..122] + Zeros(6)
  }

  function Stretch(ktop: Block): (s: Bits)
    ensures |s| == 192
  {
    ktop + Xor(ktop[..64], ktop[8..72])
  }

  function Offset0(c: Cipher, nonce: seq<byte>): (b: Block)
    requires |nonce| == 12
  {
    Stretch(c.enc(Top(nonce)))[Bottom(nonce)..Bottom(nonce) + 128]
  }

  // OCB-ENCRYPT, section 4.2.

  function Checksum(p: seq<Block>): Block {
    if p == [] then ZERO_BLOCK else Xor(Checksum(p[..|p| - 1]), p[|p| - 1])
  }

  function EncryptBlock(c: Cipher, offset: Block, p: Block): Block {
    Xor(offset, c.enc(Xor(p, offset)))
  }

  /** Encrypts blocks that follow `from` earlier blocks of the message. */
  function EncryptBlocks(c: Cipher, start: Block, from: nat, p: seq<Block>): (s: seq<Block>)
    ensures |s| == |p|
  {
    seq(|p|, i requires 0 <= i < |p| => EncryptBlock(c, Offset(c, start, from + i + 1), p[i]))
  }

  /** The pad of a final block shorter than 16 bytes that follows m whole blocks. */
  function FinalPad(c: Cipher, start: Block, m: nat): Block {
    c.enc(Xor(Offset(c, start, m), LStar(c)))
  }

  /** A short final block combined with the leading bits of the pad. */
  function XorTail(s: seq<byte>, pad: Block): (r: seq<byte>)
    requires |s| < 16
    ensures |r| == |s|
  {
    FromBits(Xor(ToBits(s), pad[..8 * |s|]))
  }

  /** The ciphertext of a piece of a message that follows `from` whole blocks. */
  function CipherPiece(c: Cipher, start: Block, from: nat, p: seq<byte>): (s: seq<byte>)
    ensures |s| == |p|
  {
    Join(EncryptBlocks(c, start, from, Split(p))) + XorTail(Tail(p), FinalPad(c, start, from + |Split(p)|))
  }

  function CipherText(c: Cipher, start: Block, p: seq<byte>): (s: seq<byte>)
    ensures |s| == |p|
  {
    CipherPiece(c, start, 0, p)
  }

  /** The tag of whole blocks and a short rest after the given start offset. */
  function TagOf(c: Cipher, start: Block, hash: Block, p: seq<Block>, rest: seq<byte>): Block
    requires |rest| < 16
  {
    var offset := Offset(c, start, |p|);
    if rest == [] then
      Xor(c.enc(Xor(Xor(Checksum(p), offset), LDollar(c))), hash)
    else
      var checksum := Xor(Checksum(p), Pad(rest));
      Xor(c.enc(Xor(Xor(checksum, Xor(offset, LStar(c))), LDollar(c))), hash)
  }

  function Tag(c: Cipher, start: Block, a: seq<byte>, p: seq<byte>): Block {
    TagOf(c, start, Hash(c, a), Split(p), Tail(p))
  }

  datatype Sealed = Sealed(text: seq<byte>, tag: Block)

  function Encrypt(c: Cipher, nonce: seq<byte>, a: seq<byte>, p: seq<byte>): Sealed
    requires |nonce| == 12
  {
    var start := Offset0(c, nonce);
    Sealed(CipherText(c, start, p), Tag(c, start, a, p))
  }

  // OCB-DECRYPT, section 4.3.

  function DecryptBlock(c: Cipher, offset: Block, s: Block): Block {
    Xor(offset, c.dec(Xor(s, offset)))
  }

  function DecryptBlocks(c: Cipher, start: Block, from: nat, s: seq<Block>): (p: seq<Block>)
    ensures |p| == |s|
  {
    seq(|s|, i requires 0 <= i < |s| => DecryptBlock(c, Offset(c, start, from + i + 1), s[i]))
  }

  /** The plaintext of a piece of a message that follows `from` whole blocks. */
  function PlainPiece(c: Cipher, start: Block, from: nat, s: seq<byte>): (p: seq<byte>)
    ensures |p| == |s|
  {
    Join(DecryptBlocks(c, start, from, Split(s))) + XorTail(Tail(s), FinalPad(c, start, from + |Split(s)|))
  }

  function PlainText(c: Cipher, start: Block, s: seq<byte>): (p: seq<byte>)
    ensures |p| == |s|
  {
    PlainPiece(c, start, 0, s)
  }

  datatype Opened = Opened(text: seq<byte>) | Invalid

  function Decrypt(c: Cipher, nonce: seq<byte>, a: seq<byte>, s: Sealed): Opened
    requires |nonce| == 12
  {
    var start := Offset0(c, nonce);
    var p := PlainText(c, start, s.text);
    if Tag(c, start, a, p) == s.tag then Opened(p) else Invalid
  }

  // Decryption undoes encryption.

  lemma XorTailTwice(s: seq<byte>, pad: Block)
    requires |s| < 16
    ensures XorTail(XorTail(s, pad), pad) == s
  {
    var key := pad[..8 * |s|];
    ToFromBits(Xor(ToBits(s), key));
    XorCancel(ToBits(s), key);
    FromToBits(s);
  }

  lemma DecryptEncryptBlock(c: Cipher, offset: Block, p: Block)
    requires IsPermutation(c)
    ensures DecryptBlock(c, offset, EncryptBlock(c, offset, p)) == p
  {
    var x := Xor(p, offset);
    XorComm(offset, c.enc(x));
    XorCancel(c.enc(x), offset);
    XorCancel(p, offset);
    XorComm(offset, x);
  }

  lemma DecryptEncryptBlocks(c: Cipher, start: Block, from: nat, p: seq<Block>)
    requires IsPermutation(c)
    ensures DecryptBlocks(c, start, from, EncryptBlocks(c, start, from, p)) == p
  {
    forall i | 0 <= i < |p|
      ensures DecryptBlocks(c, start, from, EncryptBlocks(c, start, from, p))[i] == p[i]
    {
      DecryptEncryptBlock(c, Offset(c, start, from + i + 1), p[i]);
    }
  }

  lemma ShortSplit(s: seq<byte>)
    requires |s| < 16
    ensures Split(s) == [] && Tail(s) == s
  {
  }

  lemma CipherPieceSplit(c: Cipher, start: Block, from: nat, p: seq<byte>)
    ensures var s := CipherPiece(c, start, from, p);
            && Split(s) == EncryptBlocks(c, start, from, Split(p))
            && Tail(s) == XorTail(Tail(p), FinalPad(c, start, from + |Split(p)|))
  {
    hide Split, Tail, Join, EncryptBlocks, XorTail, FinalPad;
    var sealed := EncryptBlocks(c, start, from, Split(p));
    var rest := XorTail(Tail(p), FinalPad(c, start, from + |Split(p)|));
    ShortSplit(rest);
    SplitTailJoin(sealed, rest);
    assert sealed + [] == sealed;
  }

  lemma PlainCipherPiece(c: Cipher, start: Block, from: nat, p: seq<byte>)
    requires IsPermutation(c)
    ensures PlainPiece(c, start, from, CipherPiece(c, start, from, p)) == p
  {
    hide Split, Tail, Join, EncryptBlocks, DecryptBlocks, XorTail, FinalPad, CipherPiece;
    CipherPieceSplit(c, start, from, p);
    DecryptEncryptBlocks(c, start, from, Split(p));
    XorTailTwice(Tail(p), FinalPad(c, start, from + |Split(p)|));
    JoinSplitTail(p);
  }

  /** Opening what was sealed under the same nonce and associated data gives it back. */
  lemma DecryptEncrypt(c: Cipher, nonce: seq<byte>, a: seq<byte>, p: seq<byte>)
    requires IsPermutation(c) && |nonce| == 12
    ensures Decrypt(c, nonce, a, Encrypt(c, nonce, a, p)) == Opened(p)
  {
    PlainCipherPiece(c, Offset0(c, nonce), 0, p);
  }
}
