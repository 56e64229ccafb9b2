/** The AES layer, tag comparison and key-dependent table of keymaster/ocb.c. */
module OcbKeys {
  import opened Bytes
  import opened Blocks
  import opened OcbSpec
  import opened OcbWords

  const AE_SUCCESS: int := 0
  const AE_INVALID: int := -1
  const AE_NOT_SUPPORTED: int := -2

  /** Texts and associated data stay below this many blocks. */
  const BLOCK_LIMIT: nat := 0x1_0000

  /** AES_ecb_encrypt_blks: the first n blocks, last one first. */
  method EcbEncrypt(c: Cipher, blocks: seq<Block>, n: nat) returns (r: seq<Block>)
    requires n <= |blocks|
    ensures |r| == |blocks|
    ensures forall i | 0 <= i < n :: r[i] == c.enc(blocks[i])
    ensures forall i | n <= i < |blocks| :: r[i] == blocks[i]
  {
    r := blocks;
    var k := n;
    while k != 0
      invariant 0 <= k <= n && |r| == |blocks|
      invariant forall i | 0 <= i < k || n <= i < |blocks| :: r[i] == blocks[i]
      invariant forall i | k <= i < n :: r[i] == c.enc(blocks[i])
    {
      k := k - 1;
      r := r[k := c.enc(r[k])];
    }
  }

  /** AES_ecb_decrypt_blks. */
  method EcbDecrypt(c: Cipher, blocks: seq<Block>, n: nat) returns (r: seq<Block>)
    requires n <= |blocks|
    ensures |r| == |blocks|
    ensures forall i | 0 <= i < n :: r[i] == c.dec(blocks[i])
    ensures forall i | n <= i < |blocks| :: r[i] == blocks[i]
  {
    r := blocks;
    var k := n;
    while k != 0
      invariant 0 <= k <= n && |r| == |blocks|
      invariant forall i | 0 <= i < k || n <= i < |blocks| :: r[i] == blocks[i]
      invariant forall i | k <= i < n :: r[i] == c.dec(blocks[i])
    {
      k := k - 1;
      r := r[k := c.dec(r[k])];
    }
  }

  /** constant_time_memcmp: zero exactly for equal strings. */
  method ConstantTimeCompare(a: seq<byte>, b: seq<byte>) returns (result: Bits)
    requires |a| == |b|
    ensures |result| == 8
    ensures result == Zeros(8) <==> a == b
  {
    hide ByteToBits, Xor;
    result := Zeros(8);
    for i := 0 to |a|
      invariant |result| == 8
      invariant result == Zeros(8) <==> a[..i] == b[..i]
    {
      DiffZero(a[i], b[i]);
      result := OrBits(result, Xor(ByteToBits(a[i]), ByteToBits(b[i])));
      PrefixesEqual(a, b, i);
    }
    assert a[..|a|] == a && b[..|b|] == b;
  }

  function OrBits(a: Bits, b: Bits): (r: Bits)
    requires |a| == |b|
    ensures |r| == |a|
    ensures r == Zeros(|r|) <==> a == Zeros(|a|) && b == Zeros(|b|)
  {
    var r := seq(|a|, k requires 0 <= k < |a| => a[k] || b[k]);
    assert r == Zeros(|r|) <==> forall k | 0 <= k < |a| :: !a[k] && !b[k] by {
      assert forall k | 0 <= k < |a| :: r[k] == (a[k] || b[k]);
    }
    r
  }

  lemma PrefixesEqual(a: seq<byte>, b: seq<byte>, i: nat)
    requires i < |a| == |b|
    ensures a[..i + 1] == b[..i + 1] <==> a[..i] == b[..i] && a[i] == b[i]
  {
    assert a[..i + 1] == a[..i] + [a[i]] && b[..i + 1] == b[..i] + [b[i]];
  }

  lemma DiffZero(a: byte, b: byte)
    ensures Xor(ByteToBits(a), ByteToBits(b)) == Zeros(8) <==> a == b
  {
    var d := Xor(ByteToBits(a), ByteToBits(b));
    if d == Zeros(8) {
      assert forall k | 0 <= k < 8 :: !d[k];
      assert ByteToBits(a) == ByteToBits(b);
      ByteRoundTrip(a);
      ByteRoundTrip(b);
    }
  }

  /** The part of the context that depends on the key only. */
  datatype Keyed = Keyed(cipher: Cipher, lStar: Block, lDollar: Block, lTable: seq<Block>) {
    ghost predicate Ok() {
      && lStar == LStar(cipher) && lDollar == LDollar(cipher)
      && |lTable| == L_TABLE_SZ
      && forall i {:trigger lTable[i]} | 0 <= i < L_TABLE_SZ :: lTable[i] == L(cipher, i)
    }
  }

  /** One doubling of a value held in two words. */
  method DoubleInPlace(l: Word, r: Word) returns (l': Word, r': Word, b: Block)
    ensures b == l' + r' && b == Double(l + r)
  {
    DoubleWordsDoubles(l, r);
    var d := DoubleWords(l, r);
    l', r' := d.0, d.1;
    b := Cat(l', r');
  }

  /** The table of doublings of L_$. */
  method FillTable(c: Cipher, l0: Word, r0: Word) returns (lTable: seq<Block>)
    requires l0 + r0 == LDollar(c)
    ensures |lTable| == L_TABLE_SZ
    ensures forall i {:trigger lTable[i]} | 0 <= i < L_TABLE_SZ :: lTable[i] == L(c, i)
  {
    hide Double, LDollar;
    var l: Word, r: Word, b: Block := DoubleInPlace(l0, r0);
    lTable := [b];
    var i := 1;
    while i < L_TABLE_SZ
      invariant 1 <= i <= L_TABLE_SZ
      invariant |lTable| == i && b == l + r == L(c, i - 1)
      invariant forall j {:trigger lTable[j]} | 0 <= j < i :: lTable[j] == L(c, j)
    {
      l, r, b := DoubleInPlace(l, r);
      lTable := lTable + [b];
      i := i + 1;
    }
  }

  /** The key-dependent values ae_init computes. */
  method ComputeKeyed(c: Cipher) returns (k: Keyed)
    ensures k.cipher == c && k.Ok()
  {
    hide Double, L;
    var lStar := c.enc(ZERO_BLOCK);
    var l: Word, r: Word, lDollar: Block := DoubleInPlace(lStar[..64], lStar[64..]);
    assert lStar[..64] + lStar[64..] == lStar;
    var lTable := FillTable(c, l, r);
    k := Keyed(c, lStar, lDollar, lTable);
  }
}
