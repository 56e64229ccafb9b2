/**
 Bytes, bit strings and the fixed-width little-endian integers that keymaster
 writes into its buffers (keymaster/include/keymaster/serializable.h).
 */
module Bytes {

  type byte = x: int | 0 <= x < 256

  /** A bit string, most significant bit first, as RFC 7253 writes them. */
  type Bits = seq<bool>

  /** 2 to the power n. */
  function Pow2(n: nat): (p: nat)
    ensures p > 0
  {
    if n == 0 then 1 else 2 * Pow2(n - 1)
  }

  /** The n-bit binary representation of x modulo 2^n. */
  function NumToBits(x: nat, n: nat): (s: Bits)
    ensures |s| == n
    decreases n
  {
    if n == 0 then [] else NumToBits(x / 2, n - 1) + [x % 2 == 1]
  }

  /** The number a bit string denotes. */
  function BitsToNum(s: Bits): (x: nat)
    ensures x < Pow2(|s|)
  {
    if s == [] then 0
    else 2 * BitsToNum(s[..|s| - 1]) + if s[|s| - 1] then 1 else 0
  }

  lemma {:induction false} NumRoundTrip(x: nat, n: nat)
    requires x < Pow2(n)
    ensures BitsToNum(NumToBits(x, n)) == x
    decreases n
  {
    if n > 0 {
      NumRoundTrip(x / 2, n - 1);
      var s := NumToBits(x, n);
      assert s[..n - 1] == NumToBits(x / 2, n - 1);
    }
  }

  lemma {:induction false} BitsRoundTrip(s: Bits)
    ensures NumToBits(BitsToNum(s), |s|) == s
  {
    if s != [] {
      BitsRoundTrip(s[..|s| - 1]);
      assert s == s[..|s| - 1] + [s[|s| - 1]];
    }
  }

  function ByteToBits(b: byte): (s: Bits)
    ensures |s| == 8
  {
    NumToBits(b, 8)
  }

  function BitsToByte(s: Bits): (b: byte)
    requires |s| == 8
  {
    assert Pow2(8) == 256;
    BitsToNum(s)
  }

  lemma ByteRoundTrip(b: byte)
    ensures BitsToByte(ByteToBits(b)) == b
  {
    assert Pow2(8) == 256;
    NumRoundTrip(b, 8);
  }

  function ToBits(s: seq<byte>): (t: Bits)
    ensures |t| == 8 * |s|
  {
    if s == [] then [] else ByteToBits(s[0]) + ToBits(s[1..])
  }

  function FromBits(t: Bits): (s: seq<byte>)
    requires |t| % 8 == 0
    ensures |t| == 8 * |s|
  {
    if t == [] then [] else [BitsToByte(t[..8])] + FromBits(t[8..])
  }

  lemma {:induction false} FromToBits(s: seq<byte>)
    ensures FromBits(ToBits(s)) == s
  {
    if s != [] {
      ByteRoundTrip(s[0]);
      var t := ToBits(s);
      assert t[..8] == ByteToBits(s[0]);
      assert t[8..] == ToBits(s[1..]);
      FromToBits(s[1..]);
    }
  }

  lemma FromBitsCons(t: Bits)
    requires |t| % 8 == 0 && t != []
    ensures |t| >= 8 && |t[8..]| % 8 == 0
    ensures FromBits(t) == [BitsToByte(t[..8])] + FromBits(t[8..])
  {
  }

  lemma ToBitsCons(b: byte, s: seq<byte>)
    ensures ToBits([b] + s) == ByteToBits(b) + ToBits(s)
  {
    assert ([b] + s)[1..] == s;
  }

  lemma {:induction false} ToFromBits(t: Bits)
    requires |t| % 8 == 0
    ensures ToBits(FromBits(t)) == t
  {
    if t != [] {
      FromBitsCons(t);
      hide ToBits, FromBits;
      ToFromBits(t[8..]);
      BitsRoundTrip(t[..8]);
      ToBitsCons(BitsToByte(t[..8]), FromBits(t[8..]));
      assert t == t[..8] + t[8..];
    }
  }

  lemma {:induction false} ToBitsConcat(a: seq<byte>, b: seq<byte>)
    ensures ToBits(a + b) == ToBits(a) + ToBits(b)
  {
    if a == [] {
      assert a + b == b;
    } else {
      assert (a + b)[1..] == a[1..] + b;
      ToBitsConcat(a[1..], b);
    }
  }

  lemma {:induction false} FromBitsConcat(a: Bits, b: Bits)
    requires |a| % 8 == 0 && |b| % 8 == 0
    ensures FromBits(a + b) == FromBits(a) + FromBits(b)
  {
    ToFromBits(a);
    ToFromBits(b);
    ToBitsConcat(FromBits(a), FromBits(b));
    FromToBits(FromBits(a) + FromBits(b));
  }
}
