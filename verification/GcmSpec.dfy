/**
 AES-GCM as the cryptographic library provides it: a position-wise cipher and a
 16-byte authenticator over the associated data, padded to whole blocks, and the
 ciphertext.
 */
module GcmSpec {
  import opened Bytes

  const AES_BLOCK_SIZE: nat := 16

  datatype Gcm = Gcm(enc: (nat, byte) -> byte, dec: (nat, byte) -> byte, mac: (seq<byte>, nat, seq<byte>) -> seq<byte>)

  ghost predicate GcmOk(g: Gcm) {
    && (forall i: nat, b: byte :: g.dec(i, g.enc(i, b)) == b)
    && (forall a, n, t :: |g.mac(a, n, t)| == AES_BLOCK_SIZE)
  }

  /** Each byte is treated according to its position in the stream. */
  function Crypt(f: (nat, byte) -> byte, at: nat, s: seq<byte>): (r: seq<byte>)
    ensures |r| == |s| && forall i | 0 <= i < |s| :: r[i] == f(at + i, s[i])
  {
    seq(|s|, i requires 0 <= i < |s| => f(at + i, s[i]))
  }

  lemma CryptConcat(f: (nat, byte) -> byte, at: nat, s: seq<byte>, t: seq<byte>)
    ensures Crypt(f, at, s + t) == Crypt(f, at, s) + Crypt(f, at + |s|, t)
  {
    forall i | 0 <= i < |s + t|
      ensures Crypt(f, at, s + t)[i] == (Crypt(f, at, s) + Crypt(f, at + |s|, t))[i]
    {
      if i >= |s| {
        assert at + i == at + |s| + (i - |s|);
      }
    }
  }

  predicate Whole(s: seq<byte>) {
    |s| % AES_BLOCK_SIZE == 0
  }

  /** Zero-padding to a whole number of blocks. */
  function Pad16(s: seq<byte>): (r: seq<byte>)
    ensures Whole(s) ==> r == s
    ensures |r| % 16 == 0 && |s| <= |r| < |s| + 16 && r[..|s|] == s && forall i | |s| <= i < |r| :: r[i] == 0
  {
    s + seq((AES_BLOCK_SIZE - |s| % AES_BLOCK_SIZE) % AES_BLOCK_SIZE, _ => 0)
  }

  lemma PadWhole(s: seq<byte>, t: seq<byte>)
    requires Whole(s)
    ensures Pad16(s + t) == s + Pad16(t)
  {
    assert |s + t| % AES_BLOCK_SIZE == |t| % AES_BLOCK_SIZE;
  }

  /** One-shot encryption: the ciphertext and the first bytes of the authenticator. */
  function Seal(g: Gcm, tagLength: nat, aad: seq<byte>, p: seq<byte>): seq<byte>
    requires tagLength <= AES_BLOCK_SIZE <= |g.mac(Pad16(aad), |aad|, Crypt(g.enc, 0, p))|
  {
    var c := Crypt(g.enc, 0, p);
    c + g.mac(Pad16(aad), |aad|, c)[..tagLength]
  }

  datatype Opened = Opened(text: seq<byte>) | Forged | TooShort

  /** One-shot decryption of a ciphertext that ends in its tag. */
  ghost function Open(g: Gcm, tagLength: nat, aad: seq<byte>, s: seq<byte>): Opened
    requires GcmOk(g) && tagLength <= AES_BLOCK_SIZE
  {
    var n := |s| - tagLength;
    if n < 0 then TooShort
    else if g.mac(Pad16(aad), |aad|, s[..n])[..tagLength] != s[n..] then Forged
    else Opened(Crypt(g.dec, 0, s[..n]))
  }

  lemma OpenSeal(g: Gcm, tagLength: nat, aad: seq<byte>, p: seq<byte>)
    requires GcmOk(g) && tagLength <= AES_BLOCK_SIZE
    ensures Open(g, tagLength, aad, Seal(g, tagLength, aad, p)) == Opened(p)
  {
    var c := Crypt(g.enc, 0, p);
    var s := Seal(g, tagLength, aad, p);
    assert s[..|p|] == c && s[|p|..] == g.mac(Pad16(aad), |aad|, c)[..tagLength];
    assert Crypt(g.dec, 0, c) == p;
  }

  /** A ciphertext opens if and only if it is long enough and ends in the authenticator over the rest. */
  lemma OpenedIff(g: Gcm, tagLength: nat, aad: seq<byte>, s: seq<byte>)
    requires GcmOk(g) && tagLength <= AES_BLOCK_SIZE
    ensures var n := |s| - tagLength;
            && (Open(g, tagLength, aad, s) == TooShort <==> n < 0)
            && (Open(g, tagLength, aad, s).Opened? <==>
                n >= 0 && s[n..] == g.mac(Pad16(aad), |aad|, s[..n])[..tagLength])
            && (Open(g, tagLength, aad, s).Opened? ==>
                  && |Open(g, tagLength, aad, s).text| == n
                  && forall i | 0 <= i < n :: Open(g, tagLength, aad, s).text[i] == g.dec(i, s[i]))
  {
  }

  /** Behind the ciphertext of a text only one tag opens: the one that sealing puts there. */
  lemma OnlyOneTag(g: Gcm, tagLength: nat, aad: seq<byte>, p: seq<byte>, tag: seq<byte>)
    requires GcmOk(g) && tagLength <= AES_BLOCK_SIZE && |tag| == tagLength
    ensures var c := Seal(g, tagLength, aad, p)[..|p|];
            && Open(g, tagLength, aad, c + tag).Opened? <==> c + tag == Seal(g, tagLength, aad, p)
  {
    var c := Crypt(g.enc, 0, p);
    assert Seal(g, tagLength, aad, p)[..|p|] == c;
    var s := c + tag;
    assert s[..|p|] == c && s[|p|..] == tag;
    assert Seal(g, tagLength, aad, p)[|p|..] == g.mac(Pad16(aad), |aad|, c)[..tagLength];
  }
}
