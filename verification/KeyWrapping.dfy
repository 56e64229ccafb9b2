/**
 Wrapping keys with OCB under a key derived from the authorization sets
 (keymaster/ocb_utils.cpp) and the blob parser of auth_encrypted_key_blob.cpp.
 */
module KeyWrapping {
  import opened Wrappers
  import opened Bytes
  import opened Blocks
  import opened Codec
  import opened AuthData
  import opened AuthorizationSets
  import opened ByteBuffer
  import opened BlobFormats
  import OcbSpec
  import OcbKeys
  import Ocb
  import OcbText
  import OcbTheorems

  datatype KmError = KM_OK | KM_INVALID_ARGUMENT | KM_INVALID_KEY_BLOB | KM_UNKNOWN_ERROR | KM_KEY_REQUIRES_UPGRADE

  /** The foreign primitives: AES by key, SHA-256 and HMAC-SHA-256. */
  datatype Crypto = Crypto(aes: seq<byte> -> Cipher,
                           sha256: seq<byte> -> seq<byte>,
                           hmac: (seq<byte>, seq<byte>) -> seq<byte>)

  ghost predicate CryptoOk(x: Crypto) {
    && (forall k :: IsPermutation(x.aes(k)))
    && (forall d :: |x.sha256(d)| == 32)
    && (forall k, d :: |x.hmac(k, d)| == 32)
  }

  /** The all-zero key that wraps software key blobs. */
  const MASTER_KEY: seq<byte> := [0, 0, 0, 0, 0, 0, 0, 0, 0, 0, 0, 0, 0, 0, 0, 0]

  /** The bytes BuildDerivationData collects. */
  function DerivationData(hw: Rep, sw: Rep, hidden: Rep): seq<byte>
    requires RepOk(hw) && RepOk(sw) && RepOk(hidden)
  {
    Encode(hidden) + Encode(hw) + Encode(sw)
  }

  /** The key InitializeKeyWrappingContext derives: half of the hash, enciphered under the master key. */
  function DerivedKey(x: Crypto, master: seq<byte>, hw: Rep, sw: Rep, hidden: Rep): (key: seq<byte>)
    requires RepOk(hw) && RepOk(sw) && RepOk(hidden)
    requires |x.sha256(DerivationData(hw, sw, hidden))| == 32
    ensures |key| == 16
  {
    var hash := x.sha256(DerivationData(hw, sw, hidden));
    StoreBlock(x.aes(master).enc(LoadBlock(hash[..16])))
  }

  /** The cipher InitializeKeyWrappingContext sets up. */
  function WrappingCipher(x: Crypto, master: seq<byte>, hw: Rep, sw: Rep, hidden: Rep): Cipher
    requires RepOk(hw) && RepOk(sw) && RepOk(hidden)
    requires |x.sha256(DerivationData(hw, sw, hidden))| == 32
  {
    x.aes(DerivedKey(x, master, hw, sw, hidden))
  }

  /** BuildDerivationData: three serialized sets, one behind the other. */
  method BuildDerivationData(hw: AuthorizationSet, sw: AuthorizationSet, hidden: AuthorizationSet)
    returns (data: array<byte>)
    requires hw.Valid() && sw.Valid() && hidden.Valid()
    ensures fresh(data) && data[..] == Encode(hidden.Rep()) + Encode(hw.Rep()) + Encode(sw.Rep())
  {
    hide Encode, AuthorizationSet.Rep;
    ghost var s, t, u := Encode(hidden.Rep()), Encode(hw.Rep()), Encode(sw.Rep());
    hide AuthorizationSet.Valid, SerializedSize;
    var n1 := hidden.SizeOf();
    var n2 := hw.SizeOf();
    var n3 := sw.SizeOf();
    data := new byte[n1 + n2 + n3];
    SerializeThree(hidden, hw, sw, data, s, t, u);
  }

  /** Three serialized sets that fill a buffer. */
  method SerializeThree(a: AuthorizationSet, b: AuthorizationSet, c: AuthorizationSet, data: array<byte>,
                        ghost s: seq<byte>, ghost t: seq<byte>, ghost u: seq<byte>)
    requires a.Valid() && b.Valid() && c.Valid() && s == Encode(a.Rep()) && t == Encode(b.Rep()) && u == Encode(c.Rep())
    requires data !in {a.indirect, b.indirect, c.indirect} && data.Length == |s| + |t| + |u|
    modifies data
    ensures data[..] == s + t + u
  {
    hide Encode, AuthorizationSet.Rep, AuthorizationSet.Valid, Placed;
    ghost var b0 := data[..];
    var pos := SerializeAt(a, data, 0, s);
    ghost var b1 := data[..];
    pos := SerializeAt(b, data, pos, t);
    ghost var b2 := data[..];
    pos := SerializeAt(c, data, pos, u);
    ThreePlaced(b0, b1, b2, data[..], s, t, u);
  }

  /** One serialized set, where there is room for it. */
  method SerializeAt(a: AuthorizationSet, buf: array<byte>, pos: nat, ghost s: seq<byte>) returns (next: nat)
    requires a.Valid() && s == Encode(a.Rep()) && buf != a.indirect && pos + |s| <= buf.Length
    modifies buf
    ensures next == pos + |s| && Placed(old(buf[..]), buf[..], pos, s)
  {
    hide Encode, AuthorizationSet.Rep, Placed, Framed, SerializedSize;
    next := a.Serialize(buf, pos, buf.Length);
  }

  lemma ThreePlaced(b0: seq<byte>, b1: seq<byte>, b2: seq<byte>, b3: seq<byte>, s: seq<byte>, t: seq<byte>,
                    u: seq<byte>)
    requires Placed(b0, b1, 0, s) && Placed(b1, b2, |s|, t) && Placed(b2, b3, |s| + |t|, u)
    requires |b0| == |s| + |t| + |u|
    ensures b3 == s + t + u
  {
    PlacedTwice(b0, b1, b2, 0, s, t);
    PlacedTwice(b0, b2, b3, 0, s + t, u);
  }

  /** InitializeKeyWrappingContext. */
  method WrappingContext(x: Crypto, hw: AuthorizationSet, sw: AuthorizationSet, hidden: AuthorizationSet,
                         master: seq<byte>)
    returns (ctx: Ocb.AeCtx)
    requires CryptoOk(x) && hw.Valid() && sw.Valid() && hidden.Valid()
    ensures fresh(ctx) && ctx.Ready()
    ensures ctx.key.cipher == WrappingCipher(x, master, hw.Rep(), sw.Rep(), hidden.Rep())
    ensures ctx.lastAd == [] && ctx.adChecksum == OcbSpec.Hash(ctx.key.cipher, [])
  {
    hide Encode, LoadBlock, StoreBlock, OcbSpec.Hash, OcbKeys.Keyed.Ok, AuthorizationSet.Rep;
    var data := BuildDerivationData(hw, sw, hidden);
    var hash := x.sha256(data[..]);
    var derived := StoreBlock(x.aes(master).enc(LoadBlock(hash[..16])));
    var keyed := OcbKeys.ComputeKeyed(x.aes(derived));
    ctx := new Ocb.AeCtx.Allocate(keyed);
    var status := ctx.Init(x.aes(derived), 12);
  }

  /** OcbEncryptKey. */
  method OcbEncryptKey(x: Crypto, hw: AuthorizationSet, sw: AuthorizationSet, hidden: AuthorizationSet,
                       master: seq<byte>, plaintext: seq<byte>, nonce: seq<byte>)
    returns (error: KmError, ciphertext: seq<byte>, tag: seq<byte>)
    requires CryptoOk(x) && hw.Valid() && sw.Valid() && hidden.Valid()
    requires |plaintext| < 16 * OcbKeys.BLOCK_LIMIT
    ensures error == if |nonce| != OCB_NONCE_LENGTH then KM_INVALID_ARGUMENT else KM_OK
    ensures error == KM_OK ==>
              && |tag| == OCB_TAG_LENGTH
              && OcbSpec.Sealed(ciphertext, LoadBlock(tag)) ==
                 OcbSpec.Encrypt(WrappingCipher(x, master, hw.Rep(), sw.Rep(), hidden.Rep()), nonce, [], plaintext)
  {
    hide OcbSpec.Hash, OcbSpec.Encrypt, LoadBlock, WrappingCipher, Ocb.AeCtx.Ready, AuthorizationSet.Valid,
         AuthorizationSet.Rep;
    ciphertext, tag := [], [];
    if |nonce| != OCB_NONCE_LENGTH {
      return KM_INVALID_ARGUMENT, [], [];
    }
    var ctx := WrappingContext(x, hw, sw, hidden, master);
    ciphertext, tag := SealOnce(ctx, plaintext, nonce);
    error := KM_OK;
  }

  /** The one ae_encrypt call of OcbEncryptKey. */
  method SealOnce(ctx: Ocb.AeCtx, plaintext: seq<byte>, nonce: seq<byte>)
    returns (ciphertext: seq<byte>, tag: seq<byte>)
    requires ctx.Ready() && ctx.lastAd == [] && |nonce| == OCB_NONCE_LENGTH
    requires |plaintext| < 16 * OcbKeys.BLOCK_LIMIT
    modifies ctx
    ensures |tag| == OCB_TAG_LENGTH
    ensures OcbSpec.Sealed(ciphertext, LoadBlock(tag)) == OcbSpec.Encrypt(old(ctx.key).cipher, nonce, [], plaintext)
  {
    hide Split, Tail, Join, OcbSpec.Offset0, OcbSpec.TagOf, OcbSpec.CipherPiece, OcbSpec.Hash, OcbSpec.Encrypt,
         Ocb.AeCtx.Ready, LoadBlock, StoreBlock, Ocb.SealTag;
    var pt := new byte[|plaintext|](i requires 0 <= i < |plaintext| => plaintext[i]);
    assert pt[..|plaintext|] == plaintext;
    var ct := new byte[|plaintext|];
    var tagBuffer := new byte[16];
    var written := ctx.Encrypt(Some(nonce), pt, |plaintext|, Some([]), ct, tagBuffer, true);
    OneCall(ctx.key.cipher, nonce, plaintext);
    ciphertext, tag := ct[..|plaintext|], tagBuffer[..16];
    LoadStore(Ocb.SealTag(ctx.key.cipher, Ocb.Message(nonce, [], [], false), [], plaintext));
  }

  /** A message in one call with no associated data. */
  lemma OneCall(c: Cipher, nonce: seq<byte>, p: seq<byte>)
    requires |nonce| == 12
    ensures var m := Ocb.Message(nonce, [], [], false);
            && Ocb.FullAd(m, [], []) == []
            && OcbSpec.Sealed(Ocb.SealPiece(c, m, p), Ocb.SealTag(c, m, [], p)) == OcbSpec.Encrypt(c, nonce, [], p)
  {
    hide Split, Tail, OcbSpec.Offset0, OcbSpec.TagOf, OcbSpec.CipherPiece, OcbSpec.Hash;
    assert [] + Split(p) == Split(p);
    assert Join([]) == [];
  }

  /** OcbDecryptKey: the plaintext is returned only if the tag is right. */
  method OcbDecryptKey(x: Crypto, hw: AuthorizationSet, sw: AuthorizationSet, hidden: AuthorizationSet,
                       master: seq<byte>, ciphertext: seq<byte>, nonce: seq<byte>, tag: seq<byte>)
    returns (error: KmError, plaintext: seq<byte>)
    requires CryptoOk(x) && hw.Valid() && sw.Valid() && hidden.Valid()
    requires |ciphertext| < 16 * OcbKeys.BLOCK_LIMIT
    ensures var c := WrappingCipher(x, master, hw.Rep(), sw.Rep(), hidden.Rep());
            if |nonce| != OCB_NONCE_LENGTH || |tag| != OCB_TAG_LENGTH then
              error == KM_INVALID_ARGUMENT && plaintext == []
            else
              match OcbSpec.Decrypt(c, nonce, [], OcbSpec.Sealed(ciphertext, LoadBlock(tag)))
              case Opened(p) => error == KM_OK && plaintext == p
              case Invalid => error == KM_INVALID_KEY_BLOB && plaintext == []
  {
    hide OcbSpec.Hash, OcbSpec.Decrypt, LoadBlock, WrappingCipher, Ocb.AeCtx.Ready, AuthorizationSet.Valid,
         AuthorizationSet.Rep;
    if |nonce| != OCB_NONCE_LENGTH || |tag| != OCB_TAG_LENGTH {
      return KM_INVALID_ARGUMENT, [];
    }
    var ctx := WrappingContext(x, hw, sw, hidden, master);
    error, plaintext := OpenOnce(ctx, ciphertext, nonce, tag);
  }

  /** The one ae_decrypt call of OcbDecryptKey. */
  method OpenOnce(ctx: Ocb.AeCtx, ciphertext: seq<byte>, nonce: seq<byte>, tag: seq<byte>)
    returns (error: KmError, plaintext: seq<byte>)
    requires ctx.Ready() && ctx.lastAd == [] && |nonce| == OCB_NONCE_LENGTH && |tag| == OCB_TAG_LENGTH
    requires |ciphertext| < 16 * OcbKeys.BLOCK_LIMIT
    modifies ctx
    ensures match OcbSpec.Decrypt(old(ctx.key).cipher, nonce, [], OcbSpec.Sealed(ciphertext, LoadBlock(tag)))
            case Opened(p) => error == KM_OK && plaintext == p
            case Invalid => error == KM_INVALID_KEY_BLOB && plaintext == []
  {
    hide Split, Tail, Join, OcbSpec.Offset0, OcbSpec.TagOf, OcbSpec.PlainPiece, OcbSpec.Hash, Ocb.AeCtx.Ready,
         LoadBlock, StoreBlock, OcbSpec.DecryptBlocks, Ocb.OpenTag, Ocb.OpenPiece, OcbSpec.PlainText, OcbSpec.Tag;
    ghost var c := ctx.key.cipher;
    var ct := new byte[|ciphertext|](i requires 0 <= i < |ciphertext| => ciphertext[i]);
    assert ct[..|ciphertext|] == ciphertext;
    var tagBuffer := new byte[16](i requires 0 <= i < 16 => tag[i]);
    assert tagBuffer[..16] == tag;
    var pt := new byte[|ciphertext|];
    var result := ctx.Decrypt(Some(nonce), ct, |ciphertext|, Some([]), pt, tagBuffer, true);
    OneOpeningCall(c, nonce, ciphertext);
    StoreLoad(tag);
    LoadStore(Ocb.OpenTag(c, Ocb.Message(nonce, [], [], false), [], ciphertext));
    if result == OcbKeys.AE_INVALID {
      return KM_INVALID_KEY_BLOB, [];
    }
    return KM_OK, pt[..|ciphertext|];
  }

  lemma OneOpeningCall(c: Cipher, nonce: seq<byte>, s: seq<byte>)
    requires |nonce| == 12
    ensures var m := Ocb.Message(nonce, [], [], false);
            var start := OcbSpec.Offset0(c, nonce);
            && Ocb.FullAd(m, [], []) == []
            && Ocb.OpenPiece(c, m, s) == OcbSpec.PlainText(c, start, s)
            && Ocb.OpenTag(c, m, [], s) == OcbSpec.Tag(c, start, [], OcbSpec.PlainText(c, start, s))
  {
    hide Split, Tail, OcbSpec.Offset0, OcbSpec.TagOf, OcbSpec.PlainPiece, OcbSpec.Hash, OcbText.PlainTail,
         OcbSpec.DecryptBlocks;
    OcbTheorems.PlainSplit(c, OcbSpec.Offset0(c, nonce), 0, s);
    var p := OcbSpec.DecryptBlocks(c, OcbSpec.Offset0(c, nonce), 0, Split(s));
    assert [] + p == p;
    assert Join([]) == [];
  }

  method DeserializeSets(s: seq<byte>, hw: AuthorizationSet, sw: AuthorizationSet) returns (ok: bool)
    requires Apart(hw, sw) && hw.Valid() && sw.Valid()
    modifies hw, sw
    ensures hw.Valid() && sw.Valid()
    ensures Renewed(hw) && Renewed(sw) && Apart(hw, sw)
    ensures ok == DecodeSets(s).Got?
    ensures ok ==> hw.Rep() == DecodeSets(s).value.0 && sw.Rep() == DecodeSets(s).value.1 && hw.error == sw.error == OK
  {
    hide Decode, AuthorizationSet.Valid, AuthorizationSet.Rep;
    var rest;
    ok, rest := hw.Deserialize(s);
    if ok {
      ok, rest := sw.Deserialize(rest);
    }
  }

  /** The fixed-length nonce, the material and the fixed-length tag at the front of an unversioned blob. */
  function FrontOf(s: seq<byte>): Read<(seq<byte>, seq<byte>, seq<byte>)> {
    var nonce := GetBytes(s, OCB_NONCE_LENGTH);
    if nonce.Failed? then Failed
    else
      var material := GetData(nonce.rest);
      if material.Failed? then Failed
      else
        var tag := GetBytes(material.rest, OCB_TAG_LENGTH);
        if tag.Failed? then Failed else Got((nonce.value, material.value, tag.value), tag.rest)
  }

  /** The given bytes lie ahead of what the buffer holds. */
  ghost predicate Ahead(b: Buffer, s: seq<byte>)
    reads b, b.data
  {
    b.Valid() && b.writePos + |s| <= b.data.Length && b.data[b.writePos..b.writePos + |s|] == s
  }

  /** Room for a nonce and a tag. */
  method ReserveBoth(nonce: Buffer, tag: Buffer)
    requires nonce.Valid() && tag.Valid() && nonce != tag && nonce.data != tag.data
    modifies nonce, tag, nonce.data, tag.data
    ensures nonce.Valid() && tag.Valid() && nonce.data != tag.data
    ensures nonce.data == old(nonce.data) || fresh(nonce.data)
    ensures tag.data == old(tag.data) || fresh(tag.data)
    ensures nonce.Contents() == old(nonce.Contents()) && tag.Contents() == old(tag.Contents())
    ensures nonce.writePos + OCB_NONCE_LENGTH <= nonce.data.Length && tag.writePos + OCB_TAG_LENGTH <= tag.data.Length
  {
    nonce.Reserve(OCB_NONCE_LENGTH);
    tag.Reserve(OCB_TAG_LENGTH);
  }

  method ReadFront(s: seq<byte>, nonce: Buffer, tag: Buffer)
    returns (ok: bool, material: seq<byte>, rest: seq<byte>)
    requires nonce.Valid() && tag.Valid() && nonce != tag && nonce.data != tag.data
    modifies nonce, tag, nonce.data, tag.data
    ensures nonce.Valid() && tag.Valid() && nonce.data != tag.data
    ensures nonce.data == old(nonce.data) || fresh(nonce.data)
    ensures tag.data == old(tag.data) || fresh(tag.data)
    ensures nonce.Contents() == old(nonce.Contents()) && tag.Contents() == old(tag.Contents())
    ensures ok == FrontOf(s).Got?
    ensures ok ==> var (n, m, t) := FrontOf(s).value;
                   material == m && rest == FrontOf(s).rest && Ahead(nonce, n) && Ahead(tag, t)
  {
    hide GetData;
    ReserveBoth(nonce, tag);
    var n := GetBytes(s, OCB_NONCE_LENGTH);
    if n.Failed? {
      return false, [], s;
    }
    nonce.FillAhead(n.value);
    var m := GetData(n.rest);
    if m.Failed? {
      return false, [], s;
    }
    var t := GetBytes(m.rest, OCB_TAG_LENGTH);
    if t.Failed? {
      return false, m.value, s;
    }
    tag.FillAhead(t.value);
    return true, m.value, t.rest;
  }

  /** advance_write over bytes that were filled ahead. */
  method Accept(b: Buffer, ghost s: seq<byte>, n: nat)
    requires n == |s| && Ahead(b, s)
    modifies b`writePos
    ensures b.Valid() && b.Contents() == old(b.Contents()) + s
  {
    var ok := b.AdvanceWrite(n);
    assert old(b.data[..])[old(b.writePos)..old(b.writePos) + n] == s;
  }

  method AcceptBoth(nonce: Buffer, tag: Buffer, ghost n: seq<byte>, ghost t: seq<byte>)
    requires nonce != tag && |n| == OCB_NONCE_LENGTH && |t| == OCB_TAG_LENGTH && Ahead(nonce, n) && Ahead(tag, t)
    modifies nonce`writePos, tag`writePos
    ensures nonce.Valid() && tag.Valid()
    ensures nonce.Contents() == old(nonce.Contents()) + n && tag.Contents() == old(tag.Contents()) + t
  {
    Accept(nonce, n, OCB_NONCE_LENGTH);
    Accept(tag, t, OCB_TAG_LENGTH);
  }

  /** DeserializeUnversionedBlob: appends a raw nonce and tag to the given buffers. */
  method DeserializeUnversionedBlob(s: seq<byte>, hw: AuthorizationSet, sw: AuthorizationSet, nonce: Buffer,
                                    tag: Buffer)
    returns (error: KmError, material: seq<byte>)
    requires hw.Valid() && sw.Valid() && nonce.Valid() && tag.Valid()
    requires Apart(hw, sw) && nonce != tag && nonce.data != tag.data
    requires {hw.indirect, sw.indirect} !! {nonce.data, tag.data}
    modifies hw, sw, nonce, tag, nonce.data, tag.data
    ensures hw.Valid() && sw.Valid() && nonce.Valid() && tag.Valid() && Renewed(hw) && Renewed(sw) && Apart(hw, sw)
    ensures match ParseUnversioned(s)
            case Failed => error == KM_INVALID_KEY_BLOB
            case Got(f, _) =>
              && error == KM_OK && material == f.material && hw.Rep() == f.hw && sw.Rep() == f.sw
              && hw.error == sw.error == OK
              && nonce.Contents() == old(nonce.Contents()) + f.nonce
              && tag.Contents() == old(tag.Contents()) + f.tag
  {
    hide GetData, Decode, AuthorizationSet.Valid, AuthorizationSet.Rep;
    var ok, m, rest := ReadFront(s, nonce, tag);
    if !ok {
      return KM_INVALID_KEY_BLOB, [];
    }
    ok := DeserializeSets(rest, hw, sw);
    if !ok {
      return KM_INVALID_KEY_BLOB, m;
    }
    ghost var front := FrontOf(s).value;
    AcceptBoth(nonce, tag, front.0, front.2);
    return KM_OK, m;
  }

  /** What the versioned attempt of DeserializeAuthEncryptedBlob reads before the sets. */
  method ReadVersionedFront(s: seq<byte>, nonce: Buffer, tag: Buffer)
    returns (ok: bool, material: seq<byte>, rest: seq<byte>)
    requires s != [] && nonce.Valid() && tag.Valid() && nonce != tag && nonce.data != tag.data
    modifies nonce, tag
    ensures nonce.Valid() && tag.Valid() && nonce.data != tag.data
    ensures nonce.data == old(nonce.data) || fresh(nonce.data)
    ensures tag.data == old(tag.data) || fresh(tag.data)
    ensures var a := ParseVersioned(s, old(nonce.Contents()), old(tag.Contents()));
            && (!ok ==> a == Left(nonce.Contents(), tag.Contents()))
            && (ok && DecodeSets(rest).Failed? ==> a == Left(nonce.Contents(), tag.Contents()))
            && (ok && DecodeSets(rest).Got? ==>
                  var (hw, sw) := DecodeSets(rest).value;
                  a == Parsed(Fields(nonce.Contents(), material, tag.Contents(), hw, sw)))
  {
    hide GetData, DecodeSets;
    material, rest := [], s[1..];
    if s[0] != CURRENT_BLOB_VERSION {
      return false, material, rest;
    }
    ok, rest := nonce.Deserialize(s[1..]);
    if !ok || nonce.writePos - nonce.readPos != OCB_NONCE_LENGTH {
      return false, material, rest;
    }
    var m := GetData(rest);
    if m.Failed? {
      return false, material, rest;
    }
    material := m.value;
    ok, rest := tag.Deserialize(m.rest);
    if !ok || tag.writePos - tag.readPos != OCB_TAG_LENGTH {
      return false, material, rest;
    }
  }

  /** DeserializeAuthEncryptedBlob. */
  method DeserializeAuthEncryptedBlob(s: seq<byte>, hw: AuthorizationSet, sw: AuthorizationSet, nonce: Buffer,
                                      tag: Buffer)
    returns (error: KmError, material: seq<byte>)
    requires hw.Valid() && sw.Valid() && nonce.Valid() && tag.Valid()
    requires Apart(hw, sw) && nonce != tag && nonce.data != tag.data
    requires {hw.indirect, sw.indirect} !! {nonce.data, tag.data}
    modifies hw, sw, nonce, tag, nonce.data, tag.data
    ensures hw.Valid() && sw.Valid() && nonce.Valid() && tag.Valid() && Renewed(hw) && Renewed(sw) && Apart(hw, sw)
    ensures match Parse(s, old(nonce.Contents()), old(tag.Contents()))
            case Failed => error == KM_INVALID_KEY_BLOB
            case Got(f, _) =>
              && error == KM_OK && material == f.material && hw.Rep() == f.hw && sw.Rep() == f.sw
              && hw.error == sw.error == OK
              && nonce.Contents() == f.nonce && tag.Contents() == f.tag
  {
    hide DecodeSets, ParseVersioned, ParseUnversioned, AuthorizationSet.Valid, AuthorizationSet.Rep;
    if s == [] {
      return KM_INVALID_KEY_BLOB, [];
    }
    var ok, rest;
    ok, material, rest := ReadVersionedFront(s, nonce, tag);
    if ok {
      ok := DeserializeSets(rest, hw, sw);
    }
    if !ok {
      error, material := DeserializeUnversionedBlob(s, hw, sw, nonce, tag);
      return;
    }
    return KM_OK, material;
  }
}
