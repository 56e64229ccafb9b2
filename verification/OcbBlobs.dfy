/**
 OCB-encrypted key blobs from end to end: serializing them, parsing them back
 (ParseOcbAuthEncryptedBlob of keymaster/soft_keymaster_context.cpp), and that the
 one undoes the other.
 */
module OcbBlobs {
  import opened Basics
  import opened Bytes
  import opened Blocks
  import opened Codec
  import opened AuthData
  import opened AuthorizationSets
  import opened ByteBuffer
  import opened BlobFormats
  import opened KeyWrapping
  import OcbSpec

  /** Two serialized sets, one behind the other, at the end of a buffer. */
  method SerializeSets(hw: AuthorizationSet, sw: AuthorizationSet, buf: array<byte>, pos: nat) returns (next: nat)
    requires hw.Valid() && sw.Valid() && buf != hw.indirect && buf != sw.indirect
    requires pos + |Encode(hw.Rep())| + |Encode(sw.Rep())| <= buf.Length
    modifies buf
    ensures next == pos + |Encode(hw.Rep())| + |Encode(sw.Rep())|
    ensures Placed(old(buf[..]), buf[..], pos, Encode(hw.Rep()) + Encode(sw.Rep()))
  {
    hide Encode, AuthorizationSet.Rep, Placed;
    ghost var b0 := buf[..];
    next := hw.Serialize(buf, pos, buf.Length);
    ghost var b1 := buf[..];
    next := sw.Serialize(buf, next, buf.Length);
    PlacedTwice(b0, b1, buf[..], pos, Encode(hw.Rep()), Encode(sw.Rep()));
  }

  /** The version byte and the three strings at the front of a versioned blob. */
  method SerializeStrings(nonce: seq<byte>, material: seq<byte>, tag: seq<byte>, buf: array<byte>) returns (next: nat)
    requires 1 + |PutData(nonce)| + |PutData(material)| + |PutData(tag)| <= buf.Length
    modifies buf
    ensures next == 1 + |PutData(nonce)| + |PutData(material)| + |PutData(tag)|
    ensures Placed(old(buf[..]), buf[..], 0, [CURRENT_BLOB_VERSION] + PutData(nonce) + PutData(material) + PutData(tag))
  {
    hide PutData, Placed;
    ghost var b0 := buf[..];
    ghost var s := [CURRENT_BLOB_VERSION];
    next := Append(buf, 0, buf.Length, [CURRENT_BLOB_VERSION]);
    next := AppendString(buf, next, nonce, b0, s);
    s := s + PutData(nonce);
    next := AppendString(buf, next, material, b0, s);
    next := AppendString(buf, next, tag, b0, s + PutData(material));
  }

  /** One more string behind what is already at the front of a buffer. */
  method AppendString(buf: array<byte>, pos: nat, data: seq<byte>, ghost b0: seq<byte>, ghost s: seq<byte>)
    returns (next: nat)
    requires pos == |s| && pos + |PutData(data)| <= buf.Length && Placed(b0, buf[..], 0, s)
    modifies buf
    ensures next == pos + |PutData(data)| && Placed(b0, buf[..], 0, s + PutData(data))
  {
    hide PutData, Placed;
    ghost var b1 := buf[..];
    next := Append(buf, pos, buf.Length, PutData(data));
    PlacedTwice(b0, b1, buf[..], 0, s, PutData(data));
  }

  lemma WholeBuffer(b0: seq<byte>, b1: seq<byte>, b2: seq<byte>, s: seq<byte>, t: seq<byte>)
    requires |b0| == |s| + |t| && Placed(b0, b1, 0, s) && Placed(b1, b2, |s|, t)
    ensures b2 == s + t
  {
    PlacedTwice(b0, b1, b2, 0, s, t);
  }

  /** SerializeAuthEncryptedBlob: the whole buffer is filled. */
  method SerializeAuthEncryptedBlob(material: seq<byte>, hw: AuthorizationSet, sw: AuthorizationSet,
                                    nonce: seq<byte>, tag: seq<byte>)
    returns (error: KmError, blob: array<byte>)
    requires hw.Valid() && sw.Valid()
    ensures error == KM_OK && fresh(blob)
    ensures blob[..] == EncodeVersioned(Fields(nonce, material, tag, hw.Rep(), sw.Rep()))
  {
    hide PutData, Encode, AuthorizationSet.Rep, Placed;
    var n1 := hw.SizeOf();
    var n2 := sw.SizeOf();
    blob := new byte[1 + (4 + |nonce|) + (4 + |material|) + (4 + |tag|) + n1 + n2];
    ghost var b0 := blob[..];
    var next := SerializeStrings(nonce, material, tag, blob);
    ghost var b1 := blob[..];
    next := SerializeSets(hw, sw, blob, next);
    ghost var front := [CURRENT_BLOB_VERSION] + PutData(nonce) + PutData(material) + PutData(tag);
    WholeBuffer(b0, b1, blob[..], front, Encode(hw.Rep()) + Encode(sw.Rep()));
    assert front + (Encode(hw.Rep()) + Encode(sw.Rep())) == front + Encode(hw.Rep()) + Encode(sw.Rep());
    if next != blob.Length {
      return KM_UNKNOWN_ERROR, blob;
    }
    return KM_OK, blob;
  }

  datatype Unwrapped = Unwrapped(material: seq<byte>, hw: Rep, sw: Rep) | Refused

  /** What ParseOcbAuthEncryptedBlob makes of a blob. */
  ghost function ParseOcb(x: Crypto, s: seq<byte>, hidden: Rep): Unwrapped
    requires RepOk(hidden) && CryptoOk(x)
  {
    match Parse(s, [], [])
    case Failed => Refused
    case Got(f, _) =>
      ParsedSound(s, [], []);
      if |f.nonce| != OCB_NONCE_LENGTH || |f.tag| != OCB_TAG_LENGTH then Refused
      else
        match OcbSpec.Decrypt(WrappingCipher(x, MASTER_KEY, f.hw, f.sw, hidden), f.nonce, [],
                              OcbSpec.Sealed(f.material, LoadBlock(f.tag)))
        case Opened(p) => Unwrapped(p, f.hw, f.sw)
        case Invalid => Refused
  }

  /** The key material a blob holds is no longer than the OCB code supports. */
  predicate InLimits(s: seq<byte>) {
    var f := Parse(s, [], []);
    f.Got? ==> |f.value.material| < 16 * OcbKeys.BLOCK_LIMIT
  }

  /** ParseOcbAuthEncryptedBlob. */
  method ParseOcbAuthEncryptedBlob(x: Crypto, s: seq<byte>, hidden: AuthorizationSet, hw: AuthorizationSet,
                                   sw: AuthorizationSet)
    returns (error: KmError, material: seq<byte>)
    requires CryptoOk(x) && hidden.Valid() && hw.Valid() && sw.Valid()
    requires Apart(hw, sw) && hidden != hw && hidden != sw
    requires InLimits(s)
    modifies hw, sw
    ensures hw.Valid() && sw.Valid() && hidden.Valid() && Renewed(hw) && Renewed(sw) && Apart(hw, sw)
    ensures match ParseOcb(x, s, hidden.Rep())
            case Unwrapped(p, h, w) =>
              error == KM_OK && material == p && hw.Rep() == h && sw.Rep() == w && hw.error == sw.error == OK
            case Refused => error == KM_INVALID_KEY_BLOB
  {
    hide Parse, CryptoOk, WrappingCipher, OcbSpec.Decrypt, LoadBlock, AuthorizationSet.Valid, AuthorizationSet.Rep;
    var nonce := new Buffer();
    var tag := new Buffer();
    var encrypted;
    error, encrypted := DeserializeAuthEncryptedBlob(s, hw, sw, nonce, tag);
    if error != KM_OK {
      return error, [];
    }
    if nonce.writePos - nonce.readPos != OCB_NONCE_LENGTH || tag.writePos - tag.readPos != OCB_TAG_LENGTH {
      return KM_INVALID_KEY_BLOB, [];
    }
    error, material := OcbDecryptKey(x, hw, sw, hidden, MASTER_KEY, encrypted, nonce.Contents(), tag.Contents());
  }

  /** The fields of the blob that wraps a key. */
  ghost function Wrapped(x: Crypto, p: seq<byte>, hw: Rep, sw: Rep, hidden: Rep, nonce: seq<byte>): Fields
    requires CryptoOk(x) && RepOk(hw) && RepOk(sw) && RepOk(hidden) && |nonce| == OCB_NONCE_LENGTH
  {
    var s := OcbSpec.Encrypt(WrappingCipher(x, MASTER_KEY, hw, sw, hidden), nonce, [], p);
    Fields(nonce, s.text, StoreBlock(s.tag), hw, sw)
  }

  /** A wrapped key comes back from the blob with its authorization sets. */
  lemma WrapParse(x: Crypto, p: seq<byte>, hw: Rep, sw: Rep, hidden: Rep, nonce: seq<byte>)
    requires CryptoOk(x) && RepOk(hw) && RepOk(sw) && RepOk(hidden) && |nonce| == OCB_NONCE_LENGTH
    requires Serializable(hw) && Serializable(sw) && |p| < U32
    ensures ParseOcb(x, EncodeVersioned(Wrapped(x, p, hw, sw, hidden, nonce)), hidden) == Unwrapped(p, hw, sw)
  {
    hide Parse, EncodeVersioned, WrappingCipher, OcbSpec.Decrypt, OcbSpec.Encrypt, LoadBlock, StoreBlock;
    WrappedOpens(x, p, hw, sw, hidden, nonce);
    VersionedRoundTrip(Wrapped(x, p, hw, sw, hidden, nonce), [], []);
  }

  lemma WrappedOpens(x: Crypto, p: seq<byte>, hw: Rep, sw: Rep, hidden: Rep, nonce: seq<byte>)
    requires CryptoOk(x) && RepOk(hw) && RepOk(sw) && RepOk(hidden) && |nonce| == OCB_NONCE_LENGTH
    ensures var f := Wrapped(x, p, hw, sw, hidden, nonce);
            && |f.tag| == OCB_TAG_LENGTH && |f.material| == |p|
            && OcbSpec.Decrypt(WrappingCipher(x, MASTER_KEY, hw, sw, hidden), nonce, [],
                               OcbSpec.Sealed(f.material, LoadBlock(f.tag))) == OcbSpec.Opened(p)
  {
    hide OcbSpec.Decrypt, LoadBlock, StoreBlock;
    var c := WrappingCipher(x, MASTER_KEY, hw, sw, hidden);
    OcbSpec.DecryptEncrypt(c, nonce, [], p);
    LoadStore(OcbSpec.Encrypt(c, nonce, [], p).tag);
  }

  lemma OpenedLength(c: Cipher, nonce: seq<byte>, text: seq<byte>, tag: seq<byte>)
    requires |nonce| == OCB_NONCE_LENGTH && |tag| == OCB_TAG_LENGTH
    ensures var r := OcbSpec.Decrypt(c, nonce, [], OcbSpec.Sealed(text, LoadBlock(tag)));
            r.Opened? ==> |r.text| == |text|
  {
    hide LoadBlock, OcbSpec.Offset0, OcbSpec.Tag;
  }

  /** An unversioned blob is shorter than a versioned one with fields of the same sizes. */
  lemma UnversionedSize(f: Fields)
    requires FieldsOk(f)
    ensures |EncodeUnversioned(f)| == 32 + |f.material| + SerializedSize(f.hw) + SerializedSize(f.sw)
  {
    hide PutData, Encode;
  }

  /** A blob of the older layout that parses as versioned does not yield the key and the sets it was made from. */
  lemma VersionedReadingDiffers(x: Crypto, p: seq<byte>, hw: Rep, sw: Rep, hidden: Rep, nonce: seq<byte>)
    requires CryptoOk(x) && RepOk(hw) && RepOk(sw) && RepOk(hidden) && |nonce| == OCB_NONCE_LENGTH
    requires Serializable(hw) && Serializable(sw) && |p| < U32
    requires var s := EncodeUnversioned(Wrapped(x, p, hw, sw, hidden, nonce));
             s != [] && ParseVersioned(s, [], []).Parsed?
    ensures ParseOcb(x, EncodeUnversioned(Wrapped(x, p, hw, sw, hidden, nonce)), hidden) != Unwrapped(p, hw, sw)
  {
    hide ParseVersioned, EncodeUnversioned, Wrapped, WrappingCipher, OcbSpec.Decrypt, LoadBlock, GetData,
         SerializedSize;
    var f := Wrapped(x, p, hw, sw, hidden, nonce);
    WrappedOpens(x, p, hw, sw, hidden, nonce);
    WrappedFields(x, p, hw, sw, hidden, nonce);
    var s := EncodeUnversioned(f);
    var g := ParseVersioned(s, [], []).fields;
    UnversionedSize(f);
    ParsedSize(s, [], []);
    if ParseOcb(x, s, hidden) == Unwrapped(p, hw, sw) {
      ParsedSound(s, [], []);
      OpenedLength(WrappingCipher(x, MASTER_KEY, g.hw, g.sw, hidden), g.nonce, g.material, g.tag);
    }
  }

  lemma WrappedFields(x: Crypto, p: seq<byte>, hw: Rep, sw: Rep, hidden: Rep, nonce: seq<byte>)
    requires CryptoOk(x) && RepOk(hw) && RepOk(sw) && RepOk(hidden) && |nonce| == OCB_NONCE_LENGTH
    ensures var f := Wrapped(x, p, hw, sw, hidden, nonce); f.nonce == nonce && f.hw == hw && f.sw == sw
  {
    hide WrappingCipher, OcbSpec.Encrypt;
  }

  /**
   A key wrapped in the older layout comes back if and only if its nonce is not
   mistaken for a version byte and a string.  A mistaken one is refused, unless the
   whole blob happens to parse in the versioned layout.
   */
  lemma LegacyWrapParse(x: Crypto, p: seq<byte>, hw: Rep, sw: Rep, hidden: Rep, nonce: seq<byte>)
    requires CryptoOk(x) && RepOk(hw) && RepOk(sw) && RepOk(hidden) && |nonce| == OCB_NONCE_LENGTH
    requires Serializable(hw) && Serializable(sw) && |p| < U32
    ensures var s := EncodeUnversioned(Wrapped(x, p, hw, sw, hidden, nonce));
            && (ParseOcb(x, s, hidden) == Unwrapped(p, hw, sw) <==> NotMistaken(nonce, |s|))
            && (!NotMistaken(nonce, |s|) ==>
                  s != [] && (ParseVersioned(s, [], []).Parsed? || ParseOcb(x, s, hidden) == Refused))
  {
    hide Parse, ParseVersioned, EncodeUnversioned, WrappingCipher, OcbSpec.Decrypt, OcbSpec.Encrypt, LoadBlock,
         StoreBlock, GetData;
    var f := Wrapped(x, p, hw, sw, hidden, nonce);
    WrappedOpens(x, p, hw, sw, hidden, nonce);
    UnversionedRoundTrip(f);
    var s := EncodeUnversioned(f);
    if !NotMistaken(nonce, |s|) {
      MistakenRefused(f);
      if ParseVersioned(s, [], []).Parsed? {
        VersionedReadingDiffers(x, p, hw, sw, hidden, nonce);
      }
    }
  }

  lemma SealedFields(x: Crypto, p: seq<byte>, hw: Rep, sw: Rep, hidden: Rep, nonce: seq<byte>, text: seq<byte>,
                     tag: seq<byte>)
    requires CryptoOk(x) && RepOk(hw) && RepOk(sw) && RepOk(hidden) && |nonce| == OCB_NONCE_LENGTH
             && |tag| == OCB_TAG_LENGTH
    requires OcbSpec.Sealed(text, LoadBlock(tag)) ==
             OcbSpec.Encrypt(WrappingCipher(x, MASTER_KEY, hw, sw, hidden), nonce, [], p)
    ensures Fields(nonce, text, tag, hw, sw) == Wrapped(x, p, hw, sw, hidden, nonce)
  {
    hide LoadBlock, StoreBlock, OcbSpec.Encrypt, WrappingCipher;
    StoreLoad(tag);
  }

  /** OcbEncryptKey and then SerializeAuthEncryptedBlob. */
  method Wrap(x: Crypto, hw: AuthorizationSet, sw: AuthorizationSet, hidden: AuthorizationSet, plaintext: seq<byte>,
              nonce: seq<byte>)
    returns (error: KmError, blob: array<byte>)
    requires CryptoOk(x) && hw.Valid() && sw.Valid() && hidden.Valid() && |nonce| == OCB_NONCE_LENGTH
    requires |plaintext| < 16 * OcbKeys.BLOCK_LIMIT
    ensures error == KM_OK && fresh(blob)
    ensures blob[..] == EncodeVersioned(Wrapped(x, plaintext, hw.Rep(), sw.Rep(), hidden.Rep(), nonce))
  {
    ghost var h, w, d := hw.Rep(), sw.Rep(), hidden.Rep();
    assert RepOk(h) && RepOk(w) && RepOk(d);
    hide RepOk, EncodeVersioned, Wrapped, LoadBlock, OcbSpec.Encrypt, WrappingCipher, AuthorizationSet.Valid,
         AuthorizationSet.Rep;
    var ciphertext, tag;
    error, ciphertext, tag := OcbEncryptKey(x, hw, sw, hidden, MASTER_KEY, plaintext, nonce);
    SealedFields(x, plaintext, h, w, d, nonce, ciphertext, tag);
    error, blob := SerializeAuthEncryptedBlob(ciphertext, hw, sw, nonce, tag);
  }

  /**
   The whole way: a key that is wrapped, and the resulting bytes parsed with the same
   hidden set, comes back with both of its sets.
   */
  method WrapThenParse(x: Crypto, hw: AuthorizationSet, sw: AuthorizationSet, hidden: AuthorizationSet,
                       plaintext: seq<byte>, nonce: seq<byte>)
    returns (error: KmError, material: seq<byte>, hw': AuthorizationSet, sw': AuthorizationSet)
    requires CryptoOk(x) && hw.Valid() && sw.Valid() && hidden.Valid() && |nonce| == OCB_NONCE_LENGTH
    requires Serializable(hw.Rep()) && Serializable(sw.Rep())
    requires |plaintext| < 16 * OcbKeys.BLOCK_LIMIT
    ensures hw'.Valid() && sw'.Valid()
    ensures error == KM_OK && material == plaintext && hw'.Rep() == hw.Rep() && sw'.Rep() == sw.Rep()
  {
    ghost var h, w, d := hw.Rep(), sw.Rep(), hidden.Rep();
    assert RepOk(h) && RepOk(w) && RepOk(d);
    hide RepOk, Serializable, EncodeVersioned, ParseOcb, Wrapped, OcbSpec.Decrypt, WrappingCipher, LoadBlock, InLimits,
         AuthorizationSet.Valid, AuthorizationSet.Rep;
    var blob;
    error, blob := Wrap(x, hw, sw, hidden, plaintext, nonce);
    WrapParse(x, plaintext, h, w, d, nonce);
    WrappedInLimits(x, plaintext, h, w, d, nonce);
    error, material, hw', sw' := ParseIntoNew(x, blob[..], hidden);
  }

  /** ParseOcbAuthEncryptedBlob with new sets to fill. */
  method ParseIntoNew(x: Crypto, s: seq<byte>, hidden: AuthorizationSet)
    returns (error: KmError, material: seq<byte>, hw: AuthorizationSet, sw: AuthorizationSet)
    requires CryptoOk(x) && hidden.Valid() && InLimits(s)
    ensures hw.Valid() && sw.Valid() && hidden.Valid()
    ensures match ParseOcb(x, s, hidden.Rep())
            case Unwrapped(p, h, w) => error == KM_OK && material == p && hw.Rep() == h && sw.Rep() == w
            case Refused => error == KM_INVALID_KEY_BLOB
  {
    hide CryptoOk, ParseOcb, AuthorizationSet.Valid, AuthorizationSet.Rep;
    hw := new AuthorizationSet();
    sw := new AuthorizationSet();
    error, material := ParseOcbAuthEncryptedBlob(x, s, hidden, hw, sw);
  }

  lemma WrappedInLimits(x: Crypto, p: seq<byte>, hw: Rep, sw: Rep, hidden: Rep, nonce: seq<byte>)
    requires CryptoOk(x) && RepOk(hw) && RepOk(sw) && RepOk(hidden) && |nonce| == OCB_NONCE_LENGTH
    requires Serializable(hw) && Serializable(sw) && |p| < 16 * OcbKeys.BLOCK_LIMIT
    ensures InLimits(EncodeVersioned(Wrapped(x, p, hw, sw, hidden, nonce)))
  {
    hide Parse, EncodeVersioned, WrappingCipher, LoadBlock, OcbSpec.Decrypt, OcbSpec.Encrypt, StoreBlock;
    WrappedOpens(x, p, hw, sw, hidden, nonce);
    VersionedRoundTrip(Wrapped(x, p, hw, sw, hidden, nonce), [], []);
  }
}
