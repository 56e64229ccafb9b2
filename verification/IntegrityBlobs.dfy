/**
 Integrity-assured key blobs (keymaster/integrity_assured_key_blob.cpp): plain key
 material and authorization sets followed by a truncated HMAC over them and over
 the hidden authorizations.
 */
module IntegrityBlobs {
  import opened Basics
  import opened Bytes
  import opened Codec
  import opened AuthData
  import opened AuthorizationSets
  import opened BlobFormats
  import opened KeyWrapping
  import opened OcbBlobs

  const BLOB_VERSION: byte := 0
  const HMAC_SIZE: nat := 8

  /** The characters of "IntegrityAssuredBlob0" and the terminating zero, which is part of the key. */
  const HMAC_KEY: seq<byte> :=
    [73, 110, 116, 101, 103, 114, 105, 116, 121, 65, 115, 115, 117, 114, 101, 100, 66, 108, 111, 98, 48, 0]

  function Mac(x: Crypto, body: seq<byte>, hidden: Rep): (m: seq<byte>)
    requires RepOk(hidden) && |x.hmac(HMAC_KEY, body + Encode(hidden))| == 32
    ensures |m| == HMAC_SIZE
  {
    x.hmac(HMAC_KEY, body + Encode(hidden))[..HMAC_SIZE]
  }

  function Body(material: seq<byte>, hw: Rep, sw: Rep): seq<byte>
    requires RepOk(hw) && RepOk(sw)
  {
    [BLOB_VERSION] + PutData(material) + (Encode(hw) + Encode(sw))
  }

  /** What follows the version byte of a blob: the material and the two sets. */
  function ParseBody(body: seq<byte>): Unwrapped {
    if body == [] || body[0] != BLOB_VERSION then Refused
    else
      var material := GetData(body[1..]);
      if material.Failed? then Refused
      else
        var sets := DecodeSets(material.rest);
        if sets.Failed? then Refused else Unwrapped(material.value, sets.value.0, sets.value.1)
  }

  ghost function EncodeAssured(x: Crypto, material: seq<byte>, hidden: Rep, hw: Rep, sw: Rep): seq<byte>
    requires CryptoOk(x) && RepOk(hidden) && RepOk(hw) && RepOk(sw)
  {
    Body(material, hw, sw) + Mac(x, Body(material, hw, sw), hidden)
  }

  ghost function ParseAssured(x: Crypto, s: seq<byte>, hidden: Rep): Unwrapped
    requires CryptoOk(x) && RepOk(hidden)
  {
    var n := |s| - HMAC_SIZE;
    if n < 0 || s[n..] != Mac(x, s[..n], hidden) then Refused else ParseBody(s[..n])
  }

  /** A blob made with the same hidden authorizations comes back. */
  lemma AssuredRoundTrip(x: Crypto, material: seq<byte>, hidden: Rep, hw: Rep, sw: Rep)
    requires CryptoOk(x) && RepOk(hidden) && RepOk(hw) && RepOk(sw)
    requires |material| < U32 && Serializable(hw) && Serializable(sw)
    ensures ParseAssured(x, EncodeAssured(x, material, hidden, hw, sw), hidden) == Unwrapped(material, hw, sw)
  {
    hide PutData, GetData, Encode, DecodeSets, Mac, Serializable, RepOk;
    var body := Body(material, hw, sw);
    var s := EncodeAssured(x, material, hidden, hw, sw);
    var n := |s| - HMAC_SIZE;
    assert s[..n] == body && s[n..] == Mac(x, body, hidden);
    var sets := Encode(hw) + Encode(sw);
    assert body[1..] == PutData(material) + sets;
    GetPutData(material, sets);
    SetsRoundTrip(hw, sw);
  }

  /** What is read from a blob could be written into one. */
  lemma BodySound(body: seq<byte>)
    requires ParseBody(body).Unwrapped?
    ensures var u := ParseBody(body);
            && |u.material| < U32 && RepOk(u.hw) && RepOk(u.sw) && Serializable(u.hw) && Serializable(u.sw)
            && ElemsSize(u.sw.elems) <= |body|
  {
    hide DecodeSets, RepOk, Serializable, GetU32;
    DecodeSetsSound(GetData(body[1..]).rest);
  }

  /** Only blobs whose last bytes are the HMAC under the given hidden authorizations are accepted. */
  lemma AcceptedIsAssured(x: Crypto, s: seq<byte>, hidden: Rep)
    requires CryptoOk(x) && RepOk(hidden) && ParseAssured(x, s, hidden).Unwrapped?
    ensures |s| > HMAC_SIZE
    ensures exists body: seq<byte> :: s == body + Mac(x, body, hidden) && ParseBody(body) == ParseAssured(x, s, hidden)
  {
    hide GetData, DecodeSets, Mac, RepOk, CryptoOk;
    var n := |s| - HMAC_SIZE;
    var body := s[..n];
    assert body != [];
    hide ParseBody;
    assert s == body + s[n..];
  }

  /** ComputeHmac over the first n bytes of a buffer. */
  method ComputeHmac(x: Crypto, data: array<byte>, n: nat, hidden: AuthorizationSet) returns (mac: seq<byte>)
    requires CryptoOk(x) && hidden.Valid() && n <= data.Length
    ensures mac == x.hmac(HMAC_KEY, data[..n] + Encode(hidden.Rep()))[..8] == Mac(x, data[..n], hidden.Rep())
  {
    hide Encode, AuthorizationSet.Rep;
    var size := hidden.SizeOf();
    var hiddenBytes := new byte[size];
    var end := hidden.Serialize(hiddenBytes, 0, size);
    assert hiddenBytes[..] == Encode(hidden.Rep());
    var tmp := x.hmac(HMAC_KEY, data[..n] + hiddenBytes[..]);
    return tmp[..HMAC_SIZE];
  }

  /** The part of a blob that the HMAC covers. */
  method SerializeBody(material: seq<byte>, hw: AuthorizationSet, sw: AuthorizationSet, blob: array<byte>)
    returns (next: nat)
    requires hw.Valid() && sw.Valid() && blob != hw.indirect && blob != sw.indirect
    requires |Body(material, hw.Rep(), sw.Rep())| <= blob.Length
    modifies blob
    ensures next == |Body(material, hw.Rep(), sw.Rep())|
    ensures Placed(old(blob[..]), blob[..], 0, Body(material, hw.Rep(), sw.Rep()))
  {
    hide PutData, Encode, Placed, AuthorizationSet.Rep;
    ghost var b0 := blob[..];
    next := Append(blob, 0, blob.Length, [BLOB_VERSION]);
    ghost var b1 := blob[..];
    next := Append(blob, next, blob.Length, PutData(material));
    ghost var b2 := blob[..];
    next := SerializeSets(hw, sw, blob, next);
    PlacedTwice(b0, b1, b2, 0, [BLOB_VERSION], PutData(material));
    PlacedTwice(b0, b2, blob[..], 0, [BLOB_VERSION] + PutData(material), Encode(hw.Rep()) + Encode(sw.Rep()));
  }

  lemma BodySize(material: seq<byte>, hw: Rep, sw: Rep)
    requires RepOk(hw) && RepOk(sw)
    ensures |Body(material, hw, sw)| == 1 + (4 + |material|) + SerializedSize(hw) + SerializedSize(sw)
  {
    hide PutData, Encode;
  }

  /** SerializeIntegrityAssuredBlob. */
  method SerializeIntegrityAssuredBlob(x: Crypto, material: seq<byte>, hidden: AuthorizationSet,
                                       hw: AuthorizationSet, sw: AuthorizationSet)
    returns (blob: array<byte>)
    requires CryptoOk(x) && hidden.Valid() && hw.Valid() && sw.Valid()
    ensures fresh(blob) && blob[..] == EncodeAssured(x, material, hidden.Rep(), hw.Rep(), sw.Rep())
  {
    hide Body, Placed, Mac, AuthorizationSet.Rep;
    var n1 := hw.SizeOf();
    var n2 := sw.SizeOf();
    blob := new byte[1 + (4 + |material|) + n1 + n2 + HMAC_SIZE];
    BodySize(material, hw.Rep(), sw.Rep());
    ghost var body, b0 := Body(material, hw.Rep(), sw.Rep()), blob[..];
    var next := SerializeBody(material, hw, sw, blob);
    ghost var b1 := blob[..];
    PlacedPrefix(b0, b1, body);
    assert blob[..next] == body;
    var mac := ComputeHmac(x, blob, next, hidden);
    next := Append(blob, next, blob.Length, mac);
    WholeBuffer(b0, b1, blob[..], body, mac);
  }

  lemma PlacedPrefix(b0: seq<byte>, b1: seq<byte>, s: seq<byte>)
    requires Placed(b0, b1, 0, s)
    ensures |s| <= |b1| && b1[..|s|] == s
  {
  }

  /** DeserializeIntegrityAssuredBlob_NoHmacCheck on the bytes before the HMAC. */
  method DeserializeBody(body: seq<byte>, hw: AuthorizationSet, sw: AuthorizationSet)
    returns (error: KmError, material: seq<byte>)
    requires Apart(hw, sw) && hw.Valid() && sw.Valid()
    modifies hw, sw
    ensures hw.Valid() && sw.Valid() && Renewed(hw) && Renewed(sw) && Apart(hw, sw)
    ensures match ParseBody(body)
            case Unwrapped(m, h, w) =>
              error == KM_OK && material == m && hw.Rep() == h && sw.Rep() == w && hw.error == sw.error == OK
            case Refused => error == KM_INVALID_KEY_BLOB
  {
    hide GetData, DecodeSets, AuthorizationSet.Valid, AuthorizationSet.Rep;
    if body == [] || body[0] != BLOB_VERSION {
      return KM_INVALID_KEY_BLOB, [];
    }
    var m := GetData(body[1..]);
    if m.Failed? {
      return KM_INVALID_KEY_BLOB, [];
    }
    var ok := DeserializeSets(m.rest, hw, sw);
    if !ok {
      return KM_INVALID_KEY_BLOB, m.value;
    }
    return KM_OK, m.value;
  }

  /** DeserializeIntegrityAssuredBlob. */
  method DeserializeIntegrityAssuredBlob(x: Crypto, blob: array<byte>, hidden: AuthorizationSet,
                                         hw: AuthorizationSet, sw: AuthorizationSet)
    returns (error: KmError, material: seq<byte>)
    requires CryptoOk(x) && hidden.Valid() && hw.Valid() && sw.Valid()
    requires Apart(hw, sw) && hidden != hw && hidden != sw
    modifies hw, sw
    ensures hw.Valid() && sw.Valid() && hidden.Valid() && Renewed(hw) && Renewed(sw) && Apart(hw, sw)
    ensures match ParseAssured(x, blob[..], hidden.Rep())
            case Unwrapped(m, h, w) =>
              error == KM_OK && material == m && hw.Rep() == h && sw.Rep() == w && hw.error == sw.error == OK
            case Refused => error == KM_INVALID_KEY_BLOB
  {
    hide ParseBody, Mac, AuthorizationSet.Valid, AuthorizationSet.Rep;
    if blob.Length < HMAC_SIZE {
      return KM_INVALID_KEY_BLOB, [];
    }
    var n := blob.Length - HMAC_SIZE;
    var computed := ComputeHmac(x, blob, n, hidden);
    assert blob[..][n..] == blob[n..] && blob[..][..n] == blob[..n];
    if blob[n..] != computed {
      return KM_INVALID_KEY_BLOB, [];
    }
    error, material := DeserializeBody(blob[..n], hw, sw);
  }
}
