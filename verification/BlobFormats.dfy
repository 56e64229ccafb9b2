/**
 The two encrypted key-blob layouts of keymaster/auth_encrypted_key_blob.cpp: the
 current one with a version byte, and the older one without it.
 */
module BlobFormats {
  import opened Basics
  import opened Bytes
  import opened Codec
  import opened AuthData

  const CURRENT_BLOB_VERSION: byte := 0
  const OCB_NONCE_LENGTH: nat := 12
  const OCB_TAG_LENGTH: nat := 16

  datatype Fields = Fields(nonce: seq<byte>, material: seq<byte>, tag: seq<byte>, hw: Rep, sw: Rep)

  /** Fields that both layouts can carry. */
  ghost predicate FieldsOk(f: Fields) {
    && |f.nonce| == OCB_NONCE_LENGTH && |f.tag| == OCB_TAG_LENGTH && |f.material| < U32
    && RepOk(f.hw) && RepOk(f.sw) && Serializable(f.hw) && Serializable(f.sw)
  }

  /** The hardware- and software-enforced sets at the end of a blob. */
  function DecodeSets(s: seq<byte>): Read<(Rep, Rep)> {
    var hw := Decode(s);
    if hw.Failed? then Failed
    else
      var sw := Decode(hw.rest);
      if sw.Failed? then Failed else Got((hw.value, sw.value), sw.rest)
  }

  /** SerializeAuthEncryptedBlob. */
  function EncodeVersioned(f: Fields): seq<byte>
    requires RepOk(f.hw) && RepOk(f.sw)
  {
    [CURRENT_BLOB_VERSION] + PutData(f.nonce) + PutData(f.material) + PutData(f.tag) + Encode(f.hw) + Encode(f.sw)
  }

  /** The layout of blobs made before the version byte was introduced. */
  function EncodeUnversioned(f: Fields): seq<byte>
    requires RepOk(f.hw) && RepOk(f.sw)
  {
    f.nonce + PutData(f.material) + f.tag + Encode(f.hw) + Encode(f.sw)
  }

  /**
   The attempt to parse the versioned layout.  Where it fails, the nonce and tag
   buffers keep what had been read into them.
   */
  datatype Attempt = Parsed(fields: Fields) | Left(nonce: seq<byte>, tag: seq<byte>)

  function ParseVersioned(s: seq<byte>, nonce0: seq<byte>, tag0: seq<byte>): Attempt
    requires s != []
  {
    if s[0] != CURRENT_BLOB_VERSION then Left(nonce0, tag0)
    else
      var nonce := GetData(s[1..]);
      if nonce.Failed? then Left([], tag0)
      else if |nonce.value| != OCB_NONCE_LENGTH then Left(nonce.value, tag0)
      else
        var material := GetData(nonce.rest);
        if material.Failed? then Left(nonce.value, tag0)
        else
          var tag := GetData(material.rest);
          if tag.Failed? then Left(nonce.value, [])
          else if |tag.value| != OCB_TAG_LENGTH then Left(nonce.value, tag.value)
          else
            var sets := DecodeSets(tag.rest);
            if sets.Failed? then Left(nonce.value, tag.value)
            else Parsed(Fields(nonce.value, material.value, tag.value, sets.value.0, sets.value.1))
  }

  /** The fields of the unversioned layout. */
  function ParseUnversioned(s: seq<byte>): Read<Fields> {
    var nonce := GetBytes(s, OCB_NONCE_LENGTH);
    if nonce.Failed? then Failed
    else
      var material := GetData(nonce.rest);
      if material.Failed? then Failed
      else
        var tag := GetBytes(material.rest, OCB_TAG_LENGTH);
        if tag.Failed? then Failed
        else
          var sets := DecodeSets(tag.rest);
          if sets.Failed? then Failed
          else Got(Fields(nonce.value, material.value, tag.value, sets.value.0, sets.value.1), sets.rest)
  }

  /**
   DeserializeAuthEncryptedBlob, given what the nonce and tag buffers hold before.
   The fallback appends its nonce and tag to what the attempt left there.
   */
  function Parse(s: seq<byte>, nonce0: seq<byte>, tag0: seq<byte>): Read<Fields> {
    if s == [] then Failed
    else
      match ParseVersioned(s, nonce0, tag0)
      case Parsed(f) => Got(f, [])
      case Left(nonce, tag) =>
        var legacy := ParseUnversioned(s);
        if legacy.Failed? then Failed
        else Got(legacy.value.(nonce := nonce + legacy.value.nonce, tag := tag + legacy.value.tag), [])
  }

  lemma {:induction false} SetsRoundTrip(hw: Rep, sw: Rep)
    requires RepOk(hw) && RepOk(sw) && Serializable(hw) && Serializable(sw)
    ensures DecodeSets(Encode(hw) + Encode(sw)) == Got((hw, sw), [])
  {
    hide Decode, Encode, RepOk, Serializable;
    assert Encode(sw) + [] == Encode(sw);
    DecodeEncode(hw, Encode(sw));
    DecodeEncode(sw, []);
  }

  lemma DecodeSetsSound(s: seq<byte>)
    requires DecodeSets(s).Got?
    ensures var (hw, sw) := DecodeSets(s).value;
            RepOk(hw) && RepOk(sw) && Serializable(hw) && Serializable(sw) && ElemsSize(sw.elems) <= |s|
  {
    hide Decode, RepOk, Serializable, ElemsSize;
    DecodeSound(s);
    DecodeSound(Decode(s).rest);
  }

  /** What is read from a blob could have been written into one. */
  lemma ParsedSound(s: seq<byte>, nonce0: seq<byte>, tag0: seq<byte>)
    requires Parse(s, nonce0, tag0).Got?
    ensures var f := Parse(s, nonce0, tag0).value;
            && |f.material| < U32
            && RepOk(f.hw) && RepOk(f.sw) && Serializable(f.hw) && Serializable(f.sw)
            && ElemsSize(f.sw.elems) <= |s|
  {
    hide GetU32, DecodeSets, RepOk, Serializable, ElemsSize;
    forall t: seq<byte> | DecodeSets(t).Got?
      ensures var (hw, sw) := DecodeSets(t).value;
              RepOk(hw) && RepOk(sw) && Serializable(hw) && Serializable(sw) && ElemsSize(sw.elems) <= |t|
    {
      DecodeSetsSound(t);
    }
  }

  lemma {:induction false} VersionedRoundTrip(f: Fields, nonce0: seq<byte>, tag0: seq<byte>)
    requires FieldsOk(f)
    ensures Parse(EncodeVersioned(f), nonce0, tag0) == Got(f, [])
  {
    hide GetData, PutData, DecodeSets, Encode, RepOk, Serializable;
    var s := EncodeVersioned(f);
    var s4 := Encode(f.hw) + Encode(f.sw);
    var s3 := PutData(f.tag) + s4;
    var s2 := PutData(f.material) + s3;
    var s1 := PutData(f.nonce) + s2;
    assert s == [CURRENT_BLOB_VERSION] + s1;
    assert s[1..] == s1;
    GetPutData(f.nonce, s2);
    GetPutData(f.material, s3);
    GetPutData(f.tag, s4);
    SetsRoundTrip(f.hw, f.sw);
  }

  lemma {:induction false} UnversionedFields(f: Fields)
    requires FieldsOk(f)
    ensures ParseUnversioned(EncodeUnversioned(f)) == Got(f, [])
  {
    hide GetData, PutData, DecodeSets, Encode, RepOk, Serializable;
    var s := EncodeUnversioned(f);
    var s4 := Encode(f.hw) + Encode(f.sw);
    var s3 := f.tag + s4;
    var s2 := PutData(f.material) + s3;
    assert s == f.nonce + s2;
    assert s[..12] == f.nonce && s[12..] == s2;
    GetPutData(f.material, s3);
    assert s3[..16] == f.tag && s3[16..] == s4;
    SetsRoundTrip(f.hw, f.sw);
  }

  /** The number an unversioned blob shows where the versioned layout keeps the nonce length. */
  function ApparentLength(nonce: seq<byte>): nat
    requires |nonce| == OCB_NONCE_LENGTH
  {
    LeValue(nonce[1..5])
  }

  /**
   The first five bytes of an unversioned blob do not look like a version byte and
   the length of a nonempty string that fits into the blob.
   */
  predicate NotMistaken(nonce: seq<byte>, blobSize: nat)
    requires |nonce| == OCB_NONCE_LENGTH
  {
    nonce[0] != CURRENT_BLOB_VERSION || ApparentLength(nonce) == 0 || 5 + ApparentLength(nonce) > blobSize
  }

  /** The size of a blob in the versioned layout is at least that of its fields. */
  lemma ParsedSize(s: seq<byte>, nonce0: seq<byte>, tag0: seq<byte>)
    requires s != [] && ParseVersioned(s, nonce0, tag0).Parsed?
    ensures var f := ParseVersioned(s, nonce0, tag0).fields;
            |s| >= 1 + 4 + |f.nonce| + 4 + |f.material| + 4 + |f.tag| + SerializedSize(f.hw) + SerializedSize(f.sw)
  {
    hide GetData, Decode;
    var nonce := GetData(s[1..]);
    var material := GetData(nonce.rest);
    var tag := GetData(material.rest);
    var hw := Decode(tag.rest);
    DecodeSound(tag.rest);
    DecodeSound(hw.rest);
  }

  /** What the versioned attempt makes of the start of an unversioned blob. */
  lemma NonceAttempt(f: Fields)
    requires FieldsOk(f)
    ensures var s := EncodeUnversioned(f);
            var r := GetData(s[1..]);
            && s != [] && s[0] == f.nonce[0]
            && (r.Got? <==> 5 + ApparentLength(f.nonce) <= |s|)
            && (r.Got? ==> |r.value| == ApparentLength(f.nonce))
  {
    hide Encode, PutData;
    var s := EncodeUnversioned(f);
    assert s[1..][..4] == f.nonce[1..5];
  }

  /**
   An unversioned blob is recovered exactly when its nonce is not mistaken for a
   version byte and a string.  Otherwise what the first attempt read stays in front
   of the nonce, or the blob is read as if it were versioned.
   */
  lemma UnversionedRoundTrip(f: Fields)
    requires FieldsOk(f)
    ensures Parse(EncodeUnversioned(f), [], []) == Got(f, []) <==> NotMistaken(f.nonce, |EncodeUnversioned(f)|)
  {
    hide GetData, Encode, Decode, ParseUnversioned;
    var s := EncodeUnversioned(f);
    UnversionedFields(f);
    NonceAttempt(f);
    assert [] + f.nonce == f.nonce && [] + f.tag == f.tag;
    match ParseVersioned(s, [], [])
    case Parsed(g) =>
      ParsedSize(s, [], []);
    case Left(nonce, tag) =>
      if !NotMistaken(f.nonce, |s|) {
        assert |nonce + f.nonce| > |f.nonce|;
      }
  }

  /** A mistaken nonce leaves a nonce that is too long, unless the whole blob reads as versioned. */
  lemma MistakenRefused(f: Fields)
    requires FieldsOk(f) && !NotMistaken(f.nonce, |EncodeUnversioned(f)|)
    ensures var s := EncodeUnversioned(f);
            && s != []
            && (ParseVersioned(s, [], []).Left? ==>
                  Parse(s, [], []).Got? && |Parse(s, [], []).value.nonce| > OCB_NONCE_LENGTH)
  {
    hide GetData, Encode, DecodeSets, ParseUnversioned;
    UnversionedFields(f);
    NonceAttempt(f);
  }

  lemma LengthOne()
    ensures LeValue([1, 0, 0, 0]) == 1
  {
    assert [1, 0, 0, 0][1..] == [0, 0, 0] && [0, 0, 0][1..] == [0, 0] && [0, 0][1..] == [0] && [0][1..] == [];
    assert LeValue([0]) == 0 && LeValue([0, 0]) == 0 && LeValue([0, 0, 0]) == 0;
  }

  /** A well-formed blob of the old layout that cannot be read back. */
  const MISTAKEN: Fields :=
    Fields([0, 1, 0, 0, 0, 7, 7, 7, 7, 7, 7, 7], [], [9, 9, 9, 9, 9, 9, 9, 9, 9, 9, 9, 9, 9, 9, 9, 9],
           Rep([], []), Rep([], []))

  lemma MistakenBlob()
    ensures FieldsOk(MISTAKEN)
    ensures Parse(EncodeUnversioned(MISTAKEN), [], []) != Got(MISTAKEN, [])
  {
    hide Parse, Encode, LeValue;
    assert FieldsOk(MISTAKEN);
    assert MISTAKEN.nonce[1..5] == [1, 0, 0, 0];
    LengthOne();
    UnversionedRoundTrip(MISTAKEN);
  }
}
