/**
 What stands where in the serialized forms, and what a blob that is accepted must
 look like.
 */
module BlobLaws {
  import opened Basics
  import opened Bytes
  import opened Blocks
  import opened Codec
  import opened AuthData
  import opened BlobFormats
  import opened KeyWrapping
  import opened OcbBlobs
  import opened IntegrityBlobs
  import OcbLaws

  // Numbers and parameters.

  /** Every further byte counts 256 times as much as the one before. */
  lemma {:induction false} ByteCounts(s: seq<byte>, b: byte)
    ensures LeValue([]) == 0 && LeValue(s + [b]) == LeValue(s) + b * Pow256(|s|)
  {
    if s == [] {
      assert [] + [b] == [b] && [b][1..] == [];
    } else {
      ByteCounts(s[1..], b);
      assert (s + [b])[1..] == s[1..] + [b];
      assert b * Pow256(|s|) == 256 * (b * Pow256(|s| - 1));
    }
  }

  lemma ReadNumber(x: nat, n: nat)
    requires (n == 4 && x < U32) || (n == 8 && x < U32 * U32)
    ensures LeValue(LeBytes(x, n)) == x
  {
    Pow256Of4And8();
    LeRoundTrip(x, n);
  }

  /** The type nibble of a tag decides how its value is stored. */
  lemma TagTypes(tag: nat)
    requires tag < U32
    ensures KindOf(tag) == Invalid <==> tag < 0x1000_0000
    ensures KindOf(tag) == AuthData.Kind.Word <==> 0x1000_0000 <= tag < 0x5000_0000
    ensures KindOf(tag) == Long <==> 0x5000_0000 <= tag < 0x7000_0000 || 0xA000_0000 <= tag < 0xB000_0000
    ensures KindOf(tag) == Bool <==> 0x7000_0000 <= tag < 0x8000_0000
    ensures KindOf(tag) == Blob <==> 0x8000_0000 <= tag < 0xA000_0000
  {
  }

  /** A serialized parameter: tag, then four or eight bytes, one byte, or length and offset of a blob. */
  lemma ElementLayout(e: Elem, areaSize: nat)
    requires ElemOk(e, areaSize) && areaSize < U32
    ensures var s := EncodeElem(e, areaSize);
            && |s| >= 4 && LeValue(s[..4]) == e.tag
            && match KindOf(e.tag)
               case Word => |s| == 8 && LeValue(s[4..]) == e.payload.n
               case Long => |s| == 12 && LeValue(s[4..]) == e.payload.n
               case Bool => |s| == 5 && s[4] == e.payload.n
               case Blob => |s| == 12 && LeValue(s[4..8]) == e.payload.length && LeValue(s[8..]) == e.payload.offset
               case _ => |s| == 4
  {
    hide LeBytes, LeValue, KindOf;
    var s := EncodeElem(e, areaSize);
    ReadNumber(e.tag, 4);
    assert s[..4] == PutU32(e.tag) && s[4..] == EncodeValue(e, areaSize);
    match KindOf(e.tag)
    case Word => ReadNumber(e.payload.n, 4);
    case Long => ReadNumber(e.payload.n, 8);
    case Blob =>
      ReadNumber(e.payload.length, 4);
      ReadNumber(e.payload.offset, 4);
      assert s[4..8] == PutU32(e.payload.length) && s[8..] == PutU32(e.payload.offset);
    case _ =>
  }

  /** The elements of a set stand one behind the other. */
  lemma {:induction false} ElementAt(es: seq<Elem>, areaSize: nat, i: nat)
    requires i < |es| && forall j | 0 <= j < |es| :: ElemOk(es[j], areaSize)
    ensures var at := ElemsSize(es[..i]);
            at + ElemSize(es[i]) <= |EncodeElems(es, areaSize)| &&
            EncodeElems(es, areaSize)[at..at + ElemSize(es[i])] == EncodeElem(es[i], areaSize)
  {
    hide EncodeElem, ElemOk, ElemSize;
    if i > 0 {
      ElementAt(es[1..], areaSize, i - 1);
      assert es[..i][1..] == es[1..][..i - 1];
    }
  }

  /** A serialized set: the indirect area and its length, the count, the length of the elements, the elements. */
  lemma SetLayout(r: Rep)
    requires RepOk(r) && |r.area| < U32 && |r.elems| < U32 && ElemsSize(r.elems) < U32
    ensures var s, n := Encode(r), |r.area|;
            && |s| >= n + 12
            && LeValue(s[..4]) == n && s[4..n + 4] == r.area
            && LeValue(s[n + 4..n + 8]) == |r.elems| && LeValue(s[n + 8..n + 12]) == |s| - n - 12
            && s[n + 12..] == EncodeElems(r.elems, n)
  {
    hide LeBytes, LeValue, EncodeElems, ElemsSize, ElemOk;
    var s, n := Encode(r), |r.area|;
    ReadNumber(n, 4);
    ReadNumber(|r.elems|, 4);
    ReadNumber(ElemsSize(r.elems), 4);
    assert s[..4] == PutU32(n) && s[4..n + 4] == r.area;
    assert s[n + 4..n + 8] == PutU32(|r.elems|) && s[n + 8..n + 12] == PutU32(ElemsSize(r.elems));
  }

  /** Any byte but zero is read as true. */
  lemma NonzeroIsTrue(tag: nat, b: byte, areaSize: nat, rest: seq<byte>)
    requires tag < U32 && KindOf(tag) == Bool
    ensures DecodeElem(PutU32(tag) + [b] + rest, areaSize) ==
            Got(Elem(tag, Number(if b == 0 then 0 else 1)), rest)
  {
    hide PutU32, GetU32;
    assert PutU32(tag) + [b] + rest == PutU32(tag) + ([b] + rest);
    GetPutU32(tag, [b] + rest);
  }

  /** A set may announce more element bytes than it uses, as long as they are there; they are left to be read. */
  lemma SlackIsLeft(r: Rep, size: nat, rest: seq<byte>)
    requires RepOk(r) && Serializable(r) && ElemsSize(r.elems) <= size < U32
    ensures Decode(PutData(r.area) + PutU32(|r.elems|) + PutU32(size) + EncodeElems(r.elems, |r.area|) + rest) ==
            if size - ElemsSize(r.elems) <= |rest| then Got(r, rest) else Failed
  {
    hide PutU32, GetU32, PutData, GetData, EncodeElems, DecodeElems, BlobTotal, ElemsSize;
    var elems := EncodeElems(r.elems, |r.area|);
    var tail := elems + rest;
    var sized := PutU32(size) + tail;
    var counted := PutU32(|r.elems|) + sized;
    assert PutData(r.area) + PutU32(|r.elems|) + PutU32(size) + elems + rest == PutData(r.area) + counted;
    GetPutData(r.area, counted);
    GetPutU32(|r.elems|, sized);
    GetPutU32(size, tail);
    ElemsSizeBound(r.elems);
    if size <= |tail| {
      assert tail[..size] == elems + tail[|elems|..size] && tail[|elems|..] == rest;
      DecodeEncodeElems(r.elems, |r.area|, tail[|elems|..size]);
    }
  }

  // Key blobs.

  /** A blob of the current layout, byte by byte up to its sets. */
  lemma VersionedLayout(f: Fields)
    requires FieldsOk(f)
    ensures var s, n := EncodeVersioned(f), |f.material|;
            && |s| >= 41 + n
            && s[0] == 0 && LeValue(s[1..5]) == 12 && s[5..17] == f.nonce
            && LeValue(s[17..21]) == n && s[21..21 + n] == f.material
            && LeValue(s[21 + n..25 + n]) == 16 && s[25 + n..41 + n] == f.tag
            && s[41 + n..] == Encode(f.hw) + Encode(f.sw)
  {
    hide LeBytes, LeValue, Encode, RepOk, Serializable;
    var s, n := EncodeVersioned(f), |f.material|;
    ReadNumber(12, 4);
    ReadNumber(n, 4);
    ReadNumber(16, 4);
    assert s[1..5] == PutU32(12) && s[5..17] == f.nonce;
    assert s[17..21] == PutU32(n) && s[21..21 + n] == f.material;
    assert s[21 + n..25 + n] == PutU32(16) && s[25 + n..41 + n] == f.tag;
  }

  /** A blob of the old layout has no version byte and no lengths for nonce and tag. */
  lemma UnversionedLayout(f: Fields)
    requires FieldsOk(f)
    ensures var s, n := EncodeUnversioned(f), |f.material|;
            && |s| >= 32 + n
            && s[..12] == f.nonce && LeValue(s[12..16]) == n && s[16..16 + n] == f.material
            && s[16 + n..32 + n] == f.tag && s[32 + n..] == Encode(f.hw) + Encode(f.sw)
  {
    hide LeBytes, LeValue, Encode, RepOk, Serializable;
    var s, n := EncodeUnversioned(f), |f.material|;
    ReadNumber(n, 4);
    assert s[12..16] == PutU32(n);
  }

  /** Two sets in a row at the end of a blob. */
  ghost predicate SetsAt(s: seq<byte>, hw: Rep, sw: Rep) {
    Decode(s).Got? && Decode(s).value == hw && Decode(Decode(s).rest).Got? && Decode(Decode(s).rest).value == sw
  }

  /** What is read as a string of the given length stands behind that length. */
  lemma DataAt(s: seq<byte>)
    requires GetData(s).Got?
    ensures var n := |GetData(s).value|;
            |s| >= 4 + n && LeValue(s[..4]) == n && s[4..4 + n] == GetData(s).value && GetData(s).rest == s[4 + n..]
  {
  }

  lemma SliceOfRest(s: seq<byte>, k: nat, a: nat, b: nat)
    requires k + b <= |s| && a <= b
    ensures s[k..][a..b] == s[k + a..k + b] && s[k..][b..] == s[k + b..]
  {
  }

  /** What the versioned attempt accepts has version zero, the three strings and the two sets in their places. */
  lemma VersionedMeans(s: seq<byte>, nonce0: seq<byte>, tag0: seq<byte>)
    requires s != [] && ParseVersioned(s, nonce0, tag0).Parsed?
    ensures var f := ParseVersioned(s, nonce0, tag0).fields;
            var n := |f.material|;
            && |s| >= 41 + n
            && s[0] == 0 && LeValue(s[1..5]) == 12 && s[5..17] == f.nonce
            && LeValue(s[17..21]) == n && s[21..21 + n] == f.material
            && LeValue(s[21 + n..25 + n]) == 16 && s[25 + n..41 + n] == f.tag
            && SetsAt(s[41 + n..], f.hw, f.sw)
  {
    hide GetData, Decode, LeValue;
    var nonce := GetData(s[1..]);
    DataAt(s[1..]);
    SliceOfRest(s, 1, 0, 4);
    SliceOfRest(s, 1, 4, 16);
    var material := GetData(nonce.rest);
    var n := |material.value|;
    DataAt(s[17..]);
    SliceOfRest(s, 17, 0, 4);
    SliceOfRest(s, 17, 4, 4 + n);
    DataAt(s[21 + n..]);
    SliceOfRest(s, 21 + n, 0, 4);
    SliceOfRest(s, 21 + n, 4, 20);
  }

  /** The same for the fallback. */
  lemma UnversionedMeans(s: seq<byte>)
    requires ParseUnversioned(s).Got?
    ensures var f := ParseUnversioned(s).value;
            var n := |f.material|;
            && |s| >= 32 + n
            && s[..12] == f.nonce && LeValue(s[12..16]) == n && s[16..16 + n] == f.material
            && s[16 + n..32 + n] == f.tag && SetsAt(s[32 + n..], f.hw, f.sw)
  {
    hide GetData, Decode, LeValue;
    var n := |GetData(s[12..]).value|;
    DataAt(s[12..]);
    SliceOfRest(s, 12, 0, 4);
    SliceOfRest(s, 12, 4, 4 + n);
    SliceOfRest(s, 16 + n, 0, 16);
  }

  // Wrapping keys.

  /** The data a wrapping key is derived from says which three sets it is for. */
  lemma DerivationInjective(hw: Rep, sw: Rep, hidden: Rep, hw': Rep, sw': Rep, hidden': Rep)
    requires RepOk(hw) && RepOk(sw) && RepOk(hidden) && RepOk(hw') && RepOk(sw') && RepOk(hidden')
    requires Serializable(hw) && Serializable(sw) && Serializable(hidden)
    requires Serializable(hw') && Serializable(sw') && Serializable(hidden')
    requires DerivationData(hw, sw, hidden) == DerivationData(hw', sw', hidden')
    ensures hw == hw' && sw == sw' && hidden == hidden'
  {
    hide Encode, Decode, RepOk, Serializable;
    var s, s' := Encode(hw) + Encode(sw), Encode(hw') + Encode(sw');
    assert DerivationData(hw, sw, hidden) == Encode(hidden) + s;
    assert DerivationData(hw', sw', hidden') == Encode(hidden') + s';
    DecodeEncode(hidden, s);
    DecodeEncode(hidden', s');
    SetsRoundTrip(hw, sw);
    SetsRoundTrip(hw', sw');
  }

  /** The hidden set comes first, then the hardware set, then the software set. */
  lemma DerivationOrder(hw: Rep, sw: Rep, hidden: Rep)
    requires RepOk(hw) && RepOk(sw) && RepOk(hidden)
    ensures var d, n := DerivationData(hw, sw, hidden), |Encode(hidden)|;
            && |d| == n + |Encode(hw)| + |Encode(sw)| && d[..n] == Encode(hidden)
            && d[n..n + |Encode(hw)|] == Encode(hw) && d[n + |Encode(hw)|..] == Encode(sw)
  {
    hide Encode;
  }

  /**
   Deciphering a derived key under the master key gives the first half of the hash, so
   two derivations give one key exactly if their hashes agree there.
   */
  lemma DerivedKeyMeans(x: Crypto, master: seq<byte>, hw: Rep, sw: Rep, hidden: Rep, hw': Rep, sw': Rep, hidden': Rep)
    requires CryptoOk(x) && RepOk(hw) && RepOk(sw) && RepOk(hidden) && RepOk(hw') && RepOk(sw') && RepOk(hidden')
    ensures var h := x.sha256(Encode(hidden) + Encode(hw) + Encode(sw));
            var h' := x.sha256(Encode(hidden') + Encode(hw') + Encode(sw'));
            && x.aes(master).dec(LoadBlock(DerivedKey(x, master, hw, sw, hidden))) == LoadBlock(h[..16])
            && (DerivedKey(x, master, hw, sw, hidden) == DerivedKey(x, master, hw', sw', hidden') <==>
                h[..16] == h'[..16])
  {
    hide Encode, LoadBlock, StoreBlock, RepOk;
    var h, h' := x.sha256(DerivationData(hw, sw, hidden)), x.sha256(DerivationData(hw', sw', hidden'));
    var c := x.aes(master);
    LoadStore(c.enc(LoadBlock(h[..16])));
    LoadStore(c.enc(LoadBlock(h'[..16])));
    StoreLoad(h[..16]);
    StoreLoad(h'[..16]);
    assert c.dec(c.enc(LoadBlock(h[..16]))) == LoadBlock(h[..16]);
    assert c.dec(c.enc(LoadBlock(h'[..16]))) == LoadBlock(h'[..16]);
  }

  /**
   An encrypted blob gives up a key if and only if it holds the sealing of that key
   under the cipher that its own sets and the hidden set determine.
   */
  lemma OcbAcceptedIff(x: Crypto, s: seq<byte>, hidden: Rep, p: seq<byte>, hw: Rep, sw: Rep)
    requires CryptoOk(x) && RepOk(hidden) && RepOk(hw) && RepOk(sw)
    ensures ParseOcb(x, s, hidden) == Unwrapped(p, hw, sw) <==>
            match Parse(s, [], [])
            case Failed => false
            case Got(f, _) =>
              && |f.nonce| == 12 && |f.tag| == 16 && f.hw == hw && f.sw == sw
              && OcbSpec.Sealed(f.material, LoadBlock(f.tag)) ==
                 OcbSpec.Encrypt(WrappingCipher(x, MASTER_KEY, hw, sw, hidden), f.nonce, [], p)
  {
    hide Parse, WrappingCipher, OcbSpec.Decrypt, OcbSpec.Encrypt, LoadBlock, RepOk;
    var r := Parse(s, [], []);
    if r.Got? && |r.value.nonce| == 12 && |r.value.tag| == 16 {
      ParsedSound(s, [], []);
      var f := r.value;
      OpensUnder(x, f, hidden, p);
    }
  }

  lemma OpensUnder(x: Crypto, f: Fields, hidden: Rep, p: seq<byte>)
    requires CryptoOk(x) && RepOk(hidden) && RepOk(f.hw) && RepOk(f.sw)
    requires |f.nonce| == 12 && |f.tag| == 16
    ensures var c := WrappingCipher(x, MASTER_KEY, f.hw, f.sw, hidden);
            var sealed := OcbSpec.Sealed(f.material, LoadBlock(f.tag));
            OcbSpec.Decrypt(c, f.nonce, [], sealed) == OcbSpec.Opened(p) <==>
            sealed == OcbSpec.Encrypt(c, f.nonce, [], p)
  {
    hide OcbSpec.Decrypt, OcbSpec.Encrypt, LoadBlock, RepOk, DerivedKey;
    OcbLaws.OpensIff(WrappingCipher(x, MASTER_KEY, f.hw, f.sw, hidden), f.nonce, [],
                     OcbSpec.Sealed(f.material, LoadBlock(f.tag)), p);
  }

  // Integrity-assured blobs.

  /** What an HMAC covers says which key, which two sets and which hidden set it is for. */
  lemma MacInputInjective(m: seq<byte>, hw: Rep, sw: Rep, hidden: Rep, m': seq<byte>, hw': Rep, sw': Rep, hidden': Rep)
    requires RepOk(hw) && RepOk(sw) && RepOk(hidden) && RepOk(hw') && RepOk(sw') && RepOk(hidden')
    requires Serializable(hw) && Serializable(sw) && Serializable(hidden) && |m| < U32
    requires Serializable(hw') && Serializable(sw') && Serializable(hidden') && |m'| < U32
    requires Body(m, hw, sw) + Encode(hidden) == Body(m', hw', sw') + Encode(hidden')
    ensures m == m' && hw == hw' && sw == sw' && hidden == hidden'
  {
    hide Encode, Decode, RepOk, Serializable, PutData, GetData;
    MacInputRead(m, hw, sw, hidden);
    MacInputRead(m', hw', sw', hidden');
  }

  lemma MacInputRead(m: seq<byte>, hw: Rep, sw: Rep, hidden: Rep)
    requires RepOk(hw) && RepOk(sw) && RepOk(hidden)
    requires Serializable(hw) && Serializable(sw) && Serializable(hidden) && |m| < U32
    ensures var d := GetData((Body(m, hw, sw) + Encode(hidden))[1..]);
            && d.Got? && d.value == m
            && Decode(d.rest) == Got(hw, Encode(sw) + Encode(hidden))
            && Decode(Encode(sw) + Encode(hidden)) == Got(sw, Encode(hidden))
            && Decode(Encode(hidden)) == Got(hidden, [])
  {
    hide Encode, Decode, RepOk, Serializable, PutData, GetData;
    var last := Encode(hidden);
    var sets := Encode(hw) + (Encode(sw) + last);
    assert (Body(m, hw, sw) + last)[1..] == PutData(m) + sets;
    GetPutData(m, sets);
    DecodeEncode(hw, Encode(sw) + last);
    DecodeEncode(sw, last);
    DecodeEncode(hidden, []);
    assert last + [] == last;
  }

  /** The covered part of a blob, and that the HMAC is the first eight bytes over it and the hidden set. */
  lemma AssuredLayout(x: Crypto, m: seq<byte>, hidden: Rep, hw: Rep, sw: Rep)
    requires CryptoOk(x) && RepOk(hidden) && RepOk(hw) && RepOk(sw) && |m| < U32
    ensures var s, n := EncodeAssured(x, m, hidden, hw, sw), |m|;
            var b := |s| - 8;
            && b >= 5 + n && s[0] == 0 && LeValue(s[1..5]) == n && s[5..5 + n] == m
            && s[5 + n..b] == Encode(hw) + Encode(sw)
            && s[b..] == x.hmac(HMAC_KEY, s[..b] + Encode(hidden))[..8]
  {
    hide LeBytes, LeValue, Encode, RepOk;
    var s, n := EncodeAssured(x, m, hidden, hw, sw), |m|;
    var b := |s| - 8;
    ReadNumber(n, 4);
    assert s[..b] == Body(m, hw, sw);
    assert s[1..5] == PutU32(n);
  }

  /** What is accepted under an HMAC has version zero, then the material and the sets in their places. */
  lemma BodyMeans(body: seq<byte>)
    requires ParseBody(body).Unwrapped?
    ensures var u := ParseBody(body);
            var n := |u.material|;
            && |body| >= 5 + n && body[0] == 0 && LeValue(body[1..5]) == n && body[5..5 + n] == u.material
            && SetsAt(body[5 + n..], u.hw, u.sw)
  {
    hide GetData, Decode, LeValue;
    DataAt(body[1..]);
    var n := |GetData(body[1..]).value|;
    SliceOfRest(body, 1, 0, 4);
    SliceOfRest(body, 1, 4, 4 + n);
  }
}
