/** What UpgradeKeyBlob promises about the blob it makes. */
module UpgradeTheorems {
  import opened Basics
  import opened Bytes
  import opened AuthData
  import opened AuthorizationSets
  import opened BlobFormats
  import opened KeyWrapping
  import opened OcbBlobs
  import opened IntegrityBlobs
  import opened VersionTags
  import opened SoftKeymaster

  /** CheckVersionInfo on the entries of both sets. */
  function CheckVersions(tee: seq<Elem>, sw: seq<Elem>, osPatch: nat): KmError {
    var t, w := LevelOf(tee, TAG_OS_PATCHLEVEL), LevelOf(sw, TAG_OS_PATCHLEVEL);
    var key := if t.Level? then t else w;
    if key.Absent? || key.n == osPatch then KM_OK
    else if key.n < osPatch then KM_KEY_REQUIRES_UPGRADE
    else KM_INVALID_KEY_BLOB
  }

  /** GetTagValue for a numeric tag. */
  method GetTagValue(a: AuthorizationSet, tag: nat) returns (found: bool, v: nat)
    requires a.Valid() && KindOf(tag) == Word
    ensures LevelOf(Entries(a), tag) == if found then Level(v) else Absent
  {
    hide RepOk, ToElems, PointInto;
    TagsSeen(a);
    NumberSeen(a);
    var pos := a.Find(tag, -1);
    assert pos == IndexOf(Entries(a), tag);
    if pos == -1 {
      return false, 0;
    }
    return true, a.elems[pos].cell.n;
  }

  /** CheckVersionInfo. */
  method CheckVersionInfo(tee: AuthorizationSet, sw: AuthorizationSet, osPatch: nat) returns (error: KmError)
    requires tee.Valid() && sw.Valid()
    ensures error == CheckVersions(Entries(tee), Entries(sw), osPatch)
  {
    hide LevelOf, AuthorizationSet.Valid, Entries;
    var found, patch := GetTagValue(tee, TAG_OS_PATCHLEVEL);
    if !found {
      found, patch := GetTagValue(sw, TAG_OS_PATCHLEVEL);
    }
    if found {
      if patch < osPatch {
        return KM_KEY_REQUIRES_UPGRADE;
      } else if patch > osPatch {
        return KM_INVALID_KEY_BLOB;
      }
    }
    return KM_OK;
  }

  /** A key that a blob can hold, with room for two more entries. */
  ghost predicate Storable(m: seq<byte>, tee: Rep, sw: Rep) {
    && |m| < U32 && RepOk(tee) && RepOk(sw) && Serializable(tee) && Serializable(sw)
    && ElemsSize(sw.elems) + 16 < U32
  }

  /** A blob made by this software: integrity-assured, or OCB-encrypted. */
  ghost predicate SoftwareBlob(x: Crypto, s: seq<byte>, hidden: Rep)
    requires CryptoOk(x) && RepOk(hidden)
  {
    ParseAssured(x, s, hidden).Unwrapped? || ParseOcb(x, s, hidden).Unwrapped?
  }

  /** Keys read from software blobs are storable, with room for the version entries. */
  lemma SoftwareKeys(x: Crypto, others: seq<byte> -> OldBlob, s: seq<byte>, hidden: Rep)
    requires CryptoOk(x) && OthersOk(others) && RepOk(hidden)
    requires SoftwareBlob(x, s, hidden) && |s| + 16 < U32
    ensures var k := ParseBlob(x, others, s, hidden);
            k.Key? && Storable(k.material, k.hw, k.sw)
  {
    hide ParseBody, Mac, Parse, RepOk, Serializable, OcbSpec.Decrypt, ElemsSize;
    if ParseAssured(x, s, hidden).Unwrapped? {
      BodySound(s[..|s| - HMAC_SIZE]);
    } else {
      ParsedSound(s, [], []);
      var f := Parse(s, [], []).value;
      OpenedLength(WrappingCipher(x, MASTER_KEY, f.hw, f.sw, hidden), f.nonce, f.material, f.tag);
    }
  }

  /**
   Refusals: exactly the keys of keymaster1 hardware and those that would be
   downgraded.  A newer patch level in the key is always refused.
   */
  lemma UpgradeRefuses(x: Crypto, others: seq<byte> -> OldBlob, km1: bool, osVersion: nat, osPatch: nat, s: seq<byte>,
                       hidden: Rep)
    requires CryptoOk(x) && OthersOk(others) && RepOk(hidden) && osVersion < U32 && osPatch < U32
    requires ParseBlob(x, others, s, hidden).Key?
    ensures var k := ParseBlob(x, others, s, hidden);
            var u := Upgrade(x, others, km1, osVersion, osPatch, s, hidden);
            && (u == Failure(KM_INVALID_ARGUMENT) <==>
                HardwareKey(km1, k.hw.elems) || WouldDowngrade(k.sw.elems, osVersion, osPatch))
            && (LevelOf(k.sw.elems, TAG_OS_PATCHLEVEL).Level? && LevelOf(k.sw.elems, TAG_OS_PATCHLEVEL).n > osPatch ==>
                  u == Failure(KM_INVALID_ARGUMENT))
            && (u == Unchanged <==> !HardwareKey(km1, k.hw.elems) && UpToDate(k.sw.elems, osVersion, osPatch))
  {
    hide ParseBlob, LevelOf, UpgradeEntries, RepOk, EncodeAssured, Kept, HardwareKey;
    var k := ParseBlob(x, others, s, hidden);
    ParsedOk(x, others, s, hidden);
    ElemsAreOk(k.sw);
    UpgradeEntriesOk(k.sw.elems, osVersion, osPatch, |k.sw.area|);
  }

  lemma ElemsAreOk(r: Rep)
    requires RepOk(r)
    ensures ElemsOk(r.elems, |r.area|)
  {
  }

  /**
   An upgrade that changes the key makes a blob that parses under the same hidden
   authorizations to the same key material, the same hardware-enforced set and the
   same other entries in the same order, with the version entries brought up to date;
   and a second upgrade leaves that blob alone.
   */
  lemma UpgradeKeepsKey(x: Crypto, others: seq<byte> -> OldBlob, km1: bool, osVersion: nat, osPatch: nat,
                        s: seq<byte>, hidden: Rep)
    requires CryptoOk(x) && OthersOk(others) && RepOk(hidden) && osVersion < U32 && osPatch < U32
    requires ParseBlob(x, others, s, hidden).Key?
    requires var k := ParseBlob(x, others, s, hidden); Storable(k.material, k.hw, k.sw)
    requires Upgrade(x, others, km1, osVersion, osPatch, s, hidden).NewBlob?
    ensures var k := ParseBlob(x, others, s, hidden);
            var s' := Upgrade(x, others, km1, osVersion, osPatch, s, hidden).blob;
            var k' := ParseBlob(x, others, s', hidden);
            && k'.Key? && k'.material == k.material && k'.hw == k.hw
            && k'.sw.area == k.sw.area && Others(k'.sw.elems) == Others(k.sw.elems)
            && UpToDate(k'.sw.elems, osVersion, osPatch)
            && (LevelOf(k.hw.elems, TAG_OS_PATCHLEVEL).Absent? ==>
                CheckVersions(k'.hw.elems, k'.sw.elems, osPatch) == KM_OK)
            && Upgrade(x, others, km1, osVersion, osPatch, s', hidden) == Unchanged
            && SoftwareBlob(x, s', hidden)
  {
    hide ParseAssured, ParseOcb, LevelOf, UpgradeEntries, RepOk, EncodeAssured, HardwareKey, Others, CryptoOk, OthersOk,
         Serializable, ElemsSize;
    var k := ParseBlob(x, others, s, hidden);
    var u := UpgradeEntries(k.sw.elems, osVersion, osPatch);
    ElemsAreOk(k.sw);
    UpgradeEntriesOk(k.sw.elems, osVersion, osPatch, |k.sw.area|);
    var sw' := AuthData.Rep(u.elems, k.sw.area);
    UpgradedStorable(k.sw, u.elems);
    AssuredRoundTrip(x, k.material, hidden, k.hw, sw');
    var s' := EncodeAssured(x, k.material, hidden, k.hw, sw');
    UpgradeRefuses(x, others, km1, osVersion, osPatch, s', hidden);
  }

  /**
   The same for every software blob whose length leaves room in 32 bits, with no
   further condition on the key: an upgrade of it, repeated, stops at a blob that holds
   the same key with versions up to date.
   */
  lemma UpgradeKeepsSoftwareKey(x: Crypto, others: seq<byte> -> OldBlob, km1: bool, osVersion: nat, osPatch: nat,
                                s: seq<byte>, hidden: Rep)
    requires CryptoOk(x) && OthersOk(others) && RepOk(hidden) && osVersion < U32 && osPatch < U32
    requires SoftwareBlob(x, s, hidden) && |s| + 16 < U32
    ensures var k := ParseBlob(x, others, s, hidden);
            k.Key? &&
            match Upgrade(x, others, km1, osVersion, osPatch, s, hidden)
            case Failure(e) =>
              && e == KM_INVALID_ARGUMENT
              && (HardwareKey(km1, k.hw.elems) || WouldDowngrade(k.sw.elems, osVersion, osPatch))
            case Unchanged => UpToDate(k.sw.elems, osVersion, osPatch)
            case NewBlob(s') =>
              var k' := ParseBlob(x, others, s', hidden);
              && SoftwareBlob(x, s', hidden)
              && k'.Key? && k'.material == k.material && k'.hw == k.hw
              && k'.sw.area == k.sw.area && Others(k'.sw.elems) == Others(k.sw.elems)
              && UpToDate(k'.sw.elems, osVersion, osPatch)
              && (LevelOf(k.hw.elems, TAG_OS_PATCHLEVEL).Absent? ==>
                  CheckVersions(k'.hw.elems, k'.sw.elems, osPatch) == KM_OK)
              && Upgrade(x, others, km1, osVersion, osPatch, s', hidden) == Unchanged
  {
    hide ParseBlob, ParseAssured, ParseOcb, LevelOf, Others, RepOk, EncodeAssured, Storable, CryptoOk, OthersOk,
         HardwareKey, WouldDowngrade, CheckVersions;
    SoftwareKeys(x, others, s, hidden);
    UpgradeRefuses(x, others, km1, osVersion, osPatch, s, hidden);
    if Upgrade(x, others, km1, osVersion, osPatch, s, hidden).NewBlob? {
      UpgradeKeepsKey(x, others, km1, osVersion, osPatch, s, hidden);
    }
  }

  lemma UpgradedStorable(sw: Rep, es: seq<Elem>)
    requires RepOk(sw) && Serializable(sw) && ElemsSize(sw.elems) + 16 < U32 && Kept(sw.elems, es, |sw.area|, 2)
    ensures RepOk(AuthData.Rep(es, sw.area)) && Serializable(AuthData.Rep(es, sw.area))
  {
    hide ElemsSize, BlobTotal, Others, ElemOk;
    ElemsSizeBound(sw.elems);
  }

  // What the verdicts and conditions above mean.

  /** A level is the number of the first entry with the tag. */
  lemma LevelMeans(es: seq<Elem>, tag: nat, i: nat)
    requires i < |es| && es[i].tag == tag && forall j | 0 <= j < i :: es[j].tag != tag
    ensures LevelOf(es, tag) == if es[i].payload.Number? then Level(es[i].payload.n) else Absent
  {
    assert IndexOf(es, tag) == i;
  }

  lemma NoLevel(es: seq<Elem>, tag: nat)
    requires forall j | 0 <= j < |es| :: es[j].tag != tag
    ensures LevelOf(es, tag) == Absent
  {
  }

  /** The hardware level decides if there is one: a lower level asks for an upgrade, a higher one is invalid. */
  lemma CheckMeans(tee: seq<Elem>, sw: seq<Elem>, osPatch: nat)
    ensures var t, w := LevelOf(tee, TAG_OS_PATCHLEVEL), LevelOf(sw, TAG_OS_PATCHLEVEL);
            var e := CheckVersions(tee, sw, osPatch);
            && (t.Level? ==> (e == KM_KEY_REQUIRES_UPGRADE <==> t.n < osPatch))
            && (t.Level? ==> (e == KM_INVALID_KEY_BLOB <==> t.n > osPatch))
            && (t.Absent? ==> (e == KM_KEY_REQUIRES_UPGRADE <==> w.Level? && w.n < osPatch))
            && (t.Absent? ==> (e == KM_INVALID_KEY_BLOB <==> w.Level? && w.n > osPatch))
            && e in {KM_OK, KM_KEY_REQUIRES_UPGRADE, KM_INVALID_KEY_BLOB}
  {
    hide LevelOf;
  }

  /** A keymaster1 hardware key has a purpose and no patch level in its hardware set. */
  lemma HardwareKeyMeans(km1: bool, tee: seq<Elem>)
    ensures HardwareKey(km1, tee) <==>
            && km1 && (exists i :: 0 <= i < |tee| && tee[i].tag == 0x2000_0001)
            && (forall i | 0 <= i < |tee| :: tee[i].tag != 0x3000_02C2)
  {
    var i := IndexOf(tee, TAG_PURPOSE);
    if i >= 0 {
      assert tee[i].tag == 0x2000_0001;
    }
  }

  /** A downgrade is a lower version other than zero or a lower patch level; up to date are equal ones. */
  lemma VersionsMean(es: seq<Elem>, osVersion: nat, osPatch: nat)
    ensures var v, p := LevelOf(es, 0x3000_02C1), LevelOf(es, 0x3000_02C2);
            && (WouldDowngrade(es, osVersion, osPatch) <==>
                (v.Level? && 0 < osVersion < v.n) || (p.Level? && osPatch < p.n))
            && (UpToDate(es, osVersion, osPatch) <==> v == Level(osVersion) && p == Level(osPatch))
  {
    hide LevelOf;
  }

  /**
   A key that the version check sends to be upgraded, and that has no patch level of
   its own in hardware, gets a new blob unless it is a keymaster1 hardware key or its
   OS version would go back.
   */
  lemma SentToUpgrade(x: Crypto, others: seq<byte> -> OldBlob, km1: bool, osVersion: nat, osPatch: nat, s: seq<byte>,
                      hidden: Rep)
    requires CryptoOk(x) && OthersOk(others) && RepOk(hidden) && osVersion < U32 && osPatch < U32
    requires ParseBlob(x, others, s, hidden).Key?
    requires var k := ParseBlob(x, others, s, hidden);
             && CheckVersions(k.hw.elems, k.sw.elems, osPatch) == KM_KEY_REQUIRES_UPGRADE
             && LevelOf(k.hw.elems, TAG_OS_PATCHLEVEL).Absent?
    ensures var k := ParseBlob(x, others, s, hidden);
            var v := LevelOf(k.sw.elems, TAG_OS_VERSION);
            Upgrade(x, others, km1, osVersion, osPatch, s, hidden).NewBlob? <==>
            !HardwareKey(km1, k.hw.elems) && !(v.Level? && 0 < osVersion < v.n)
  {
    hide ParseBlob, LevelOf, HardwareKey, Upgrade, CheckVersions, UpToDate, WouldDowngrade, RepOk;
    var k := ParseBlob(x, others, s, hidden);
    UpgradeRefuses(x, others, km1, osVersion, osPatch, s, hidden);
    CheckMeans(k.hw.elems, k.sw.elems, osPatch);
    VersionsMean(k.sw.elems, osVersion, osPatch);
    UpgradeErrors(x, others, km1, osVersion, osPatch, s, hidden);
  }

  /** A blob that parses is refused with one error only. */
  lemma UpgradeErrors(x: Crypto, others: seq<byte> -> OldBlob, km1: bool, osVersion: nat, osPatch: nat, s: seq<byte>,
                      hidden: Rep)
    requires CryptoOk(x) && OthersOk(others) && RepOk(hidden) && osVersion < U32 && osPatch < U32
    requires ParseBlob(x, others, s, hidden).Key?
    ensures var u := Upgrade(x, others, km1, osVersion, osPatch, s, hidden);
            u.Failure? ==> u.error == KM_INVALID_ARGUMENT
  {
    hide ParseBlob, UpgradeEntries, HardwareKey, EncodeAssured, RepOk;
  }

  /**
   After an upgrade of a software blob the version check passes if and only if the
   hardware set has no patch level or the current one; an older one in hardware keeps
   asking for an upgrade that never comes.
   */
  lemma CheckAfterUpgrade(x: Crypto, others: seq<byte> -> OldBlob, km1: bool, osVersion: nat, osPatch: nat,
                          s: seq<byte>, hidden: Rep)
    requires CryptoOk(x) && OthersOk(others) && RepOk(hidden) && osVersion < U32 && osPatch < U32
    requires SoftwareBlob(x, s, hidden) && |s| + 16 < U32
    requires Upgrade(x, others, km1, osVersion, osPatch, s, hidden).NewBlob?
    ensures var t := LevelOf(ParseBlob(x, others, s, hidden).hw.elems, TAG_OS_PATCHLEVEL);
            var s' := Upgrade(x, others, km1, osVersion, osPatch, s, hidden).blob;
            var k' := ParseBlob(x, others, s', hidden);
            && k'.Key?
            && (CheckVersions(k'.hw.elems, k'.sw.elems, osPatch) == KM_OK <==> t.Absent? || t.n == osPatch)
            && (CheckVersions(k'.hw.elems, k'.sw.elems, osPatch) == KM_KEY_REQUIRES_UPGRADE <==>
                t.Level? && t.n < osPatch)
  {
    hide ParseBlob, ParseAssured, ParseOcb, LevelOf, HardwareKey, Upgrade, CheckVersions, RepOk, Others, CryptoOk,
         OthersOk, WouldDowngrade;
    UpgradeKeepsSoftwareKey(x, others, km1, osVersion, osPatch, s, hidden);
    var s' := Upgrade(x, others, km1, osVersion, osPatch, s, hidden).blob;
    var k' := ParseBlob(x, others, s', hidden);
    CheckMeans(k'.hw.elems, k'.sw.elems, osPatch);
  }

  /** Which parser a key comes from: an assured blob first, then an encrypted one, then the other kinds. */
  lemma ParseOrder(x: Crypto, others: seq<byte> -> OldBlob, s: seq<byte>, hidden: Rep)
    requires CryptoOk(x) && OthersOk(others) && RepOk(hidden)
    ensures var a, b, k := ParseAssured(x, s, hidden), ParseOcb(x, s, hidden), ParseBlob(x, others, s, hidden);
            && (a.Unwrapped? ==> k == Key(a.material, a.hw, a.sw))
            && (a.Refused? && b.Unwrapped? ==> k == Key(b.material, b.hw, b.sw))
            && (a.Refused? && b.Refused? ==>
                  match others(s)
                  case OldBlob(m, hw, sw) =>
                    && k.Key? && k.material == m && RepOk(k.hw) && RepOk(k.sw)
                    && Params(k.hw) == hw && Params(k.sw) == sw
                  case NotOld(e) => k == NoKey(e))
  {
    hide ParseAssured, ParseOcb, PushAll, Params, RepOk, ParamOk;
    var o := others(s);
    if o.OldBlob? {
      EmptyDenotes();
      PushAllOk(EMPTY, o.hw);
      PushAllOk(EMPTY, o.sw);
      assert [] + o.hw == o.hw && [] + o.sw == o.sw;
    }
  }
}
