/**
 Reading and upgrading key blobs: BuildHiddenAuthorizations, ParseKeyBlob,
 UpgradeIntegerTag and UpgradeKeyBlob of keymaster/soft_keymaster_context.cpp, and
 CheckVersionInfo of keymaster/android_keymaster.cpp.
 */
module SoftKeymaster {
  import opened Wrappers
  import opened Basics
  import opened Bytes
  import opened AuthData
  import opened AuthorizationSets
  import opened BlobFormats
  import opened KeyWrapping
  import opened OcbBlobs
  import opened IntegrityBlobs
  import opened VersionTags

  const TAG_APPLICATION_ID: nat := 0x9000_0259
  const TAG_APPLICATION_DATA: nat := 0x9000_02BC
  const TAG_ROOT_OF_TRUST: nat := 0x9000_02C0

  const EMPTY: Rep := AuthData.Rep([], [])

  // Hidden authorizations.

  /** The first parameter with this tag. */
  function Lookup(ps: seq<Param>, tag: nat): (r: Option<Param>)
    ensures r.None? <==> forall i | 0 <= i < |ps| :: ps[i].tag != tag
    ensures r.Some? ==> r.value in ps && r.value.tag == tag
  {
    if ps == [] then None else if ps[0].tag == tag then Some(ps[0]) else Lookup(ps[1..], tag)
  }

  lemma {:induction false} LookupAt(ps: seq<Param>, tag: nat, i: nat)
    requires i < |ps| && ps[i].tag == tag && forall j | 0 <= j < i :: ps[j].tag != tag
    ensures Lookup(ps, tag) == Some(ps[i])
  {
    if i > 0 {
      LookupAt(ps[1..], tag, i - 1);
    }
  }

  ghost predicate ParamsOk(ps: seq<Param>) {
    forall i | 0 <= i < |ps| :: ParamOk(ps[i])
  }

  function PushFound(r: Rep, ps: seq<Param>, tag: nat): Rep
    requires forall i | 0 <= i < |ps| :: ParamOk(ps[i])
  {
    match Lookup(ps, tag)
    case None => r
    case Some(p) => Push(r, p)
  }

  /** The set BuildHiddenAuthorizations makes. */
  function HiddenRep(ps: seq<Param>, root: seq<byte>): (r: Rep)
    requires forall i | 0 <= i < |ps| :: ParamOk(ps[i])
    ensures RepOk(r)
  {
    EmptyDenotes();
    FoundOk(EMPTY, ps, TAG_APPLICATION_ID);
    FoundOk(PushFound(EMPTY, ps, TAG_APPLICATION_ID), ps, TAG_APPLICATION_DATA);
    PushOk(PushFound(PushFound(EMPTY, ps, TAG_APPLICATION_ID), ps, TAG_APPLICATION_DATA),
           Param(TAG_ROOT_OF_TRUST, Data(root)));
    Push(PushFound(PushFound(EMPTY, ps, TAG_APPLICATION_ID), ps, TAG_APPLICATION_DATA),
         Param(TAG_ROOT_OF_TRUST, Data(root)))
  }

  /** It denotes the application id and data, where given, and the root of trust. */
  lemma HiddenDenotes(ps: seq<Param>, root: seq<byte>)
    requires ParamsOk(ps)
    ensures var found := (tag: nat) => match Lookup(ps, tag) { case None => [] case Some(p) => [p] };
            Params(HiddenRep(ps, root)) ==
            found(TAG_APPLICATION_ID) + found(TAG_APPLICATION_DATA) + [Param(TAG_ROOT_OF_TRUST, Data(root))]
  {
    hide Push, Params, RepOk, Lookup;
    EmptyDenotes();
    FoundOk(EMPTY, ps, TAG_APPLICATION_ID);
    FoundOk(PushFound(EMPTY, ps, TAG_APPLICATION_ID), ps, TAG_APPLICATION_DATA);
    PushOk(PushFound(PushFound(EMPTY, ps, TAG_APPLICATION_ID), ps, TAG_APPLICATION_DATA),
           Param(TAG_ROOT_OF_TRUST, Data(root)));
  }

  lemma EmptyDenotes()
    ensures RepOk(EMPTY) && Params(EMPTY) == []
  {
  }

  lemma FoundOk(r: Rep, ps: seq<Param>, tag: nat)
    requires RepOk(r) && ParamsOk(ps)
    ensures RepOk(PushFound(r, ps, tag))
    ensures Params(PushFound(r, ps, tag)) == Params(r) + match Lookup(ps, tag) { case None => [] case Some(p) => [p] }
  {
    hide Push, Params, RepOk;
    match Lookup(ps, tag)
    case None =>
    case Some(p) => PushOk(r, p);
  }

  /** What lookups in a set see: an invalid set shows nothing. */
  ghost function Visible(a: AuthorizationSet): (ps: seq<Param>)
    reads a, a.elems, a.indirect
    requires a.Valid()
    ensures ParamsOk(ps)
  {
    if a.error == OK then a.Denotes() else []
  }

  ghost function Entries(a: AuthorizationSet): seq<Elem>
    reads a, a.elems, a.indirect
    requires a.Valid()
  {
    if a.error == OK then a.Rep().elems else []
  }

  method AddIfPresent(input: AuthorizationSet, tag: nat, hidden: AuthorizationSet)
    requires input.Valid() && hidden.Valid() && hidden.error == OK && hidden.indirectSize <= hidden.indirectCapacity
    requires Apart(input, hidden)
    modifies hidden, hidden.elems, hidden.indirect
    ensures hidden.Valid() && hidden.error == OK && hidden.indirectSize <= hidden.indirectCapacity
    ensures hidden.Rep() == PushFound(old(hidden.Rep()), old(Visible(input)), tag)
    ensures Renewed(hidden)
  {
    hide Push, Params, RepOk, ToElems, PointInto, Lookup;
    ghost var ps := Visible(input);
    assert input.error == OK ==> forall j | 0 <= j < input.elemsSize :: ps[j].tag == input.elems[j].tag by {
      if input.error == OK {
        TagsSeen(input);
      }
    }
    var pos := input.Find(tag, -1);
    if pos != -1 {
      LookupAt(ps, tag, pos);
      var p := input.At(pos);
      var ok := hidden.PushBack(p);
    } else {
      assert Lookup(ps, tag) == None;
    }
  }

  /** BuildHiddenAuthorizations. */
  method BuildHiddenAuthorizations(input: AuthorizationSet, root: seq<byte>) returns (hidden: AuthorizationSet)
    requires input.Valid()
    ensures fresh(hidden) && hidden.Valid() && hidden.error == OK
    ensures hidden.Rep() == HiddenRep(Visible(input), root)
  {
    hide Push, Params, RepOk, Lookup, AuthorizationSet.Valid, AuthorizationSet.Rep, Visible;
    hidden := new AuthorizationSet();
    AddIfPresent(input, TAG_APPLICATION_ID, hidden);
    AddIfPresent(input, TAG_APPLICATION_DATA, hidden);
    var ok := hidden.PushBack(Param(TAG_ROOT_OF_TRUST, Data(root)));
  }

  // Parsing.

  /** What the parsers for other kinds of blobs make of one: a key, or an error. */
  datatype OldBlob = OldBlob(material: seq<byte>, hw: seq<Param>, sw: seq<Param>) | NotOld(error: KmError)

  ghost predicate OthersOk(others: seq<byte> -> OldBlob) {
    forall s :: match others(s)
                case OldBlob(_, hw, sw) => ParamsOk(hw) && ParamsOk(sw)
                case NotOld(e) => e != KM_OK
  }

  datatype Parsed = Key(material: seq<byte>, hw: Rep, sw: Rep) | NoKey(error: KmError)

  /** ParseKeyBlob: integrity-assured blobs, then OCB-encrypted ones, then the other kinds. */
  ghost function ParseBlob(x: Crypto, others: seq<byte> -> OldBlob, s: seq<byte>, hidden: Rep): Parsed
    requires CryptoOk(x) && OthersOk(others) && RepOk(hidden)
  {
    match ParseAssured(x, s, hidden)
    case Unwrapped(m, hw, sw) => Key(m, hw, sw)
    case Refused =>
      match ParseOcb(x, s, hidden)
      case Unwrapped(m, hw, sw) => Key(m, hw, sw)
      case Refused =>
        match others(s)
        case OldBlob(m, hw, sw) => Key(m, PushAll(EMPTY, hw), PushAll(EMPTY, sw))
        case NotOld(e) => NoKey(e)
  }

  /** ParseKeyBlob once the hidden authorizations are built. */
  method ParseWithHidden(x: Crypto, others: seq<byte> -> OldBlob, blob: array<byte>, hidden: AuthorizationSet,
                      hw: AuthorizationSet, sw: AuthorizationSet)
    returns (error: KmError, material: seq<byte>)
    requires CryptoOk(x) && OthersOk(others) && hidden.Valid() && hw.Valid() && sw.Valid()
    requires Apart(hw, sw) && hidden != hw && hidden != sw
    requires ParseAssured(x, blob[..], hidden.Rep()).Refused? ==> InLimits(blob[..])
    modifies hw, sw
    ensures hw.Valid() && sw.Valid() && hidden.Valid() && Renewed(hw) && Renewed(sw) && Apart(hw, sw)
    ensures match ParseBlob(x, others, blob[..], hidden.Rep())
            case Key(m, h, w) =>
              error == KM_OK && material == m && hw.Rep() == h && sw.Rep() == w && hw.error == sw.error == OK
            case NoKey(e) => error == e != KM_OK
  {
    hide CryptoOk, ParseAssured, ParseOcb, InLimits, PushAll, AuthorizationSet.Valid, AuthorizationSet.Rep;
    error, material := DeserializeIntegrityAssuredBlob(x, blob, hidden, hw, sw);
    if error != KM_INVALID_KEY_BLOB {
      return;
    }
    error, material := ParseOcbAuthEncryptedBlob(x, blob[..], hidden, hw, sw);
    if error != KM_INVALID_KEY_BLOB {
      return;
    }
    match others(blob[..])
    case OldBlob(m, h, w) =>
      var ok := hw.Reinitialize(h);
      ok := sw.Reinitialize(w);
      return KM_OK, m;
    case NotOld(e) =>
      return e, [];
  }

  /** ParseKeyBlob. */
  method ParseKeyBlob(x: Crypto, others: seq<byte> -> OldBlob, blob: array<byte>, params: AuthorizationSet,
                      root: seq<byte>, hw: AuthorizationSet, sw: AuthorizationSet)
    returns (error: KmError, material: seq<byte>)
    requires CryptoOk(x) && OthersOk(others) && params.Valid() && hw.Valid() && sw.Valid()
    requires Apart(hw, sw) && params != hw && params != sw
    requires ParseAssured(x, blob[..], HiddenRep(Visible(params), root)).Refused? ==> InLimits(blob[..])
    modifies hw, sw
    ensures hw.Valid() && sw.Valid() && params.Valid() && Renewed(hw) && Renewed(sw) && Apart(hw, sw)
    ensures match ParseBlob(x, others, blob[..], HiddenRep(Visible(params), root))
            case Key(m, h, w) =>
              error == KM_OK && material == m && hw.Rep() == h && sw.Rep() == w && hw.error == sw.error == OK
            case NoKey(e) => error == e != KM_OK
  {
    hide CryptoOk, OthersOk, RepOk, HiddenRep, ParseAssured, InLimits, ParseBlob, Visible, AuthorizationSet.Valid,
         AuthorizationSet.Rep;
    var hidden := BuildHiddenAuthorizations(params, root);
    error, material := ParseWithHidden(x, others, blob, hidden, hw, sw);
  }

  // Upgrading.

  /** UpgradeIntegerTag. */
  method UpgradeIntegerTag(tag: nat, v: nat, a: AuthorizationSet) returns (ok: bool, changed: bool)
    requires a.Valid() && a.error == OK && IsVersion(tag) && v < U32
    modifies a, a.elems, a.indirect
    ensures a.Valid() && a.error == OK
    ensures Renewed(a)
    ensures match UpgradeTag(old(a.Rep()).elems, tag, v)
            case Downgrade => !ok
            case Upgraded(es, c) => ok && changed == c && a.Rep() == old(a.Rep()).(elems := es)
  {
    hide RepOk, ToElems, PointInto;
    ghost var es := a.Rep().elems;
    TagsSeen(a);
    NumberSeen(a);
    assert KindOf(tag) == Word;
    var index := a.Find(tag, -1);
    assert index == IndexOf(es, tag);
    if index == -1 {
      ok := a.PushBack(Param(tag, Num(v)));
      return true, true;
    }
    var n := a.elems[index].cell.n;
    if n > v {
      return false, false;
    }
    if n != v {
      a.SetInteger(index, v);
      return true, true;
    }
    return true, false;
  }

  lemma NumberSeen(a: AuthorizationSet)
    requires a.Valid()
    ensures forall j | 0 <= j < a.elemsSize && KindOf(a.elems[j].tag) == Word ::
              a.elems[j].cell.Inline? && a.Rep().elems[j].payload == Number(a.elems[j].cell.n)
  {
    forall j | 0 <= j < a.elemsSize && KindOf(a.elems[j].tag) == Word
      ensures a.elems[j].cell.Inline? && a.Rep().elems[j].payload == Number(a.elems[j].cell.n)
    {
      assert ElemOk(a.Rep().elems[j], |a.Rep().area|);
    }
  }

  /** The special case of UpgradeKeyBlob for development releases, which have OS version zero. */
  method ResetOsVersion(osVersion: nat, a: AuthorizationSet) returns (changed: bool)
    requires a.Valid() && a.error == OK
    modifies a.elems
    ensures a.Valid()
    ensures var r := ResetVersion(old(a.Rep()).elems, osVersion);
            changed == r.changed && a.Rep() == old(a.Rep()).(elems := r.elems)
  {
    hide RepOk, ToElems, PointInto;
    changed := false;
    if osVersion == 0 {
      ghost var es := a.Rep().elems;
      TagsSeen(a);
      NumberSeen(a);
      var pos := a.Find(TAG_OS_VERSION, -1);
      assert pos == IndexOf(es, TAG_OS_VERSION);
      if pos != -1 && a.elems[pos].cell.n != 0 {
        a.SetInteger(pos, 0);
        changed := true;
      }
    }
  }

  /** The edits of UpgradeKeyBlob to the software-enforced set. */
  method UpgradeVersions(osVersion: nat, osPatch: nat, a: AuthorizationSet) returns (ok: bool, changed: bool)
    requires a.Valid() && a.error == OK && osVersion < U32 && osPatch < U32
    modifies a, a.elems, a.indirect
    ensures a.Valid()
    ensures match UpgradeEntries(old(a.Rep()).elems, osVersion, osPatch)
            case Downgrade => !ok
            case Upgraded(es, c) => ok && changed == c && a.Rep() == old(a.Rep()).(elems := es)
  {
    hide UpgradeTag, ResetVersion, AuthorizationSet.Valid, AuthorizationSet.Rep;
    var c1 := ResetOsVersion(osVersion, a);
    var c2, c3;
    ok, c2 := UpgradeIntegerTag(TAG_OS_VERSION, osVersion, a);
    if !ok {
      return false, false;
    }
    ok, c3 := UpgradeIntegerTag(TAG_OS_PATCHLEVEL, osPatch, a);
    changed := c1 || c2 || c3;
  }

  datatype Outcome = Failure(error: KmError) | Unchanged | NewBlob(blob: seq<byte>)

  /** A hardware key of a keymaster1 device has no version to upgrade. */
  predicate HardwareKey(km1: bool, tee: seq<Elem>) {
    km1 && IndexOf(tee, TAG_PURPOSE) != -1 && IndexOf(tee, TAG_OS_PATCHLEVEL) == -1
  }

  lemma ParsedOk(x: Crypto, others: seq<byte> -> OldBlob, s: seq<byte>, hidden: Rep)
    requires CryptoOk(x) && OthersOk(others) && RepOk(hidden) && ParseBlob(x, others, s, hidden).Key?
    ensures RepOk(ParseBlob(x, others, s, hidden).hw) && RepOk(ParseBlob(x, others, s, hidden).sw)
  {
    hide ParseBody, Mac, Parse, PushAll, OcbSpec.Decrypt, RepOk, Params, ParamOk;
    if ParseAssured(x, s, hidden).Unwrapped? {
      BodySound(s[..|s| - HMAC_SIZE]);
    } else if ParseOcb(x, s, hidden).Unwrapped? {
      ParsedSound(s, [], []);
    } else {
      EmptyDenotes();
      PushAllOk(EMPTY, others(s).hw);
      PushAllOk(EMPTY, others(s).sw);
    }
  }

  /** UpgradeKeyBlob as a function of the blob. */
  ghost function Upgrade(x: Crypto, others: seq<byte> -> OldBlob, km1: bool, osVersion: nat, osPatch: nat,
                         s: seq<byte>, hidden: Rep): Outcome
    requires CryptoOk(x) && OthersOk(others) && RepOk(hidden) && osVersion < U32 && osPatch < U32
  {
    match ParseBlob(x, others, s, hidden)
    case NoKey(e) => Failure(e)
    case Key(m, tee, sw) =>
      if HardwareKey(km1, tee.elems) then Failure(KM_INVALID_ARGUMENT)
      else
        match UpgradeEntries(sw.elems, osVersion, osPatch)
        case Downgrade => Failure(KM_INVALID_ARGUMENT)
        case Upgraded(es, changed) =>
          if !changed then Unchanged
          else
            ParsedOk(x, others, s, hidden);
            UpgradeEntriesOk(sw.elems, osVersion, osPatch, |sw.area|);
            NewBlob(EncodeAssured(x, m, hidden, tee, AuthData.Rep(es, sw.area)))
  }

  method IsHardwareKey(km1: bool, tee: AuthorizationSet) returns (b: bool)
    requires tee.Valid() && tee.error == OK
    ensures b == HardwareKey(km1, tee.Rep().elems)
  {
    hide RepOk, ToElems, PointInto;
    TagsSeen(tee);
    var p1 := tee.Find(TAG_PURPOSE, -1);
    var p2 := tee.Find(TAG_OS_PATCHLEVEL, -1);
    return km1 && p1 != -1 && p2 == -1;
  }

  /** UpgradeKeyBlob; an empty result stands for a key blob that is left alone. */
  method UpgradeKeyBlob(x: Crypto, others: seq<byte> -> OldBlob, km1: bool, osVersion: nat, osPatch: nat,
                        blob: array<byte>, params: AuthorizationSet, root: seq<byte>)
    returns (error: KmError, upgraded: seq<byte>)
    requires CryptoOk(x) && OthersOk(others) && params.Valid() && osVersion < U32 && osPatch < U32
    requires ParseAssured(x, blob[..], HiddenRep(Visible(params), root)).Refused? ==> InLimits(blob[..])
    ensures match Upgrade(x, others, km1, osVersion, osPatch, blob[..], HiddenRep(Visible(params), root))
            case Failure(e) => error == e && upgraded == []
            case Unchanged => error == KM_OK && upgraded == []
            case NewBlob(s) => error == KM_OK && upgraded == s
  {
    hide CryptoOk, OthersOk, RepOk, HiddenRep, ParseAssured, InLimits, ParseBlob, UpgradeEntries, EncodeAssured,
         HardwareKey, Visible, AuthorizationSet.Valid, AuthorizationSet.Rep;
    var tee := new AuthorizationSet();
    var sw := new AuthorizationSet();
    var material;
    error, material := ParseKeyBlob(x, others, blob, params, root, tee, sw);
    if error != KM_OK {
      return error, [];
    }
    var hardware := IsHardwareKey(km1, tee);
    if hardware {
      return KM_INVALID_ARGUMENT, [];
    }
    ghost var ps := Visible(params);
    var ok, changed := UpgradeVersions(osVersion, osPatch, sw);
    assert Visible(params) == ps;
    if !ok {
      return KM_INVALID_ARGUMENT, [];
    }
    if !changed {
      return KM_OK, [];
    }
    upgraded := Rewrite(x, material, params, root, tee, sw);
    return KM_OK, upgraded;
  }

  /** Serializes an upgraded key under the hidden authorizations of the parameters. */
  method Rewrite(x: Crypto, material: seq<byte>, params: AuthorizationSet, root: seq<byte>,
                 tee: AuthorizationSet, sw: AuthorizationSet)
    returns (blob: seq<byte>)
    requires CryptoOk(x) && params.Valid() && tee.Valid() && sw.Valid()
    ensures blob == EncodeAssured(x, material, HiddenRep(Visible(params), root), tee.Rep(), sw.Rep())
  {
    hide CryptoOk, RepOk, HiddenRep, EncodeAssured, Visible, AuthorizationSet.Valid, AuthorizationSet.Rep;
    var hidden := BuildHiddenAuthorizations(params, root);
    var bytes := SerializeIntegrityAssuredBlob(x, material, hidden, tee, sw);
    blob := bytes[..];
  }
}
