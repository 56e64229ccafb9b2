/**
 The version entries of a software-enforced set and what UpgradeIntegerTag and
 UpgradeKeyBlob of keymaster/soft_keymaster_context.cpp do to them.
 */
module VersionTags {
  import opened Basics
  import opened AuthData

  const TAG_PURPOSE: nat := 0x2000_0001
  const TAG_OS_VERSION: nat := 0x3000_02C1
  const TAG_OS_PATCHLEVEL: nat := 0x3000_02C2

  /** The first position of a tag, or -1. */
  function IndexOf(es: seq<Elem>, tag: nat): (i: int)
    ensures -1 <= i < |es|
    ensures i == -1 <==> forall j | 0 <= j < |es| :: es[j].tag != tag
    ensures i >= 0 ==> es[i].tag == tag && forall j | 0 <= j < i :: es[j].tag != tag
  {
    if es == [] then -1
    else if es[0].tag == tag then 0
    else
      var i := IndexOf(es[1..], tag);
      if i == -1 then -1 else i + 1
  }

  datatype Level = Absent | Level(n: nat)

  /** The number the first entry with this tag carries. */
  function LevelOf(es: seq<Elem>, tag: nat): Level {
    var i := IndexOf(es, tag);
    if i >= 0 && es[i].payload.Number? then Level(es[i].payload.n) else Absent
  }

  predicate IsVersion(tag: nat) {
    tag == TAG_OS_VERSION || tag == TAG_OS_PATCHLEVEL
  }

  /** The entries that do not record a version. */
  function Others(es: seq<Elem>): seq<Elem> {
    if es == [] then [] else (if IsVersion(es[0].tag) then [] else [es[0]]) + Others(es[1..])
  }

  ghost predicate ElemsOk(es: seq<Elem>, n: nat) {
    forall i | 0 <= i < |es| :: ElemOk(es[i], n)
  }

  datatype TagUpgrade = Downgrade | Upgraded(elems: seq<Elem>, changed: bool)

  /** UpgradeIntegerTag on the entries. */
  function UpgradeTag(es: seq<Elem>, tag: nat, v: nat): TagUpgrade {
    match LevelOf(es, tag)
    case Absent => Upgraded(es + [Elem(tag, Number(v))], true)
    case Level(n) =>
      if n > v then Downgrade
      else if n != v then Upgraded(es[IndexOf(es, tag) := Elem(tag, Number(v))], true)
      else Upgraded(es, false)
  }

  /** Allowing the OS version to go back to zero. */
  function ResetVersion(es: seq<Elem>, osVersion: nat): TagUpgrade {
    var l := LevelOf(es, TAG_OS_VERSION);
    if osVersion == 0 && l.Level? && l.n != 0 then
      Upgraded(es[IndexOf(es, TAG_OS_VERSION) := Elem(TAG_OS_VERSION, Number(0))], true)
    else Upgraded(es, false)
  }

  /** What UpgradeKeyBlob does to the software-enforced entries. */
  function UpgradeEntries(es: seq<Elem>, osVersion: nat, osPatch: nat): TagUpgrade {
    var r := ResetVersion(es, osVersion);
    var v := UpgradeTag(r.elems, TAG_OS_VERSION, osVersion);
    if v.Downgrade? then Downgrade
    else
      var p := UpgradeTag(v.elems, TAG_OS_PATCHLEVEL, osPatch);
      if p.Downgrade? then Downgrade else Upgraded(p.elems, r.changed || v.changed || p.changed)
  }

  /** An edit of version entries: a version tag is appended or one is overwritten. */
  ghost predicate VersionEdit(es: seq<Elem>, es': seq<Elem>, tag: nat, v: nat) {
    var e := Elem(tag, Number(v));
    && IsVersion(tag)
    && (|| (IndexOf(es, tag) == -1 && es' == es + [e])
        || (IndexOf(es, tag) >= 0 && es' == es[IndexOf(es, tag) := e]))
  }

  lemma {:induction false} OthersAppend(es: seq<Elem>, e: Elem)
    ensures Others(es + [e]) == Others(es) + if IsVersion(e.tag) then [] else [e]
  {
    if es == [] {
      assert es + [e] == [e] && [e][1..] == [];
    } else {
      OthersAppend(es[1..], e);
      assert (es + [e])[1..] == es[1..] + [e];
    }
  }

  lemma {:induction false} OthersSet(es: seq<Elem>, i: nat, e: Elem)
    requires i < |es| && IsVersion(es[i].tag) && IsVersion(e.tag)
    ensures Others(es[i := e]) == Others(es)
  {
    if i == 0 {
      assert es[0 := e][1..] == es[1..];
    } else {
      OthersSet(es[1..], i - 1, e);
      assert es[i := e][1..] == es[1..][i - 1 := e];
    }
  }

  lemma {:induction false} SizeSet(es: seq<Elem>, i: nat, e: Elem)
    requires i < |es| && ElemSize(e) == ElemSize(es[i]) && BlobLength(e) == BlobLength(es[i])
    ensures ElemsSize(es[i := e]) == ElemsSize(es) && BlobTotal(es[i := e]) == BlobTotal(es)
  {
    if i == 0 {
      assert es[0 := e][1..] == es[1..];
    } else {
      SizeSet(es[1..], i - 1, e);
      assert es[i := e][1..] == es[1..][i - 1 := e];
    }
  }

  lemma LevelAppend(es: seq<Elem>, e: Elem, t: nat)
    requires e.payload.Number? && IndexOf(es, e.tag) == -1
    ensures LevelOf(es + [e], t) == if t == e.tag then Level(e.payload.n) else LevelOf(es, t)
  {
    var es' := es + [e];
    var k := if t == e.tag then |es| else IndexOf(es, t);
    assert IndexOf(es', t) == k by {
      var k' := IndexOf(es', t);
      assert k' >= 0 ==> es'[k'].tag == t;
      assert k >= 0 ==> es'[k].tag == t;
    }
  }

  lemma LevelSet(es: seq<Elem>, i: nat, e: Elem, t: nat)
    requires e.payload.Number? && i == IndexOf(es, e.tag)
    ensures LevelOf(es[i := e], t) == if t == e.tag then Level(e.payload.n) else LevelOf(es, t)
  {
    var es' := es[i := e];
    var k := IndexOf(es, t);
    assert IndexOf(es', t) == k by {
      var k' := IndexOf(es', t);
      assert k' >= 0 ==> es[k'].tag == t;
      assert k >= 0 ==> es'[k].tag == t;
    }
  }

  /** An edit sets the level of its tag and leaves every other level alone. */
  lemma EditLevel(es: seq<Elem>, es': seq<Elem>, tag: nat, v: nat, t: nat)
    requires VersionEdit(es, es', tag, v)
    ensures LevelOf(es', t) == if t == tag then Level(v) else LevelOf(es, t)
  {
    hide IsVersion, LevelOf;
    var e := Elem(tag, Number(v));
    if IndexOf(es, tag) == -1 {
      LevelAppend(es, e, t);
    } else {
      LevelSet(es, IndexOf(es, tag), e, t);
    }
  }

  /** The sizes and the entries an edit leaves behind. */
  lemma EditOk(es: seq<Elem>, es': seq<Elem>, tag: nat, v: nat, n: nat)
    requires VersionEdit(es, es', tag, v) && v < U32 && ElemsOk(es, n)
    ensures ElemsOk(es', n) && Others(es') == Others(es)
    ensures BlobTotal(es') == BlobTotal(es) && ElemsSize(es) <= ElemsSize(es') <= ElemsSize(es) + 8
    ensures |es| <= |es'| <= |es| + 1
    ensures forall i | 0 <= i < |es'| :: es'[i].tag == tag || (i < |es| && es'[i] == es[i])
  {
    hide Others, ElemsSize, BlobTotal;
    var e := Elem(tag, Number(v));
    var i := IndexOf(es, tag);
    assert KindOf(tag) == Word;
    if i == -1 {
      OthersAppend(es, e);
      SizeAppend(es, e);
    } else {
      assert ElemOk(es[i], n);
      OthersSet(es, i, e);
      SizeSet(es, i, e);
    }
  }

  /** Same entries apart from the versions, at most two more of them. */
  ghost predicate Kept(es: seq<Elem>, es': seq<Elem>, n: nat, more: nat) {
    && ElemsOk(es', n) && Others(es') == Others(es) && BlobTotal(es') == BlobTotal(es)
    && |es| <= |es'| <= |es| + more && ElemsSize(es) <= ElemsSize(es') <= ElemsSize(es) + 8 * more
    && ((forall i | 0 <= i < |es| :: KindOf(es[i].tag) !in {Invalid, Unknown}) ==>
          forall i | 0 <= i < |es'| :: KindOf(es'[i].tag) !in {Invalid, Unknown})
  }

  /**
   UpgradeIntegerTag refuses exactly a lower value; otherwise the tag gets the value,
   the flag says whether anything changed, and doing it again changes nothing.
   */
  lemma UpgradeTagOk(es: seq<Elem>, tag: nat, v: nat, n: nat)
    requires IsVersion(tag) && v < U32 && ElemsOk(es, n)
    ensures var l := LevelOf(es, tag);
            match UpgradeTag(es, tag, v)
            case Downgrade => l.Level? && l.n > v
            case Upgraded(es', changed) =>
              && !(l.Level? && l.n > v)
              && changed == (l != Level(v)) && (!changed ==> es' == es)
              && LevelOf(es', tag) == Level(v) && Kept(es, es', n, 1)
              && forall t | t != tag :: LevelOf(es', t) == LevelOf(es, t)
  {
    hide LevelOf, Others, ElemsSize, BlobTotal;
    var u := UpgradeTag(es, tag, v);
    if u.Upgraded? && u.changed {
      var es' := u.elems;
      assert KindOf(tag) == Word;
      assert VersionEdit(es, es', tag, v) by {
        AbsentIndex(es, tag, n);
      }
      EditOk(es, es', tag, v, n);
      forall t ensures LevelOf(es', t) == if t == tag then Level(v) else LevelOf(es, t) {
        EditLevel(es, es', tag, v, t);
      }
    }
  }

  lemma AbsentIndex(es: seq<Elem>, tag: nat, n: nat)
    requires KindOf(tag) == Word && ElemsOk(es, n)
    ensures LevelOf(es, tag) == Absent <==> IndexOf(es, tag) == -1
  {
    var i := IndexOf(es, tag);
    if i >= 0 {
      assert ElemOk(es[i], n);
    }
  }

  lemma ResetOk(es: seq<Elem>, osVersion: nat, n: nat)
    requires osVersion < U32 && ElemsOk(es, n)
    ensures var r := ResetVersion(es, osVersion);
            var l := LevelOf(es, TAG_OS_VERSION);
            && r.Upgraded? && Kept(es, r.elems, n, 0)
            && r.changed == (osVersion == 0 && l.Level? && l.n != 0) && (!r.changed ==> r.elems == es)
            && LevelOf(r.elems, TAG_OS_VERSION) == (if r.changed then Level(0) else l)
            && LevelOf(r.elems, TAG_OS_PATCHLEVEL) == LevelOf(es, TAG_OS_PATCHLEVEL)
  {
    hide Others, ElemsSize, BlobTotal, LevelOf;
    var r := ResetVersion(es, osVersion);
    if r.changed {
      AbsentIndex(es, TAG_OS_VERSION, n);
      assert VersionEdit(es, r.elems, TAG_OS_VERSION, 0);
      EditOk(es, r.elems, TAG_OS_VERSION, 0, n);
      EditLevel(es, r.elems, TAG_OS_VERSION, 0, TAG_OS_VERSION);
      EditLevel(es, r.elems, TAG_OS_VERSION, 0, TAG_OS_PATCHLEVEL);
      assert |r.elems| == |es|;
      var i := IndexOf(es, TAG_OS_VERSION);
      assert ElemOk(es[i], n);
      SizeSet(es, i, Elem(TAG_OS_VERSION, Number(0)));
    }
  }

  /** An upgrade is refused exactly for a higher version, other than to zero, or a higher patch level. */
  ghost predicate WouldDowngrade(es: seq<Elem>, osVersion: nat, osPatch: nat) {
    var v, p := LevelOf(es, TAG_OS_VERSION), LevelOf(es, TAG_OS_PATCHLEVEL);
    (v.Level? && v.n > osVersion && osVersion != 0) || (p.Level? && p.n > osPatch)
  }

  ghost predicate UpToDate(es: seq<Elem>, osVersion: nat, osPatch: nat) {
    LevelOf(es, TAG_OS_VERSION) == Level(osVersion) && LevelOf(es, TAG_OS_PATCHLEVEL) == Level(osPatch)
  }

  /** What an upgrade does to the entries of a set. */
  lemma UpgradeEntriesOk(es: seq<Elem>, osVersion: nat, osPatch: nat, n: nat)
    requires osVersion < U32 && osPatch < U32 && ElemsOk(es, n)
    ensures match UpgradeEntries(es, osVersion, osPatch)
            case Downgrade => WouldDowngrade(es, osVersion, osPatch)
            case Upgraded(es', changed) =>
              && !WouldDowngrade(es, osVersion, osPatch)
              && UpToDate(es', osVersion, osPatch) && Kept(es, es', n, 2)
              && changed == !UpToDate(es, osVersion, osPatch) && (!changed ==> es' == es)
  {
    hide LevelOf, Others, ElemsSize, BlobTotal, UpgradeTag, ResetVersion, ElemOk;
    ResetOk(es, osVersion, n);
    var r := ResetVersion(es, osVersion);
    UpgradeTagOk(r.elems, TAG_OS_VERSION, osVersion, n);
    var v := UpgradeTag(r.elems, TAG_OS_VERSION, osVersion);
    if v.Upgraded? {
      UpgradeTagOk(v.elems, TAG_OS_PATCHLEVEL, osPatch, n);
    }
  }
}
