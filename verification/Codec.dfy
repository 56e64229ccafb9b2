/**
 The append and copy functions of keymaster/serializable.cpp on byte strings.
 Reading advances a cursor, which is modelled by the bytes still to be read.
 */
module Codec {
  import opened Basics
  import opened Bytes

  function Pow256(n: nat): (p: nat)
    ensures p > 0
  {
    if n == 0 then 1 else 256 * Pow256(n - 1)
  }

  /** The n low bytes of x, least significant first. */
  function LeBytes(x: nat, n: nat): (s: seq<byte>)
    ensures |s| == n
    decreases n
  {
    if n == 0 then [] else [x % 256] + LeBytes(x / 256, n - 1)
  }

  function LeValue(s: seq<byte>): (x: nat)
    ensures x < Pow256(|s|)
  {
    if s == [] then 0 else s[0] + 256 * LeValue(s[1..])
  }

  lemma {:induction false} LeRoundTrip(x: nat, n: nat)
    requires x < Pow256(n)
    ensures LeValue(LeBytes(x, n)) == x
    decreases n
  {
    if n > 0 {
      LeRoundTrip(x / 256, n - 1);
      assert LeBytes(x, n)[1..] == LeBytes(x / 256, n - 1);
    }
  }

  lemma ByteAndRest(b: byte, v: nat)
    ensures (b + 256 * v) % 256 == b && (b + 256 * v) / 256 == v
  {
  }

  lemma {:induction false} LeValueInjective(s: seq<byte>)
    ensures LeBytes(LeValue(s), |s|) == s
  {
    if s != [] {
      LeValueInjective(s[1..]);
      ByteAndRest(s[0], LeValue(s[1..]));
    }
  }

  lemma Pow256Of4And8()
    ensures Pow256(4) == U32 && Pow256(8) == U32 * U32
  {
    assert Pow256(4) == 256 * (256 * (256 * (256 * Pow256(0))));
    assert Pow256(8) == 256 * (256 * (256 * (256 * Pow256(4))));
  }

  /** append_uint32_to_buf, which keeps the low 32 bits. */
  function PutU32(x: nat): (s: seq<byte>)
    ensures |s| == 4
  {
    LeBytes(x % U32, 4)
  }

  function PutU64(x: nat): (s: seq<byte>)
    ensures |s| == 8
  {
    LeBytes(x, 8)
  }

  /** append_size_and_data_to_buf. */
  function PutData(d: seq<byte>): (s: seq<byte>)
    ensures |s| == 4 + |d|
  {
    PutU32(|d|) + d
  }

  datatype Read<+T> = Failed | Got(value: T, rest: seq<byte>)

  /** copy_uint32_from_buf. */
  function GetU32(s: seq<byte>): (r: Read<nat>)
    ensures r.Got? <==> |s| >= 4
    ensures r.Got? ==> r.value < U32 && r.rest == s[4..]
  {
    Pow256Of4And8();
    if |s| < 4 then Failed else Got(LeValue(s[..4]), s[4..])
  }

  function GetU64(s: seq<byte>): (r: Read<nat>)
    ensures r.Got? <==> |s| >= 8
    ensures r.Got? ==> r.value < U32 * U32 && r.rest == s[8..]
  {
    Pow256Of4And8();
    if |s| < 8 then Failed else Got(LeValue(s[..8]), s[8..])
  }

  /** copy_from_buf of n bytes. */
  function GetBytes(s: seq<byte>, n: nat): (r: Read<seq<byte>>) {
    if |s| < n then Failed else Got(s[..n], s[n..])
  }

  /** copy_size_and_data_from_buf. */
  function GetData(s: seq<byte>): (r: Read<seq<byte>>)
    ensures r.Got? ==> |r.value| < U32 && |s| == 4 + |r.value| + |r.rest| && r.rest == s[4 + |r.value|..]
  {
    var size := GetU32(s);
    if size.Failed? || size.value > |size.rest| then Failed
    else Got(size.rest[..size.value], size.rest[size.value..])
  }

  lemma GetPutU32(x: nat, rest: seq<byte>)
    ensures GetU32(PutU32(x) + rest) == Got(x % U32, rest)
  {
    Pow256Of4And8();
    var s := PutU32(x) + rest;
    assert s[..4] == PutU32(x) && s[4..] == rest;
    LeRoundTrip(x % U32, 4);
  }

  lemma GetPutU64(x: nat, rest: seq<byte>)
    requires x < U32 * U32
    ensures GetU64(PutU64(x) + rest) == Got(x, rest)
  {
    Pow256Of4And8();
    var s := PutU64(x) + rest;
    assert s[..8] == PutU64(x) && s[8..] == rest;
    LeRoundTrip(x, 8);
  }

  /** A length-prefixed string is read back exactly when its length fits in 32 bits. */
  lemma GetPutData(d: seq<byte>, rest: seq<byte>)
    ensures GetData(PutData(d) + rest) == Got(d, rest) <==> |d| < U32
  {
    assert PutData(d) + rest == PutU32(|d|) + (d + rest);
    GetPutU32(|d|, d + rest);
    if |d| < U32 {
      assert (d + rest)[..|d|] == d && (d + rest)[|d|..] == rest;
    }
  }

  // Writing into a buffer.

  /** Bytes before pos and from end on are as they were. */
  ghost predicate Framed(before: seq<byte>, after: seq<byte>, pos: nat, end: nat) {
    && |before| == |after|
    && forall i | 0 <= i < |before| && (i < pos || end <= i) :: after[i] == before[i]
  }

  /** The bytes s stand at pos and nothing else has changed. */
  ghost predicate Placed(before: seq<byte>, after: seq<byte>, pos: nat, s: seq<byte>) {
    pos + |s| <= |before| && after == before[..pos] + s + before[pos + |s|..]
  }

  /** append_to_buf: writes nothing that does not fit before end. */
  method Append(buf: array<byte>, pos: nat, end: nat, data: seq<byte>) returns (next: nat)
    requires end <= buf.Length
    modifies buf
    ensures Framed(old(buf[..]), buf[..], pos, end) && pos <= next
    ensures pos + |data| <= end ==> next == pos + |data| && Placed(old(buf[..]), buf[..], pos, data)
    ensures pos + |data| > end ==> next == pos && buf[..] == old(buf[..])
  {
    if pos + |data| <= end {
      forall i | 0 <= i < |data| {
        buf[pos + i] := data[i];
      }
      return pos + |data|;
    }
    return pos;
  }

  lemma PlacedTwice(a: seq<byte>, b: seq<byte>, c: seq<byte>, pos: nat, s: seq<byte>, t: seq<byte>)
    requires Placed(a, b, pos, s) && Placed(b, c, pos + |s|, t)
    ensures Placed(a, c, pos, s + t)
  {
    assert b[..pos + |s|] == a[..pos] + s;
    assert b[pos + |s| + |t|..] == a[pos + |s + t|..];
  }
}
