/** class Buffer of keymaster/serializable.cpp: a growable first-in first-out byte queue. */
module ByteBuffer {
  import opened Bytes
  import opened Codec
  import Memory

  class Buffer {
    var data: array<byte>
    var readPos: nat
    var writePos: nat

    ghost predicate Valid()
      reads this
    {
      readPos <= writePos <= data.Length
    }

    /** The bytes written and not yet read. */
    function Contents(): (s: seq<byte>)
      reads this, data
      requires Valid()
      ensures |s| == writePos - readPos
    {
      data[readPos..writePos]
    }

    constructor ()
      ensures Valid() && Contents() == [] && fresh(data)
    {
      data := new byte[0];
      readPos, writePos := 0, 0;
    }

    /** Clear. */
    method Clear()
      modifies this
      ensures Valid() && Contents() == [] && fresh(data)
    {
      data := new byte[0];
      readPos, writePos := 0, 0;
    }

    /** Reinitialize with a copy of the given bytes. */
    method Reinitialize(s: seq<byte>)
      modifies this
      ensures Valid() && Contents() == s && fresh(data)
    {
      data := new byte[|s|](i requires 0 <= i < |s| => s[i]);
      readPos, writePos := 0, |s|;
    }

    /** reserve: makes room for n more bytes without changing the contents. */
    method Reserve(n: nat)
      requires Valid()
      modifies this
      ensures Valid() && Contents() == old(Contents())
      ensures data.Length - writePos >= n
      ensures data == old(data) || fresh(data)
    {
      if data.Length - writePos < n {
        var grown := new byte[data.Length + n - (data.Length - writePos)];
        var k := writePos - readPos;
        forall i | 0 <= i < k {
          grown[i] := data[readPos + i];
        }
        data := grown;
        writePos := k;
        readPos := 0;
      }
    }

    /** Copies bytes to peek_write without advancing. */
    method FillAhead(s: seq<byte>)
      requires Valid() && writePos + |s| <= data.Length
      modifies data
      ensures Contents() == old(Contents())
      ensures data[writePos..writePos + |s|] == s
    {
      Memory.Write(data, writePos, s);
      assert data[..][writePos..writePos + |s|] == s;
      assert data[..][readPos..writePos] == old(data[..])[readPos..writePos];
    }

    /** advance_write: makes bytes filled ahead readable. */
    method AdvanceWrite(n: nat) returns (ok: bool)
      requires Valid()
      modifies this`writePos
      ensures Valid() && ok == (old(writePos) + n <= data.Length)
      ensures ok ==> Contents() == old(Contents()) + old(data[..])[old(writePos)..old(writePos) + n]
      ensures !ok ==> Contents() == old(Contents())
    {
      ok := writePos + n <= data.Length;
      if ok {
        writePos := writePos + n;
      }
    }

    /** write: appends to the queue if there is room. */
    method Write(s: seq<byte>) returns (ok: bool)
      requires Valid()
      modifies this`writePos, data
      ensures Valid() && ok == (|s| <= data.Length - old(writePos))
      ensures Contents() == old(Contents()) + if ok then s else []
    {
      ok := |s| <= data.Length - writePos;
      if ok {
        FillAhead(s);
        writePos := writePos + |s|;
      }
    }

    /** read: takes from the front of the queue if there is enough. */
    method Read(n: nat) returns (ok: bool, s: seq<byte>)
      requires Valid()
      modifies this`readPos
      ensures Valid() && ok == (n <= |old(Contents())|)
      ensures ok ==> |s| == n && s + Contents() == old(Contents())
      ensures !ok ==> Contents() == old(Contents())
    {
      ok := n <= writePos - readPos;
      s := [];
      if ok {
        s := data[readPos..readPos + n];
        readPos := readPos + n;
      }
    }

    /** Deserialize: replaces the contents by the next length-prefixed string, or by nothing. */
    method Deserialize(s: seq<byte>) returns (ok: bool, rest: seq<byte>)
      modifies this
      ensures Valid() && fresh(data)
      ensures ok == GetData(s).Got?
      ensures ok ==> Contents() == GetData(s).value && rest == GetData(s).rest
      ensures !ok ==> Contents() == [] && rest == if |s| < 4 then s else s[4..]
    {
      Clear();
      var d := GetData(s);
      if d.Failed? {
        return false, if |s| < 4 then s else s[4..];
      }
      Reinitialize(d.value);
      return true, d.rest;
    }
  }
}
