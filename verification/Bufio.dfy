/** The buffered services of utils.c, one at a time: what each piece of a call does to the service
    between two of the user's callbacks. */
module Bufio {
  import opened Bytes

  // ----- buffers

  class Buffer {
    const data: array<byte>
    var filled: nat

    constructor (size: nat)
      ensures fresh(this) && fresh(data) && data.Length == size && Valid() && Contents() == []
    {
      data := new byte[size];
      filled := 0;
    }

    predicate Valid()
      reads this
    {
      filled <= data.Length
    }

    function Contents(): seq<byte>
      requires Valid()
      reads this, data
    {
      data[..filled]
    }

    function Room(): int
      reads this
    {
      data.Length - filled
    }

    /** What read or memcpy does: bytes come behind those that are there. */
    method Append(bytes: seq<byte>)
      requires Valid() && |bytes| <= Room()
      modifies this, data
      ensures Valid() && Contents() == old(Contents()) + bytes
    {
      var i := 0;
      while i < |bytes|
        invariant i <= |bytes| && filled == old(filled)
        invariant data[..filled] == old(Contents()) && data[filled..filled + i] == bytes[..i]
      {
        data[filled + i] := bytes[i];
        i := i + 1;
      }
      assert data[..filled + i] == data[..filled] + data[filled..filled + i];
      filled := filled + |bytes|;
    }

    /** The first `n` bytes are gone, the others move to the front. */
    method Drop(n: nat)
      requires Valid() && n <= filled
      modifies this, data
      ensures Valid() && Contents() == old(Contents())[n..]
    {
      filled := filled - n;
      var i := 0;
      while i < filled
        invariant i <= filled && filled == old(filled) - n
        invariant forall j :: 0 <= j < i ==> data[j] == old(data[..])[j + n]
        invariant forall j :: i <= j < data.Length ==> data[j] == old(data[..])[j]
      {
        data[i] := data[i + n];
        i := i + 1;
      }
    }
  }

  /** fdu_bufio_transfer: as many bytes as there are, and as there is room for, change over; none is
      lost and none comes twice. */
  method Transfer(dst: Buffer, src: Buffer) returns (bytes: nat)
    requires dst.Valid() && src.Valid() && dst != src && dst.data != src.data
    modifies dst, src, dst.data, src.data
    ensures dst.Valid() && src.Valid()
    ensures dst.Contents() + src.Contents() == old(dst.Contents()) + old(src.Contents())
    ensures bytes == old(src.filled) - src.filled == dst.filled - old(dst.filled)
    ensures src.filled == 0 || dst.Room() == 0
  {
    var offer, space := src.filled, dst.data.Length - dst.filled;
    bytes := if offer < space then offer else space;
    if bytes == 0 {
      return;
    }
    ghost var all, d := src.Contents(), dst.Contents();
    dst.Append(src.data[..bytes]);
    src.Drop(bytes);
    Moved(d, all, bytes);
  }

  lemma Moved(d: seq<byte>, s: seq<byte>, n: nat)
    requires n <= |s|
    ensures d + s[..n] + s[n..] == d + s
  {
    assert s == s[..n] + s[n..];
  }
}
