/** The binary codec of can.c. Whatever byte order is set, it works in the big one, and sets the other
    again afterwards. */
module Can {
  import opened Bytes
  import opened CanSpec
  import opened S11n
  import opened S11nSpec

  /** fdu_s11n_read_can_bin_. */
  method ReadBig(s: Serializer, a: array<byte>, start: nat, end: nat)
    returns (ok: bool, id: nat, payload: seq<byte>, start': nat)
    requires s.endianness == BigEndian && end <= a.Length
    ensures start <= end ==> Reads(Decode(a[start..end]), start, ok, id, payload, start')
    ensures start > end ==> !ok && start' == start
  {
    ok, id, payload, start' := false, 0, [], start;
    if start > end || end - start < 3 {
      return;
    }
    var extended := a[start] >= 0x80;
    if extended && end - start < 5 {
      return;
    }
    var n := if extended then 4 else 2;
    var size := a[start + n];
    if size > 8 {
      return;
    }
    if end - start < n + 1 + size {
      return;
    }
    Parts(a, start, end, n, size);
    var raw;
    if extended {
      ok, raw, start' := s.ReadUint32(a, start, end);
      id := raw % EXT_IDS + EXT_ID_BIT;
    } else {
      ok, raw, start' := s.ReadUint16(a, start, end);
      id := raw % STD_IDS;
    }
    payload := a[start' + 1..start' + 1 + size];
    start' := start' + 1 + size;
  }

  /** How reading goes if `d` is what the bytes are. */
  predicate Reads(d: Decoded, start: nat, ok: bool, id: nat, payload: seq<byte>, start': nat) {
    if d.Got? then ok && id == d.id && payload == d.payload && start' == start + d.used
    else !ok && start' == start
  }

  lemma Parts(a: array<byte>, start: nat, end: nat, n: nat, size: nat)
    requires start + n + 1 + size <= end <= a.Length
    ensures var s := a[start..end];
            && s[..n] == a[start..start + n] && s[n + 1..n + 1 + size] == a[start + n + 1..start + n + 1 + size]
            && s[n] == a[start + n] && s[0] == a[start]
  {
    Slice(a, start, end, 0, n);
    Slice(a, start, end, n + 1, n + 1 + size);
  }

  lemma Slice(a: array<byte>, start: nat, end: nat, i: nat, j: nat)
    requires i <= j && start + j <= end <= a.Length
    ensures a[start..end][i..j] == a[start + i..start + j]
  {
    var x, y := a[start..end][i..j], a[start + i..start + j];
    forall k | 0 <= k < j - i ensures x[k] == y[k] {
      assert x[k] == a[start..end][i + k];
    }
  }

  /** fdu_s11n_read_can_bin. */
  method ReadBin(s: Serializer, a: array<byte>, start: nat, end: nat)
    returns (ok: bool, id: nat, payload: seq<byte>, start': nat)
    requires end <= a.Length
    modifies s
    ensures s.endianness == old(s.endianness)
    ensures start <= end ==> Reads(Decode(a[start..end]), start, ok, id, payload, start')
    ensures start > end ==> !ok && start' == start
  {
    var order := s.endianness;
    if order == BigEndian {
      ok, id, payload, start' := ReadBig(s, a, start, end);
    } else {
      s.endianness := BigEndian;
      ok, id, payload, start' := ReadBig(s, a, start, end);
      s.endianness := order;
    }
  }

  /** fdu_s11n_write_can_bin_. */
  method WriteBig(s: Serializer, f: Frame, a: array<byte>, start: nat, end: nat) returns (ok: bool, start': nat)
    requires s.endianness == BigEndian && Typed(f) && end <= a.Length
    modifies a
    ensures ok == (start <= end && f.size <= 8 && end - start >= IdSize(f.id) + 1 + f.size)
    ensures ok ==> start' == start + |Encode(f)| && a[start..start'] == Encode(f)
    ensures forall i :: 0 <= i < a.Length && !(ok && start <= i < start') ==> a[i] == old(a[i])
    ensures !ok ==> start' == start
  {
    ok, start' := false, start;
    if start > end || f.size > 8 {
      return;
    }
    var extended := Extended(f.id);
    if end - start < (if extended then 5 else 3) + f.size {
      return;
    }
    if extended {
      ok, start' := s.WriteUint32(f.id, a, start, end);
    } else {
      LowBytes(f.id);
      ok, start' := s.WriteUint16(f.id % 0x1_0000, a, start, end);
    }
    start' := PutData(f, a, start, start');
  }

  /** The size and the data come behind the id. */
  method PutData(f: Frame, a: array<byte>, start: nat, at: nat) returns (start': nat)
    requires Writable(f) && at == start + IdSize(f.id) && at + 1 + f.size <= a.Length
             && a[start..at] == Big(f.id, IdSize(f.id))
    modifies a
    ensures start' == start + |Encode(f)| && a[start..start'] == Encode(f)
    ensures forall i :: 0 <= i < a.Length && !(at <= i < start') ==> a[i] == old(a[i])
  {
    ghost var head := a[start..at];
    a[at] := f.size;
    var k := 0;
    while k < f.size
      invariant k <= f.size && a[start..at] == head && a[at] == f.size
      invariant forall j :: at + 1 <= j < at + 1 + k ==> a[j] == f.data[j - (at + 1)]
      invariant forall i :: 0 <= i < a.Length && !(at <= i < at + 1 + f.size) ==> a[i] == old(a[i])
    {
      a[at + 1 + k] := f.data[k];
      k := k + 1;
    }
    start' := at + 1 + f.size;
    assert a[start..start'] == a[start..at] + [a[at]] + a[at + 1..start'];
    assert a[at + 1..start'] == f.data[..f.size];
  }

  /** Two bytes do not hold more. */
  lemma LowBytes(v: nat)
    ensures Big(v % 0x1_0000, 2) == Big(v, 2)
  {
    TwoBytes(BigEndian, v);
    TwoBytes(BigEndian, v % 0x1_0000);
    var low, high := v % 0x1_0000, v / 0x1_0000;
    assert v == high * 0x1_0000 + low;
    assert v / 256 == high * 256 + low / 256;
  }

  /** fdu_s11n_write_can_bin. */
  method WriteBin(s: Serializer, f: Frame, a: array<byte>, start: nat, end: nat) returns (ok: bool, start': nat)
    requires Typed(f) && end <= a.Length
    modifies s, a
    ensures s.endianness == old(s.endianness)
    ensures ok == (start <= end && f.size <= 8 && end - start >= IdSize(f.id) + 1 + f.size)
    ensures ok ==> start' == start + |Encode(f)| && a[start..start'] == Encode(f)
    ensures forall i :: 0 <= i < a.Length && !(ok && start <= i < start') ==> a[i] == old(a[i])
    ensures !ok ==> start' == start
  {
    var order := s.endianness;
    if order == BigEndian {
      ok, start' := WriteBig(s, f, a, start, end);
    } else {
      s.endianness := BigEndian;
      ok, start' := WriteBig(s, f, a, start, end);
      s.endianness := order;
    }
  }
}
