/** The readers and writers of s11n.c. They work on `a[start..end]`, and move `start` past what they have
    read or written. Shifts are divisions, and combined bytes are sums. */
module S11n {
  import opened Bytes
  import opened S11nSpec

  lemma BigStep(s: seq<byte>, b: byte)
    ensures FromBig(s + [b]) == FromBig(s) * 256 + b
  {
    assert (s + [b])[..|s|] == s;
  }

  lemma LittleStep(b: byte, s: seq<byte>)
    ensures FromLittle([b] + s) == b + 256 * FromLittle(s)
  {
    assert ([b] + s)[1..] == s;
  }

  /** Two bytes side by side, the higher one first. */
  function Join(high: nat, low: nat): nat {
    high * 256 + low
  }

  lemma Two(e: Endianness, s: seq<byte>)
    requires |s| == 2
    ensures FromBytes(e, s) == if e == BigEndian then Join(s[0], s[1]) else Join(s[1], s[0])
  {
    assert s == [] + [s[0]] + [s[1]] == [s[0]] + ([s[1]] + []);
    BigStep([], s[0]);
    BigStep([] + [s[0]], s[1]);
    LittleStep(s[1], []);
    LittleStep(s[0], [s[1]] + []);
  }

  lemma Three(e: Endianness, s: seq<byte>)
    requires |s| == 3
    ensures FromBytes(e, s) == if e == BigEndian then Join(Join(s[0], s[1]), s[2]) else Join(Join(s[2], s[1]), s[0])
  {
    Two(e, if e == BigEndian then s[..2] else s[1..]);
    assert s == s[..2] + [s[2]] == [s[0]] + s[1..];
    BigStep(s[..2], s[2]);
    LittleStep(s[0], s[1..]);
  }

  lemma Four(e: Endianness, s: seq<byte>)
    requires |s| == 4
    ensures FromBytes(e, s) == if e == BigEndian then Join(Join(Join(s[0], s[1]), s[2]), s[3])
                               else Join(Join(Join(s[3], s[2]), s[1]), s[0])
  {
    Three(e, if e == BigEndian then s[..3] else s[1..]);
    assert s == s[..3] + [s[3]] == [s[0]] + s[1..];
    BigStep(s[..3], s[3]);
    LittleStep(s[0], s[1..]);
  }

  /** Four more bytes at the lower end. */
  function More(value: nat, a: nat, b: nat, c: nat, d: nat): nat {
    Join(Join(Join(Join(value, a), b), c), d)
  }

  lemma FourBehind(s: seq<byte>, a: byte, b: byte, c: byte, d: byte)
    ensures FromBig(s + [a] + [b] + [c] + [d]) == More(FromBig(s), a, b, c, d)
  {
    BigStep(s, a);
    BigStep(s + [a], b);
    BigStep(s + [a] + [b], c);
    BigStep(s + [a] + [b] + [c], d);
  }

  lemma FourInFront(s: seq<byte>, a: byte, b: byte, c: byte, d: byte)
    ensures FromLittle([d] + ([c] + ([b] + ([a] + s)))) == More(FromLittle(s), a, b, c, d)
  {
    LittleStep(a, s);
    LittleStep(b, [a] + s);
    LittleStep(c, [b] + ([a] + s));
    LittleStep(d, [c] + ([b] + ([a] + s)));
  }

  lemma Eight(e: Endianness, s: seq<byte>)
    requires |s| == 8
    ensures FromBytes(e, s) == if e == BigEndian then More(FromBytes(e, s[..4]), s[4], s[5], s[6], s[7])
                               else More(FromBytes(e, s[4..]), s[3], s[2], s[1], s[0])
  {
    if e == BigEndian {
      FourBehind(s[..4], s[4], s[5], s[6], s[7]);
      assert s == s[..4] + [s[4]] + [s[5]] + [s[6]] + [s[7]];
    } else {
      FourInFront(s[4..], s[3], s[2], s[1], s[0]);
      assert s == [s[0]] + ([s[1]] + ([s[2]] + ([s[3]] + s[4..])));
    }
  }

  /** The low byte, and the others. */
  lemma Unfold(e: Endianness, value: nat, n: nat)
    requires n > 0
    ensures ToBytes(e, value, n) == if e == BigEndian then ToBytes(e, value / 256, n - 1) + [value % 256]
                                    else [value % 256] + ToBytes(e, value / 256, n - 1)
  {
  }

  /** value >> 8 * n. */
  function Shifted(value: nat, n: nat): nat {
    if n == 0 then value else Shifted(value / 256, n - 1)
  }

  lemma {:induction false} ShiftedIs(value: nat, n: nat)
    ensures Shifted(value, n) == value / Pow256(n)
  {
    if n > 0 {
      ShiftedIs(value / 256, n - 1);
      Nested(value, Pow256(n - 1));
    }
  }

  function ByteOf(value: nat, n: nat): byte {
    Shifted(value, n) % 256
  }

  lemma OneByte(e: Endianness, value: nat)
    ensures ToBytes(e, value, 1) == [ByteOf(value, 0)]
  {
    Unfold(e, value, 1);
  }

  lemma TwoBytes(e: Endianness, value: nat)
    ensures ToBytes(e, value, 2) == if e == BigEndian then [ByteOf(value, 1), ByteOf(value, 0)]
                                    else [ByteOf(value, 0), ByteOf(value, 1)]
  {
    Unfold(e, value, 2);
    OneByte(e, value / 256);
  }

  lemma ThreeBytes(e: Endianness, value: nat)
    ensures ToBytes(e, value, 3) == if e == BigEndian then [ByteOf(value, 2), ByteOf(value, 1), ByteOf(value, 0)]
                                    else [ByteOf(value, 0), ByteOf(value, 1), ByteOf(value, 2)]
  {
    Unfold(e, value, 3);
    TwoBytes(e, value / 256);
  }

  lemma FourBytes(e: Endianness, value: nat)
    ensures ToBytes(e, value, 4) ==
            if e == BigEndian then [ByteOf(value, 3), ByteOf(value, 2), ByteOf(value, 1), ByteOf(value, 0)]
            else [ByteOf(value, 0), ByteOf(value, 1), ByteOf(value, 2), ByteOf(value, 3)]
  {
    Unfold(e, value, 4);
    ThreeBytes(e, value / 256);
  }

  /** The upper four of eight bytes, and the lower four. */
  lemma EightBytes(e: Endianness, value: nat)
    ensures ToBytes(e, value, 8) == if e == BigEndian then ToBytes(e, Shifted(value, 4), 4) + ToBytes(e, value, 4)
                                    else ToBytes(e, value, 4) + ToBytes(e, Shifted(value, 4), 4)
  {
    HalvesBig(value, 4, 4);
    HalvesLittle(value, 4, 4);
  }

  lemma {:induction false} HalvesBig(value: nat, n: nat, m: nat)
    ensures Big(value, n + m) == Big(Shifted(value, n), m) + Big(value, n)
    decreases n
  {
    if n > 0 {
      HalvesBig(value / 256, n - 1, m);
      Grouped(Big(Shifted(value, n), m), Big(value / 256, n - 1), [value % 256]);
    }
  }

  lemma {:induction false} HalvesLittle(value: nat, n: nat, m: nat)
    ensures Little(value, n + m) == Little(value, n) + Little(Shifted(value, n), m)
    decreases n
  {
    if n > 0 {
      HalvesLittle(value / 256, n - 1, m);
    }
  }

  class Serializer {
    var endianness: Endianness

    constructor ()
      ensures endianness == BigEndian
    {
      endianness := BigEndian;
    }

    /** fdu_s11n_read_uint16. */
    method ReadUint16(a: array<byte>, start: nat, end: nat) returns (ok: bool, value: nat, start': nat)
      requires end <= a.Length
      ensures ok == (start + 2 <= end)
      ensures ok ==> start' == start + 2 && value == FromBytes(endianness, a[start..start + 2]) < 0x1_0000
      ensures !ok ==> start' == start
    {
      ok, value, start' := start <= end && end - start >= 2, 0, start;
      if ok {
        Two(endianness, a[start..start + 2]);
        match endianness {
          case BigEndian => value := Join(a[start], a[start + 1]);
          case LittleEndian => value := Join(a[start + 1], a[start]);
        }
        start' := start + 2;
      }
    }

    /** fdu_s11n_read_uint24. */
    method ReadUint24(a: array<byte>, start: nat, end: nat) returns (ok: bool, value: nat, start': nat)
      requires end <= a.Length
      ensures ok == (start + 3 <= end)
      ensures ok ==> start' == start + 3 && value == FromBytes(endianness, a[start..start + 3]) < 0x100_0000
      ensures !ok ==> start' == start
    {
      ok, value, start' := start <= end && end - start >= 3, 0, start;
      if ok {
        Three(endianness, a[start..start + 3]);
        match endianness {
          case BigEndian => value := Join(Join(a[start], a[start + 1]), a[start + 2]);
          case LittleEndian => value := Join(Join(a[start + 2], a[start + 1]), a[start]);
        }
        start' := start + 3;
      }
    }

    method FourAt(a: array<byte>, start: nat) returns (value: nat)
      requires start + 4 <= a.Length
      ensures value == FromBytes(endianness, a[start..start + 4]) < 0x1_0000_0000
    {
      Four(endianness, a[start..start + 4]);
      match endianness {
        case BigEndian => value := Join(Join(Join(a[start], a[start + 1]), a[start + 2]), a[start + 3]);
        case LittleEndian => value := Join(Join(Join(a[start + 3], a[start + 2]), a[start + 1]), a[start]);
      }
    }

    /** fdu_s11n_read_uint32. */
    method ReadUint32(a: array<byte>, start: nat, end: nat) returns (ok: bool, value: nat, start': nat)
      requires end <= a.Length
      ensures ok == (start + 4 <= end)
      ensures ok ==> start' == start + 4 && value == FromBytes(endianness, a[start..start + 4]) < 0x1_0000_0000
      ensures !ok ==> start' == start
    {
      ok, value, start' := start <= end && end - start >= 4, 0, start;
      if ok {
        value := FourAt(a, start);
        start' := start + 4;
      }
    }

    /** fdu_s11n_read_uint64. */
    method ReadUint64(a: array<byte>, start: nat, end: nat) returns (ok: bool, value: nat, start': nat)
      requires end <= a.Length
      ensures ok == (start + 8 <= end)
      ensures ok ==> start' == start + 8
                     && value == FromBytes(endianness, a[start..start + 8]) < 0x1_0000_0000_0000_0000
      ensures !ok ==> start' == start
    {
      ok, value, start' := start <= end && end - start >= 8, 0, start;
      if ok {
        Eight(endianness, a[start..start + 8]);
        match endianness {
          case BigEndian =>
            value := FourAt(a, start);
            assert a[start..start + 8][..4] == a[start..start + 4];
            value := More(value, a[start + 4], a[start + 5], a[start + 6], a[start + 7]);
          case LittleEndian =>
            value := FourAt(a, start + 4);
            assert a[start..start + 8][4..] == a[start + 4..start + 8];
            value := More(value, a[start + 3], a[start + 2], a[start + 1], a[start]);
        }
        start' := start + 8;
      }
    }

    /** fdu_s11n_write_uint16. */
    method WriteUint16(value: nat, a: array<byte>, start: nat, end: nat) returns (ok: bool, start': nat)
      requires end <= a.Length
      modifies a
      ensures ok == (start + 2 <= end)
      ensures ok ==> start' == start + 2 && a[start..start + 2] == ToBytes(endianness, value, 2)
      ensures forall i :: 0 <= i < a.Length && !(ok && start <= i < start + 2) ==> a[i] == old(a[i])
      ensures !ok ==> start' == start
    {
      ok, start' := start <= end && end - start >= 2, start;
      if ok {
        TwoBytes(endianness, value);
        match endianness {
          case BigEndian =>
            a[start] := ByteOf(value, 1);
            a[start + 1] := ByteOf(value, 0);
          case LittleEndian =>
            a[start + 1] := ByteOf(value, 1);
            a[start] := ByteOf(value, 0);
        }
        start' := start + 2;
      }
    }

    /** fdu_s11n_write_uint24. */
    method WriteUint24(value: nat, a: array<byte>, start: nat, end: nat) returns (ok: bool, start': nat)
      requires end <= a.Length
      modifies a
      ensures ok == (start + 3 <= end)
      ensures ok ==> start' == start + 3 && a[start..start + 3] == ToBytes(endianness, value, 3)
      ensures forall i :: 0 <= i < a.Length && !(ok && start <= i < start + 3) ==> a[i] == old(a[i])
      ensures !ok ==> start' == start
    {
      ok, start' := start <= end && end - start >= 3, start;
      if ok {
        ThreeBytes(endianness, value);
        match endianness {
          case BigEndian =>
            a[start] := ByteOf(value, 2);
            a[start + 1] := ByteOf(value, 1);
            a[start + 2] := ByteOf(value, 0);
          case LittleEndian =>
            a[start + 2] := ByteOf(value, 2);
            a[start + 1] := ByteOf(value, 1);
            a[start] := ByteOf(value, 0);
        }
        start' := start + 3;
      }
    }

    method WriteFour(value: nat, a: array<byte>, start: nat)
      requires start + 4 <= a.Length
      modifies a
      ensures a[start..start + 4] == ToBytes(endianness, value, 4)
      ensures forall i :: 0 <= i < a.Length && !(start <= i < start + 4) ==> a[i] == old(a[i])
    {
      FourBytes(endianness, value);
      match endianness {
        case BigEndian =>
          a[start] := ByteOf(value, 3);
          a[start + 1] := ByteOf(value, 2);
          a[start + 2] := ByteOf(value, 1);
          a[start + 3] := ByteOf(value, 0);
        case LittleEndian =>
          a[start + 3] := ByteOf(value, 3);
          a[start + 2] := ByteOf(value, 2);
          a[start + 1] := ByteOf(value, 1);
          a[start] := ByteOf(value, 0);
      }
    }

    /** fdu_s11n_write_uint32. */
    method WriteUint32(value: nat, a: array<byte>, start: nat, end: nat) returns (ok: bool, start': nat)
      requires end <= a.Length
      modifies a
      ensures ok == (start + 4 <= end)
      ensures ok ==> start' == start + 4 && a[start..start + 4] == ToBytes(endianness, value, 4)
      ensures forall i :: 0 <= i < a.Length && !(ok && start <= i < start + 4) ==> a[i] == old(a[i])
      ensures !ok ==> start' == start
    {
      ok, start' := start <= end && end - start >= 4, start;
      if ok {
        WriteFour(value, a, start);
        start' := start + 4;
      }
    }

    /** fdu_s11n_write_uint64. */
    method WriteUint64(value: nat, a: array<byte>, start: nat, end: nat) returns (ok: bool, start': nat)
      requires end <= a.Length
      modifies a
      ensures ok == (start + 8 <= end)
      ensures ok ==> start' == start + 8 && a[start..start + 8] == ToBytes(endianness, value, 8)
      ensures forall i :: 0 <= i < a.Length && !(ok && start <= i < start + 8) ==> a[i] == old(a[i])
      ensures !ok ==> start' == start
    {
      ok, start' := start <= end && end - start >= 8, start;
      if ok {
        match endianness {
          case BigEndian => WriteHalves(Shifted(value, 4), value, a, start);
          case LittleEndian => WriteHalves(value, Shifted(value, 4), a, start);
        }
        EightBytes(endianness, value);
        start' := start + 8;
      }
    }

    method WriteHalves(first: nat, second: nat, a: array<byte>, start: nat)
      requires start + 8 <= a.Length
      modifies a
      ensures a[start..start + 8] == ToBytes(endianness, first, 4) + ToBytes(endianness, second, 4)
      ensures forall i :: 0 <= i < a.Length && !(start <= i < start + 8) ==> a[i] == old(a[i])
    {
      WriteFour(first, a, start);
      ghost var before := a[..];
      assert before[start..start + 4] == a[start..start + 4];
      WriteFour(second, a, start + 4);
      InFront(before, a[..], start, start + 4, start + 8);
    }

    /** fdu_s11n_read_bytes: as many bytes as there are in `v[from..to]`, and a NUL behind if asked for. */
    method ReadBytes(v: array<byte>, from: nat, to: nat, a: array<byte>, start: nat, end: nat, writeNull: bool)
      returns (ok: bool, start': nat)
      requires v != a && to + (if writeNull then 1 else 0) <= v.Length && end <= a.Length
      modifies v
      ensures ok == (from <= to && start <= end && to - from <= end - start)
      ensures ok ==> start' == start + (to - from) && v[from..to] == a[start..start'] && (writeNull ==> v[to] == NUL)
      ensures forall i :: 0 <= i < v.Length && !(ok && from <= i < to + (if writeNull then 1 else 0)) ==>
                        v[i] == old(v[i])
      ensures !ok ==> start' == start
    {
      ok, start' := from <= to && start <= end && end - start >= to - from, start;
      if ok {
        Copy(v, from, a, start, to - from);
        start' := start + (to - from);
        if writeNull {
          v[to] := NUL;
        }
      }
    }

    /** fdu_s11n_write_bytes. */
    method WriteBytes(v: array<byte>, from: nat, to: nat, a: array<byte>, start: nat, end: nat)
      returns (ok: bool, start': nat)
      requires v != a && to <= v.Length && end <= a.Length
      modifies a
      ensures ok == (from <= to && start <= end && to - from <= end - start)
      ensures ok ==> start' == start + (to - from) && a[start..start'] == v[from..to]
      ensures forall i :: 0 <= i < a.Length && !(ok && start <= i < start') ==> a[i] == old(a[i])
      ensures !ok ==> start' == start
    {
      ok, start' := from <= to && start <= end && end - start >= to - from, start;
      if ok {
        Copy(a, start, v, from, to - from);
        start' := start + (to - from);
      }
    }
  }

  /** memcpy. */
  method Copy(dst: array<byte>, at: nat, src: array<byte>, from: nat, n: nat)
    requires dst != src && at + n <= dst.Length && from + n <= src.Length
    modifies dst
    ensures dst[at..at + n] == src[from..from + n]
    ensures forall i :: 0 <= i < at || at + n <= i < dst.Length ==> dst[i] == old(dst[i])
  {
    var k := 0;
    while k < n
      invariant k <= n && forall j :: at <= j < at + k ==> dst[j] == src[..][j + (from - at)]
      invariant forall i :: 0 <= i < at || at + n <= i < dst.Length ==> dst[i] == old(dst[i])
    {
      dst[at + k] := src[from + k];
      k := k + 1;
    }
  }
}
