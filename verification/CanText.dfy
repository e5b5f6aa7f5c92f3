/** The text form of a CAN frame (can.c): the id in hexadecimal, the size, and the data bytes. */
module CanText {
  import opened Bytes
  import opened CanSpec
  import S11nSpec

  /** write_nibble, for the low four bits. */
  function Nibble(v: nat): byte {
    var n := v % 16;
    if n < 10 then 48 + n else 65 - 10 + n
  }

  function NibbleOf(b: byte): nat {
    if b >= 65 then b - 65 + 10 else if b >= 48 then b - 48 else 0
  }

  lemma NibbleBack(v: nat)
    ensures NibbleOf(Nibble(v)) == v % 16 && Nibble(v) != SP
  {
  }

  function Pow16(n: nat): (p: nat)
    ensures p > 0
  {
    if n == 0 then 1 else 16 * Pow16(n - 1)
  }

  /** The low `n` nibbles, the highest first. */
  function Hex(v: nat, n: nat): (s: seq<byte>)
    ensures |s| == n && forall i :: 0 <= i < n ==> s[i] != SP
  {
    if n == 0 then [] else Hex(v / 16, n - 1) + [Nibble(v)]
  }

  /** The data bytes with spaces between them. */
  function Data(s: seq<byte>): (t: seq<byte>)
    ensures |t| == if s == [] then 0 else 3 * |s| - 1
  {
    if s == [] then []
    else Data(s[..|s| - 1]) + (if |s| > 1 then [SP] else []) + Hex(s[|s| - 1], 2)
  }

  function Digits(id: nat): nat {
    if Extended(id) then 8 else 4
  }

  /** The id as it is printed: in eight digits what the mask leaves of it, or the low four digits. */
  function IdText(id: nat): seq<byte> {
    Hex(id % EXT_IDS, Digits(id))
  }

  function Text(f: Frame): (t: seq<byte>)
    requires Writable(f)
    ensures |t| == |IdText(f.id)| + 5 + (if f.size == 0 then 0 else 3 * f.size - 1)
  {
    IdText(f.id) + ([SP, SP, Nibble(f.size), SP, SP] + Data(f.data[..f.size]))
  }

  /** calc_byte_size. */
  function CalcByteSize(extended: bool, size: nat, writeNull: bool): int {
    (if extended then 8 else 4) + 3 + (if size == 0 then 0 else if size == 1 then 2 else (size - 1) * 3 + 2)
    + if writeNull then 1 else 0
  }

  /** The size that is checked beforehand is two less than what is written, for every frame: one of the
      two pairs of spaces is not counted. So the text stays within the room there is if and only if there
      is room for two bytes more than the check asks for. */
  lemma TwoShort(f: Frame, writeNull: bool, room: int)
    requires Writable(f)
    ensures CalcByteSize(Extended(f.id), f.size, writeNull) + 2 == |Text(f)| + if writeNull then 1 else 0
    ensures |Text(f)| + (if writeNull then 1 else 0) <= room
            <==> room >= CalcByteSize(Extended(f.id), f.size, writeNull) + 2
  {
  }

  function Digit(v: nat): byte {
    "0123456789ABCDEF"[v % 16] as int
  }

  lemma NibbleIs(v: nat)
    ensures Nibble(v) == Digit(v)
  {
  }

  /** What the digits are: the i-th from the right is that of the number to the base 16. */
  lemma {:induction false} HexDigits(v: nat, n: nat, i: nat)
    requires i < n
    ensures Hex(v, n)[n - 1 - i] == Digit(v / Pow16(i))
  {
    hide Nibble, Digit;
    if i == 0 {
      NibbleIs(v);
    } else {
      HexDigits(v / 16, n - 1, i - 1);
      Nested(v, Pow16(i - 1));
    }
  }

  lemma Nested(v: nat, m: nat)
    requires m > 0
    ensures v / 16 / m == v / (16 * m)
  {
    var q, r := v / 16 / m, v / 16 % m;
    assert v / 16 == q * m + r;
    assert v == (q * m + r) * 16 + v % 16;
    assert v == q * (16 * m) + (r * 16 + v % 16);
    S11nSpec.Unique(v, 16 * m, q, r * 16 + v % 16);
    S11nSpec.Multiple(v / (16 * m) - q, 16 * m);
  }

  function FromHex(s: seq<byte>): nat {
    if s == [] then 0 else FromHex(s[..|s| - 1]) * 16 + NibbleOf(s[|s| - 1])
  }

  lemma {:induction false} HexBack(v: nat, n: nat)
    ensures FromHex(Hex(v, n)) == v % Pow16(n)
  {
    if n > 0 {
      HexBack(v / 16, n - 1);
      NibbleBack(v);
      assert Hex(v, n)[..n - 1] == Hex(v / 16, n - 1);
      Split(v, Pow16(n - 1));
    }
  }

  lemma Split(v: nat, m: nat)
    requires m > 0
    ensures v % (16 * m) == v / 16 % m * 16 + v % 16
  {
    var q, r := v / 16 / m, v / 16 % m;
    assert v / 16 == q * m + r;
    assert v == (q * m + r) * 16 + v % 16;
    assert v == q * (16 * m) + (r * 16 + v % 16);
    S11nSpec.Unique(v, 16 * m, q, r * 16 + v % 16);
  }

  lemma Behind(head: seq<byte>, t: seq<byte>)
    ensures (head + t)[|head|..|head| + |t|] == t
  {
  }

  lemma {:induction false} DataAt(s: seq<byte>, i: nat)
    requires i < |s|
    ensures Data(s)[3 * i..3 * i + 2] == Hex(s[i], 2)
    decreases |s|
  {
    var front := s[..|s| - 1];
    var head := Data(front) + (if |s| > 1 then [SP] else []);
    assert Data(s) == head + Hex(s[|s| - 1], 2) && |head| == 3 * |front|;
    if i < |front| {
      DataAt(front, i);
      assert Data(s)[3 * i..3 * i + 2] == Data(front)[3 * i..3 * i + 2];
    } else {
      Behind(head, Hex(s[i], 2));
    }
  }

  lemma {:induction false} DataSpaces(s: seq<byte>, i: nat)
    requires i < |Data(s)|
    ensures Data(s)[i] == SP <==> i % 3 == 2
    decreases |s|
  {
    hide Hex;
    var front := s[..|s| - 1];
    if i < |Data(front)| {
      DataSpaces(front, i);
    }
  }

  /** Where the spaces are: two before and two behind the size, and one between data bytes. */
  lemma Spaces(f: Frame, i: nat)
    requires Writable(f) && i < |Text(f)|
    ensures var n := if f.id >= 0x8000_0000 then 8 else 4;
            Text(f)[i] == SP <==> i in {n, n + 1, n + 3, n + 4} || (i >= n + 5 && (i - n - 5) % 3 == 2)
  {
    hide Hex, Data;
    var n := Digits(f.id);
    NibbleBack(f.size);
    if i >= n + 5 {
      DataSpaces(f.data[..f.size], i - n - 5);
    }
  }

  /** What a text says: whether the id is extended, the id, and the data. */
  datatype Said = Said(extended: bool, id: nat, payload: seq<nat>)

  function ReadText(t: seq<byte>): Said
    requires |t| >= 13 || (|t| >= 9 && t[4] == SP)
  {
    if t[4] == SP then ReadBehind(t, 4) else ReadBehind(t, 8)
  }

  /** The same, when the id has `n` digits. */
  function ReadBehind(t: seq<byte>, n: nat): Said
    requires |t| >= n + 5
  {
    Said(n == 8, FromHex(t[..n]), ReadData(t[n + 5..], NibbleOf(t[n + 2])))
  }

  function ReadData(t: seq<byte>, size: nat): seq<nat> {
    seq(size, i requires 0 <= i < size => if 3 * i + 2 <= |t| then FromHex(t[3 * i..3 * i + 2]) else 0)
  }

  /** Nothing of a frame is lost in its text, but for the bits beyond the mask. */
  lemma TextBack(f: Frame)
    requires Writable(f)
    ensures |Text(f)| >= 13 || (|Text(f)| >= 9 && Text(f)[4] == SP)
    ensures ReadText(Text(f)) == Said(Extended(f.id), f.id % (if Extended(f.id) then EXT_IDS else 0x1_0000),
                                      f.data[..f.size])
  {
    Parts(IdText(f.id), f.size, Data(f.data[..f.size]), Text(f));
    ReadBack(IdText(f.id), f.size, Data(f.data[..f.size]), Text(f));
    IdBack(f.id);
    DataBack(f.data[..f.size]);
  }

  lemma Parts(id: seq<byte>, size: nat, data: seq<byte>, t: seq<byte>)
    requires t == id + ([SP, SP, Nibble(size), SP, SP] + data)
    ensures var n := |id|; |t| >= n + 5 && t[..n] == id && t[n] == SP && t[n + 2] == Nibble(size) && t[n + 5..] == data
  {
  }

  lemma ReadBack(id: seq<byte>, size: nat, data: seq<byte>, t: seq<byte>)
    requires var n := |id|; |t| >= n + 5 && t[..n] == id && t[n] == SP && t[n + 2] == Nibble(size) && t[n + 5..] == data
    requires (|id| == 8 || |id| == 4) && SP !in id && size < 16
    ensures |t| >= 13 || (|t| >= 9 && t[4] == SP)
    ensures ReadText(t) == Said(|id| == 8, FromHex(id), ReadData(data, size))
  {
    assert |id| == 8 ==> t[4] == t[..8][4];
    PartsBack(id, size, data, t, |id|);
  }

  lemma PartsBack(id: seq<byte>, size: nat, data: seq<byte>, t: seq<byte>, n: nat)
    requires |t| >= n + 5 && t[..n] == id && t[n + 2] == Nibble(size) && t[n + 5..] == data && size < 16
    ensures ReadBehind(t, n) == Said(n == 8, FromHex(id), ReadData(data, size))
  {
    NibbleBack(size);
  }

  lemma IdBack(id: nat)
    ensures FromHex(IdText(id)) == id % (if Extended(id) then EXT_IDS else 0x1_0000)
  {
    HexBack(id % EXT_IDS, Digits(id));
    Masked(id);
  }

  lemma Masked(id: nat)
    ensures id % EXT_IDS % Pow16(Digits(id)) == id % (if Extended(id) then EXT_IDS else 0x1_0000)
  {
    Powers();
    if Extended(id) {
      assert id % EXT_IDS < 0x1_0000_0000;
    } else {
      LowPart(id);
    }
  }

  lemma LowPart(id: nat)
    ensures id % EXT_IDS % 0x1_0000 == id % 0x1_0000
  {
    var high, low := id / EXT_IDS, id % EXT_IDS;
    var q, r := low / 0x1_0000, low % 0x1_0000;
    assert id == high * EXT_IDS + low && low == q * 0x1_0000 + r;
    assert id == (high * 0x2000 + q) * 0x1_0000 + r;
    S11nSpec.Unique(id, 0x1_0000, high * 0x2000 + q, r);
  }

  lemma Powers()
    ensures Pow16(4) == 0x1_0000 && Pow16(8) == 0x1_0000_0000
  {
    assert Pow16(2) == 256 && Pow16(6) == 256 * Pow16(4);
  }

  lemma ByteBack(s: seq<byte>, i: nat)
    requires i < |s|
    ensures FromHex(Data(s)[3 * i..3 * i + 2]) == s[i]
  {
    DataAt(s, i);
    TwoDigits(s[i]);
  }

  lemma TwoDigits(b: byte)
    ensures FromHex(Hex(b, 2)) == b
  {
    TwoNibbles(b);
    NibbleBack(b / 16);
    NibbleBack(b);
    FromTwo(Nibble(b / 16), Nibble(b));
  }

  lemma FromTwo(x: byte, y: byte)
    ensures FromHex([x, y]) == NibbleOf(x) * 16 + NibbleOf(y)
  {
    assert [x, y][..1] == [x] && [x][..0] == [];
    assert FromHex([x]) == NibbleOf(x);
  }

  lemma DataBack(s: seq<byte>)
    ensures ReadData(Data(s), |s|) == s
  {
    hide Hex, FromHex, Data;
    var t := Data(s);
    var r := ReadData(t, |s|);
    forall i | 0 <= i < |s| ensures r[i] == s[i] {
      assert 3 * i + 2 <= |t|;
      ByteBack(s, i);
    }
  }

  // ----- writing it

  lemma FourNibbles(v: nat)
    ensures Hex(v, 4) == [Nibble(v / 0x1000), Nibble(v / 0x100), Nibble(v / 0x10), Nibble(v)]
  {
    var v1, v2, v3 := v / 16, v / 256, v / 4096;
    assert v1 / 16 == v2 && v2 / 16 == v3;
    assert Hex(v3, 1) == Hex(v3 / 16, 0) + [Nibble(v3)];
    assert Hex(v2, 2) == Hex(v3, 1) + [Nibble(v2)];
    assert Hex(v1, 3) == Hex(v2, 2) + [Nibble(v1)];
  }

  lemma EightNibbles(v: nat)
    ensures Hex(v, 8) == Hex(v / 0x1_0000, 4) + Hex(v, 4)
  {
    var v1, v2, v3, v4 := v / 16, v / 256, v / 4096, v / 0x1_0000;
    assert v1 / 16 == v2 && v2 / 16 == v3 && v3 / 16 == v4;
    FourNibbles(v);
    assert Hex(v, 8) == Hex(v1, 7) + [Nibble(v)] && Hex(v1, 7) == Hex(v2, 6) + [Nibble(v1)];
    assert Hex(v2, 6) == Hex(v3, 5) + [Nibble(v2)] && Hex(v3, 5) == Hex(v4, 4) + [Nibble(v3)];
  }

  /** write_nibble. */
  method WriteNibble(v: nat, a: array<byte>, at: nat) returns (at': nat)
    requires at < a.Length
    modifies a
    ensures at' == at + 1 && a[..] == old(a[..])[at := Nibble(v)]
  {
    a[at] := Nibble(v);
    at' := at + 1;
  }

  /** Whether a frame is taken: it is a proper one, and the check of its size lets it pass. */
  predicate Taken(f: Frame, room: int, writeNull: bool) {
    room >= 0 && f.size <= 8 && room >= CalcByteSize(Extended(f.id), f.size, writeNull)
  }

  /** fdu_s11n_write_can_txt. The size check lets up to two bytes come to stand behind `end`; if they do,
      they must be there. */
  method WriteTxt(f: Frame, a: array<byte>, start: nat, end: nat, writeNull: bool) returns (ok: bool, start': nat)
    requires Typed(f) && end <= a.Length
    requires Taken(f, end - start, writeNull) ==> start + |Text(f)| + (if writeNull then 1 else 0) <= a.Length
    modifies a
    ensures ok == Taken(f, end - start, writeNull)
    ensures ok ==> start' == start + |Text(f)| && start' + (if writeNull then 1 else 0) <= end + 2
    ensures ok ==> a[start..start'] == Text(f) && (writeNull ==> a[start'] == NUL)
    ensures forall i :: 0 <= i < a.Length && !(ok && start <= i < start' + (if writeNull then 1 else 0)) ==>
                      a[i] == old(a[i])
    ensures !ok ==> start' == start
  {
    ok, start' := false, start;
    if start > end || f.size > 8 {
      return;
    }
    if end - start < CalcByteSize(Extended(f.id), f.size, writeNull) {
      return;
    }
    ok := true;
    TwoShort(f, writeNull, end - start);
    start' := WriteParts(f, a, start);
    if writeNull {
      EndWithNull(a, start, start');
    }
  }

  method EndWithNull(a: array<byte>, start: nat, at: nat)
    requires start <= at < a.Length
    modifies a
    ensures a[start..at] == old(a[start..at]) && a[at] == NUL
    ensures forall i :: 0 <= i < a.Length && i != at ==> a[i] == old(a[i])
  {
    a[at] := NUL;
  }

  method WriteParts(f: Frame, a: array<byte>, start: nat) returns (start': nat)
    requires Writable(f) && start + |Text(f)| <= a.Length
    modifies a
    ensures start' == start + |Text(f)| && a[start..start'] == Text(f)
    ensures forall i :: 0 <= i < a.Length && !(start <= i < start') ==> a[i] == old(a[i])
  {
    var n := WriteId(f.id, a, start);
    ghost var before := a[..];
    assert before[start..n] == a[start..n];
    start' := WriteRest(f.size, f.data[..f.size], a, n);
    InFront(before, a[..], start, n, start');
  }

  /** What comes behind the id. */
  method WriteRest(size: nat, s: seq<byte>, a: array<byte>, at: nat) returns (at': nat)
    requires at + 5 + |Data(s)| <= a.Length
    modifies a
    ensures at' == at + 5 + |Data(s)| && a[at..at'] == [SP, SP, Nibble(size), SP, SP] + Data(s)
    ensures forall i :: 0 <= i < a.Length && !(at <= i < at') ==> a[i] == old(a[i])
  {
    var k := WriteSize(size, a, at);
    ghost var before := a[..];
    assert before[at..k] == a[at..k];
    at' := WriteData(s, a, k);
    InFront(before, a[..], at, k, at');
  }

  method WriteId(id: nat, a: array<byte>, at: nat) returns (at': nat)
    requires at + |IdText(id)| <= a.Length
    modifies a
    ensures at' == at + |IdText(id)| && a[at..at'] == IdText(id)
    ensures forall i :: 0 <= i < a.Length && !(at <= i < at') ==> a[i] == old(a[i])
  {
    var canId := id % EXT_IDS;
    at' := at;
    if Extended(id) {
      EightNibbles(canId);
      at' := WriteFour(canId / 0x1_0000, a, at);
      ghost var upper := a[at..at + 4];
      at' := WriteFour(canId, a, at');
      assert a[at..at + 4] == upper && a[at..at + 8] == upper + a[at + 4..at + 8];
    } else {
      at' := WriteFour(canId, a, at);
    }
  }

  method WriteFour(v: nat, a: array<byte>, at: nat) returns (at': nat)
    requires at + 4 <= a.Length
    modifies a
    ensures at' == at + 4 && a[at..at'] == Hex(v, 4)
    ensures forall i :: 0 <= i < a.Length && !(at <= i < at') ==> a[i] == old(a[i])
  {
    FourNibbles(v);
    at' := WriteNibble(v / 0x1000, a, at);
    at' := WriteNibble(v / 0x100, a, at');
    at' := WriteNibble(v / 0x10, a, at');
    at' := WriteNibble(v, a, at');
  }

  method WriteSize(size: nat, a: array<byte>, at: nat) returns (at': nat)
    requires at + 5 <= a.Length
    modifies a
    ensures at' == at + 5 && a[at..at'] == [SP, SP, Nibble(size), SP, SP]
    ensures forall i :: 0 <= i < a.Length && !(at <= i < at') ==> a[i] == old(a[i])
  {
    a[at], a[at + 1] := SP, SP;
    at' := WriteNibble(size, a, at + 2);
    a[at'], a[at' + 1] := SP, SP;
    at' := at' + 2;
  }

  method WriteData(s: seq<byte>, a: array<byte>, at: nat) returns (at': nat)
    requires at + |Data(s)| <= a.Length
    modifies a
    ensures at' == at + |Data(s)| && a[at..at'] == Data(s)
    ensures forall i :: 0 <= i < a.Length && !(at <= i < at') ==> a[i] == old(a[i])
  {
    at' := at;
    var i := 0;
    while i < |s|
      invariant i <= |s| && at' == at + |Data(s[..i])| && a[at..at'] == Data(s[..i])
      invariant forall j :: 0 <= j < a.Length && !(at <= j < at') ==> a[j] == old(a[j])
    {
      at' := WriteByte(s, i, a, at, at');
      i := i + 1;
    }
    assert s[..i] == s;
  }

  method WriteByte(s: seq<byte>, i: nat, a: array<byte>, at: nat, to: nat) returns (at': nat)
    requires i < |s| && to == at + |Data(s[..i])| && at + |Data(s[..i + 1])| <= a.Length && a[at..to] == Data(s[..i])
    modifies a
    ensures at' == at + |Data(s[..i + 1])| && a[at..at'] == Data(s[..i + 1])
    ensures forall j :: 0 <= j < a.Length && !(to <= j < at') ==> a[j] == old(a[j])
  {
    ghost var before := a[at..to];
    assert s[..i + 1][..i] == s[..i];
    at' := to;
    if i != 0 {
      a[at'] := SP;
      at' := at' + 1;
    }
    at' := WriteNibble(s[i] / 0x10, a, at');
    at' := WriteNibble(s[i], a, at');
    TwoNibbles(s[i]);
    assert a[at..to] == before && a[at..at'] == a[at..to] + a[to..at'];
  }

  lemma TwoNibbles(v: nat)
    ensures Hex(v, 2) == [Nibble(v / 16), Nibble(v)]
  {
    assert Hex(v / 16, 1) == Hex(v / 16 / 16, 0) + [Nibble(v / 16)];
  }
}
