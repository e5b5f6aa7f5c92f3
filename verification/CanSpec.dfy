/** CAN frames as bytes (can.c): the id in two or four bytes, the size, the data. */
module CanSpec {
  import opened Bytes
  import opened S11nSpec
  import S11n

  const EXT_ID_BIT: nat := 0x8000_0000
  const STD_IDS: nat := 0x800             // ids below this are left by FDU_CAN_ID_STD_VALUE_MASK
  const EXT_IDS: nat := 0x2000_0000       // and by FDU_CAN_ID_EXT_VALUE_MASK

  /** fdu_can_frame_t. */
  datatype Frame = Frame(id: nat, size: byte, data: seq<byte>)

  /** What the types of C make of it. */
  predicate Typed(f: Frame) {
    f.id < 0x1_0000_0000 && |f.data| == 8
  }

  /** The writers refuse other sizes. */
  predicate Writable(f: Frame) {
    Typed(f) && f.size <= 8
  }

  predicate Extended(id: nat) {
    id >= EXT_ID_BIT
  }

  function Masked(id: nat): nat {
    if Extended(id) then id % EXT_IDS + EXT_ID_BIT else id % STD_IDS
  }

  function IdSize(id: nat): nat {
    if Extended(id) then 4 else 2
  }

  function Encode(f: Frame): (s: seq<byte>)
    requires Writable(f)
    ensures |s| == IdSize(f.id) + 1 + f.size
  {
    Big(f.id, IdSize(f.id)) + [f.size] + f.data[..f.size]
  }

  datatype Decoded = Got(id: nat, payload: seq<byte>, used: nat) | Underflow | Corrupted

  function Decode(s: seq<byte>): (d: Decoded)
    ensures d.Got? ==> d.used <= |s| && |d.payload| <= 8 && d.used >= 3
  {
    if |s| < 3 then Underflow
    else
      var extended := s[0] >= 0x80;
      if extended && |s| < 5 then Underflow
      else
        var n := if extended then 4 else 2;
        if s[n] > 8 then Corrupted
        else if |s| < n + 1 + s[n] then Underflow
        else
          var id := if extended then FromBig(s[..4]) % EXT_IDS + EXT_ID_BIT else FromBig(s[..2]) % STD_IDS;
          Got(id, s[n + 1..n + 1 + s[n]], n + 1 + s[n])
  }

  /** Whether the reader takes the frame for what it is: a standard id must have its 16th bit clear,
      which is where the reader looks for the mark of an extended one. */
  predicate Proper(f: Frame) {
    Extended(f.id) || f.id / 0x8000 % 2 == 0
  }

  lemma FirstByte(f: Frame)
    requires Writable(f)
    ensures Encode(f)[0] == if Extended(f.id) then f.id / 0x100_0000 % 256 else f.id / 256 % 256
    ensures Encode(f)[0] >= 0x80 <==> Extended(f.id) || !Proper(f)
  {
    S11n.FourBytes(BigEndian, f.id);
    S11n.TwoBytes(BigEndian, f.id);
    S11n.ShiftedIs(f.id, 3);
    S11n.ShiftedIs(f.id, 1);
    assert Pow256(1) == 256 && Pow256(2) == 256 * Pow256(1) && Pow256(3) == 256 * Pow256(2);
    TopBit(f.id);
  }

  lemma TopBit(id: nat)
    requires id < 0x1_0000_0000
    ensures id / 0x100_0000 % 256 >= 0x80 <==> Extended(id)
    ensures id / 256 % 256 >= 0x80 <==> id / 0x8000 % 2 == 1
  {
    var q := id / 256;
    var r := q % 256;
    assert id / 0x8000 == q / 128 && q == q / 256 * 256 + r;
    assert q / 128 == q / 256 * 2 + r / 128;
  }

  /** A proper frame is read back, with the bits beyond the mask gone, and exactly its bytes are used,
      whatever comes behind them. */
  lemma DecodeProper(f: Frame, rest: seq<byte>)
    requires Writable(f) && Proper(f)
    ensures Decode(Encode(f) + rest) == Got(Masked(f.id), f.data[..f.size], |Encode(f)|)
  {
    var n, s := IdSize(f.id), Encode(f) + rest;
    FirstByte(f);
    Laid(f, rest);
    IdBack(f.id, n);
    assert s[n + 1..n + 1 + s[n]] == f.data[..f.size];
  }

  /** Where the parts of an encoded frame are. */
  lemma Laid(f: Frame, rest: seq<byte>)
    requires Writable(f)
    ensures var n, s := IdSize(f.id), Encode(f) + rest;
            && s[0] == Encode(f)[0] && s[..n] == Big(f.id, n)
            && s[n] == f.size && s[n + 1..n + 1 + f.size] == f.data[..f.size]
  {
  }

  lemma IdBack(id: nat, n: nat)
    requires id < 0x1_0000_0000 && n == IdSize(id)
    ensures Extended(id) ==> FromBig(Big(id, n)) == id
    ensures !Extended(id) ==> FromBig(Big(id, n)) % STD_IDS == id % STD_IDS
  {
    hide FromBig, Big;
    RoundTripBig(id, n);
    Powers();
    var high, low := id / 0x1_0000, id % 0x1_0000;
    assert id == (high * 32 + low / STD_IDS) * STD_IDS + low % STD_IDS;
    Unique(id, STD_IDS, high * 32 + low / STD_IDS, low % STD_IDS);
  }

  lemma Powers()
    ensures Pow256(2) == 0x1_0000 && Pow256(4) == 0x1_0000_0000
  {
    assert Pow256(1) == 256 && Pow256(3) == 256 * Pow256(2);
  }

  /** Exactly the proper frames are read back. */
  lemma ReadBackExactly(f: Frame, rest: seq<byte>)
    requires Writable(f)
    ensures Decode(Encode(f) + rest) == Got(Masked(f.id), f.data[..f.size], |Encode(f)|) <==> Proper(f)
  {
    if Proper(f) {
      DecodeProper(f, rest);
    } else {
      FirstByte(f);
      Laid(f, rest);
    }
  }

  lemma IdBytes(id: nat)
    requires id < 0x1_0000_0000
    ensures Big(id, 2) == [id / 0x100 % 256, id % 256]
    ensures Big(id, 4) == [id / 0x100_0000, id / 0x1_0000 % 256, id / 0x100 % 256, id % 256]
  {
    var v1, v2, v3 := id / 0x100, id / 0x1_0000, id / 0x100_0000;
    assert v1 / 256 == v2 && v2 / 256 == v3 && v3 % 256 == v3;
    assert Big(v3, 1) == Big(v3 / 256, 0) + [v3] && Big(v1, 1) == Big(v1 / 256, 0) + [v1 % 256];
    assert Big(v2, 2) == Big(v3, 1) + [v2 % 256];
    assert Big(v1, 3) == Big(v2, 2) + [v1 % 256];
  }

  /** What the bytes of a frame are: the id, the highest byte first, in four bytes if it has the mark of an
      extended one and else in two; then the size, and as many bytes of data. */
  lemma FrameBytes(f: Frame)
    requires Writable(f)
    ensures f.id >= 0x8000_0000 ==>
              Encode(f) == [f.id / 0x100_0000, f.id / 0x1_0000 % 256, f.id / 0x100 % 256, f.id % 256, f.size]
                           + f.data[..f.size]
    ensures f.id < 0x8000_0000 ==> Encode(f) == [f.id / 0x100 % 256, f.id % 256, f.size] + f.data[..f.size]
  {
    hide Big;
    IdBytes(f.id);
  }

  /** The ids that come back as they were: standard ones below 0x800, and extended ones with less than
      0x2000_0000 beside the mark. */
  lemma IdsThatStay(f: Frame, rest: seq<byte>)
    requires Writable(f)
    ensures Decode(Encode(f) + rest) == Got(f.id, f.data[..f.size], |Encode(f)|)
            <==> f.id < 0x800 || 0x8000_0000 <= f.id < 0xA000_0000
  {
    ReadBackExactly(f, rest);
    if !Proper(f) {
      FirstByte(f);
      Laid(f, rest);
    } else {
      DecodeProper(f, rest);
    }
  }

  /** Part of a proper frame is never taken for a frame. */
  lemma Truncated(f: Frame, n: nat)
    requires Writable(f) && Proper(f) && n < |Encode(f)|
    ensures Decode(Encode(f)[..n]) == Underflow
  {
    FirstByte(f);
    Laid(f, []);
    var s := Encode(f);
    assert s + [] == s;
    assert n > 0 ==> s[..n][0] == s[0];
    assert n > IdSize(f.id) ==> s[..n][IdSize(f.id)] == f.size;
  }

  // ----- lists of frames

  ghost predicate AllProper(frames: seq<Frame>) {
    forall i :: 0 <= i < |frames| ==> Writable(frames[i]) && Proper(frames[i])
  }

  function EncodeAll(frames: seq<Frame>): seq<byte>
    requires forall i :: 0 <= i < |frames| ==> Writable(frames[i])
  {
    if frames == [] then [] else Encode(frames[0]) + EncodeAll(frames[1..])
  }

  /** `n` frames read one after the other; `used` counts bytes. */
  datatype DecodedAll = GotAll(frames: seq<(nat, seq<byte>)>, used: nat) | Failed

  function DecodeAll(s: seq<byte>, n: nat): DecodedAll
    decreases n
  {
    if n == 0 then GotAll([], 0)
    else
      var d := Decode(s);
      if !d.Got? then Failed
      else
        var more := DecodeAll(s[d.used..], n - 1);
        if more.Failed? then Failed else GotAll([(d.id, d.payload)] + more.frames, d.used + more.used)
  }

  function Readable(frames: seq<Frame>): seq<(nat, seq<byte>)>
    requires forall i :: 0 <= i < |frames| ==> Writable(frames[i])
  {
    if frames == [] then []
    else
      assert Writable(frames[0]);
      [(Masked(frames[0].id), frames[0].data[..frames[0].size])] + Readable(frames[1..])
  }

  /** Any list of proper frames, written one behind the other, is read back as it was, and no byte behind
      them is touched. */
  lemma {:induction false} ListReadBack(frames: seq<Frame>, rest: seq<byte>)
    requires AllProper(frames)
    ensures DecodeAll(EncodeAll(frames) + rest, |frames|) == GotAll(Readable(frames), |EncodeAll(frames)|)
  {
    hide Encode, Decode, Masked;
    if frames != [] {
      var first, others := Encode(frames[0]), EncodeAll(frames[1..]);
      assert EncodeAll(frames) + rest == first + (others + rest);
      DecodeProper(frames[0], others + rest);
      assert (first + (others + rest))[|first|..] == others + rest;
      ListReadBack(frames[1..], rest);
    }
  }
}
