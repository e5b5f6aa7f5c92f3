/** Numbers as bytes, in both byte orders. */
module S11nSpec {
  import opened Bytes

  datatype Endianness = BigEndian | LittleEndian

  function Pow256(n: nat): (p: nat)
    ensures p > 0
  {
    if n == 0 then 1 else 256 * Pow256(n - 1)
  }

  /** The low `n` bytes of a number, the highest first. */
  function Big(v: nat, n: nat): (s: seq<byte>)
    ensures |s| == n
  {
    if n == 0 then [] else Big(v / 256, n - 1) + [v % 256]
  }

  /** The same, the lowest first. */
  function Little(v: nat, n: nat): (s: seq<byte>)
    ensures |s| == n
  {
    if n == 0 then [] else [v % 256] + Little(v / 256, n - 1)
  }

  function FromBig(s: seq<byte>): nat {
    if s == [] then 0 else FromBig(s[..|s| - 1]) * 256 + s[|s| - 1]
  }

  function FromLittle(s: seq<byte>): nat {
    if s == [] then 0 else s[0] + 256 * FromLittle(s[1..])
  }

  function ToBytes(e: Endianness, v: nat, n: nat): (s: seq<byte>)
    ensures |s| == n
  {
    if e == BigEndian then Big(v, n) else Little(v, n)
  }

  function FromBytes(e: Endianness, s: seq<byte>): nat {
    if e == BigEndian then FromBig(s) else FromLittle(s)
  }

  /** The two orders mirror each other. */
  lemma {:induction false} Mirror(v: nat, n: nat, i: nat)
    requires i < n
    ensures Little(v, n)[i] == Big(v, n)[n - 1 - i]
  {
    if i > 0 {
      Mirror(v / 256, n - 1, i - 1);
    }
  }

  lemma DivMod(v: nat, m: nat)
    requires m > 0
    ensures v % (256 * m) == v / 256 % m * 256 + v % 256
  {
    var q, r := v / 256 / m, v / 256 % m;
    assert v / 256 == q * m + r;
    assert v == (q * m + r) * 256 + v % 256;
    assert v == q * (256 * m) + (r * 256 + v % 256);
    Unique(v, 256 * m, q, r * 256 + v % 256);
  }

  lemma Unique(v: nat, m: nat, q: nat, r: nat)
    requires r < m && v == q * m + r
    ensures v % m == r
  {
    var d := q - v / m;
    assert d * m == v % m - r;
    Multiple(d, m);
  }

  lemma Multiple(d: int, m: nat)
    ensures d >= 1 ==> d * m >= m
    ensures d <= -1 ==> d * m <= -(m as int)
  {
    if d >= 1 {
      assert (d - 1) * m >= 0;
    } else if d <= -1 {
      assert (-d - 1) * m >= 0;
    }
  }

  lemma Nested(value: nat, m: nat)
    requires m > 0
    ensures value / 256 / m == value / (256 * m)
  {
    var q, r := value / 256 / m, value / 256 % m;
    assert value / 256 == q * m + r;
    assert value == (q * m + r) * 256 + value % 256;
    assert value == q * (256 * m) + (r * 256 + value % 256);
    Unique(value, 256 * m, q, r * 256 + value % 256);
    var d := value / (256 * m) - q;
    assert d * (256 * m) == 0;
    Multiple(d, 256 * m);
  }

  /** What the bytes are: the i-th from the lower end is the i-th digit of the number to the base 256. */
  lemma {:induction false} ByteAt(v: nat, n: nat, i: nat)
    requires i < n
    ensures ToBytes(BigEndian, v, n)[n - 1 - i] == ToBytes(LittleEndian, v, n)[i] == v / Pow256(i) % 256
  {
    if i > 0 {
      ByteAt(v / 256, n - 1, i - 1);
      Nested(v, Pow256(i - 1));
    }
  }

  lemma {:induction false} RoundTripBig(v: nat, n: nat)
    ensures FromBig(Big(v, n)) == v % Pow256(n)
  {
    if n > 0 {
      RoundTripBig(v / 256, n - 1);
      DivMod(v, Pow256(n - 1));
      assert Big(v, n)[..n - 1] == Big(v / 256, n - 1);
    }
  }

  lemma {:induction false} RoundTripLittle(v: nat, n: nat)
    ensures FromLittle(Little(v, n)) == v % Pow256(n)
  {
    if n > 0 {
      RoundTripLittle(v / 256, n - 1);
      DivMod(v, Pow256(n - 1));
      assert Little(v, n)[1..] == Little(v / 256, n - 1);
    }
  }

  /** What is written is read back, in either order, but for the bits that do not fit. */
  lemma RoundTrip(e: Endianness, v: nat, n: nat)
    ensures FromBytes(e, ToBytes(e, v, n)) == v % Pow256(n)
  {
    RoundTripBig(v, n);
    RoundTripLittle(v, n);
  }

  lemma {:induction false} BigBack(s: seq<byte>)
    ensures Big(FromBig(s), |s|) == s
  {
    if s != [] {
      BigBack(s[..|s| - 1]);
      assert s == s[..|s| - 1] + [s[|s| - 1]];
    }
  }

  lemma LowByte(b: byte, v: nat)
    ensures (b + 256 * v) % 256 == b && (b + 256 * v) / 256 == v
  {
  }

  lemma {:induction false} LittleBack(s: seq<byte>)
    ensures Little(FromLittle(s), |s|) == s
  {
    if s != [] {
      LittleBack(s[1..]);
      LowByte(s[0], FromLittle(s[1..]));
      assert s == [s[0]] + s[1..];
    }
  }

  /** And any bytes are written back as they were read. */
  lemma RoundTripBytes(e: Endianness, s: seq<byte>)
    ensures ToBytes(e, FromBytes(e, s), |s|) == s
  {
    BigBack(s);
    LittleBack(s);
  }
}
