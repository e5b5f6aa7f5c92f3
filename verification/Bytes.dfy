/** Bytes, and the search that memchr does. */
module Bytes {
  type byte = b: int | 0 <= b < 256

  const NUL: byte := 0
  const HT: byte := 9
  const LF: byte := 10
  const CR: byte := 13
  const SP: byte := 32
  const COLON: byte := 58

  /** Where `b` first stands in `s`; the length of `s` if nowhere. */
  function IndexOf(s: seq<byte>, b: byte): (i: nat)
    ensures i <= |s| && b !in s[..i]
    ensures i < |s| ==> s[i] == b
    ensures b in s <==> i < |s|
  {
    IndexFrom(s, b, 0)
  }

  function IndexFrom(s: seq<byte>, b: byte, k: nat): (i: nat)
    requires k <= |s|
    ensures k <= i <= |s| && (i < |s| ==> s[i] == b)
    ensures forall j :: k <= j < i ==> s[j] != b
    decreases |s| - k
  {
    if k == |s| || s[k] == b then k else IndexFrom(s, b, k + 1)
  }

  lemma IndexOfUnique(s: seq<byte>, b: byte, i: nat)
    requires i <= |s| && b !in s[..i] && (i < |s| ==> s[i] == b)
    ensures IndexOf(s, b) == i
  {
    var j := IndexOf(s, b);
    forall k | 0 <= k < i || 0 <= k < j ensures s[k] != b {
      assert k < i ==> s[..i][k] == s[k];
      assert k < j ==> s[..j][k] == s[k];
    }
  }

  lemma CutAt(s: seq<byte>, b: byte)
    requires b in s
    ensures var i := IndexOf(s, b); s == s[..i] + [b] + s[i + 1..]
  {
  }

  lemma IndexOfAppend(a: seq<byte>, c: seq<byte>, b: byte)
    ensures IndexOf(a, b) < |a| ==> IndexOf(a + c, b) == IndexOf(a, b)
    ensures b !in a ==> IndexOf(a + c, b) == |a| + IndexOf(c, b)
  {
    var i := IndexOf(a, b);
    if i < |a| {
      assert (a + c)[..i] == a[..i];
      IndexOfUnique(a + c, b, i);
    }
    if b !in a {
      var j := IndexOf(c, b);
      assert (a + c)[..|a| + j] == a + c[..j];
      IndexOfUnique(a + c, b, |a| + j);
    }
  }

  /** memchr; `to` stands for the null pointer. */
  method Memchr(a: array<byte>, b: byte, from: nat, to: nat) returns (i: nat)
    requires from <= to <= a.Length
    ensures i == from + IndexOf(a[from..to], b)
  {
    i := from;
    while i < to && a[i] != b
      invariant from <= i <= to && b !in a[from..i]
    {
      i := i + 1;
    }
    assert a[from..to][..i - from] == a[from..i];
    IndexOfUnique(a[from..to], b, i - from);
  }

  /** What C sees of a string: everything before the first NUL. */
  function CString(s: seq<byte>): seq<byte> {
    s[..IndexOf(s, NUL)]
  }

  /** What was written first stays in front of what is written next. */
  lemma InFront(before: seq<byte>, after: seq<byte>, from: nat, mid: nat, to: nat)
    requires from <= mid <= to <= |after| == |before|
    requires forall i :: from <= i < mid ==> after[i] == before[i]
    ensures after[from..to] == before[from..mid] + after[mid..to]
  {
  }

  lemma Grouped<T>(x: seq<T>, y: seq<T>, z: seq<T>)
    ensures x + y + z == x + (y + z)
  {
  }
}
