/** Runs of blanks in HTTP header lines. Linear white space may be replaced by a single space
    without changing the meaning of a header (section 2.2 of RFC 2616); two texts are alike if they
    become equal that way. */
module HttpText {
  import opened Bytes

  predicate Blank(b: byte) {
    b == SP || b == HT
  }

  /** isspace. */
  predicate Space(b: byte) {
    HT <= b <= CR || b == SP
  }

  function Squeeze(acc: seq<byte>, b: byte): seq<byte> {
    if !Blank(b) then acc + [b]
    else if acc != [] && acc[|acc| - 1] == SP then acc
    else acc + [SP]
  }

  function SqueezeAll(acc: seq<byte>, s: seq<byte>): seq<byte>
    decreases |s|
  {
    if s == [] then acc else SqueezeAll(Squeeze(acc, s[0]), s[1..])
  }

  /** Every run of blanks made a single space. */
  function Collapse(s: seq<byte>): seq<byte> {
    SqueezeAll([], s)
  }

  ghost predicate Alike(a: seq<byte>, b: seq<byte>) {
    Collapse(a) == Collapse(b)
  }

  // ----- appending

  lemma {:induction false} SqueezeAppend(acc: seq<byte>, a: seq<byte>, b: seq<byte>)
    ensures SqueezeAll(acc, a + b) == SqueezeAll(SqueezeAll(acc, a), b)
    decreases |a|
  {
    if a == [] {
      assert a + b == b;
    } else {
      assert (a + b)[1..] == a[1..] + b;
      SqueezeAppend(Squeeze(acc, a[0]), a[1..], b);
    }
  }

  lemma AlikeAppend(a: seq<byte>, b: seq<byte>, c: seq<byte>)
    requires Alike(a, b)
    ensures Alike(a + c, b + c)
  {
    SqueezeAppend([], a, c);
    SqueezeAppend([], b, c);
  }

  lemma {:induction false} SqueezeBehind(acc: seq<byte>, d: seq<byte>, s: seq<byte>)
    requires d != []
    ensures SqueezeAll(acc + d, s) == acc + SqueezeAll(d, s)
    decreases |s|
  {
    if s != [] {
      assert Squeeze(acc + d, s[0]) == acc + Squeeze(d, s[0]);
      SqueezeBehind(acc, Squeeze(d, s[0]), s[1..]);
    }
  }

  /** A byte that is not a blank cuts the text into parts that collapse on their own. */
  lemma {:induction false} CollapseAround(a: seq<byte>, c: byte, b: seq<byte>)
    requires !Blank(c)
    ensures Collapse(a + [c] + b) == Collapse(a) + [c] + Collapse(b)
  {
    var acc := Collapse(a) + [c];
    assert a + [c] + b == a + ([c] + b);
    SqueezeAppend([], a, [c] + b);
    assert ([c] + b)[1..] == b;
    assert SqueezeAll(Collapse(a), [c] + b) == SqueezeAll(acc, b);
    if b != [] {
      assert Squeeze(acc, b[0]) == acc + Squeeze([], b[0]);
      SqueezeBehind(acc, Squeeze([], b[0]), b[1..]);
    }
  }

  lemma {:induction false} CollapseKeeps(s: seq<byte>, c: byte)
    requires !Blank(c)
    ensures c in s <==> c in Collapse(s)
    decreases |s|
  {
    if s != [] {
      var last := |s| - 1;
      assert s == s[..last] + [s[last]];
      CollapseKeeps(s[..last], c);
      SqueezeAppend([], s[..last], [s[last]]);
      assert Collapse(s) == Squeeze(Collapse(s[..last]), s[last]);
    }
  }

  /** Alike texts have their first `c` in the same place. */
  lemma AlikeCut(x: seq<byte>, y: seq<byte>, c: byte)
    requires Alike(x, y) && !Blank(c)
    ensures IndexOf(x, c) < |x| <==> IndexOf(y, c) < |y|
    ensures Alike(x[..IndexOf(x, c)], y[..IndexOf(y, c)])
    ensures IndexOf(x, c) < |x| ==> Alike(x[IndexOf(x, c) + 1..], y[IndexOf(y, c) + 1..])
  {
    CollapseKeeps(x, c);
    CollapseKeeps(y, c);
    if c in x {
      CutBoth(x, IndexOf(x, c), y, IndexOf(y, c), c);
    } else {
      assert x[..IndexOf(x, c)] == x && y[..IndexOf(y, c)] == y;
    }
  }

  lemma CutBoth(x: seq<byte>, i: nat, y: seq<byte>, j: nat, c: byte)
    requires Alike(x, y) && !Blank(c)
    requires i < |x| && x[i] == c && c !in x[..i]
    requires j < |y| && y[j] == c && c !in y[..j]
    ensures Alike(x[..i], y[..j]) && Alike(x[i + 1..], y[j + 1..])
  {
    assert x == x[..i] + [c] + x[i + 1..] && y == y[..j] + [c] + y[j + 1..];
    CollapseAround(x[..i], c, x[i + 1..]);
    CollapseAround(y[..j], c, y[j + 1..]);
    CollapseKeeps(x[..i], c);
    CollapseKeeps(y[..j], c);
    CutUnique(Collapse(x[..i]), Collapse(x[i + 1..]), Collapse(y[..j]), Collapse(y[j + 1..]), c);
  }

  lemma CutUnique(a: seq<byte>, b: seq<byte>, a': seq<byte>, b': seq<byte>, c: byte)
    requires a + [c] + b == a' + [c] + b' && c !in a && c !in a'
    ensures a == a' && b == b'
  {
    var s := a + [c] + b;
    assert s[..|a|] == a && s[..|a'|] == a' && s[|a|] == s[|a'|] == c;
    IndexOfUnique(s, c, |a|);
    IndexOfUnique(s, c, |a'|);
    assert b == s[|a| + 1..] && b' == s[|a'| + 1..];
  }

  lemma AlikeCString(x: seq<byte>, y: seq<byte>)
    requires Alike(x, y)
    ensures Alike(CString(x), CString(y))
  {
    AlikeCut(x, y, NUL);
  }

  /** A text without blanks is alike to itself only. */
  lemma {:induction false} CollapseNoBlank(s: seq<byte>)
    requires SP !in Collapse(s)
    ensures Collapse(s) == s
    decreases |s|
  {
    if s != [] {
      var last := |s| - 1;
      assert s == s[..last] + [s[last]];
      SqueezeAppend([], s[..last], [s[last]]);
      assert Collapse(s) == Squeeze(Collapse(s[..last]), s[last]);
      CollapseNoBlank(s[..last]);
    }
  }

  lemma AlikeNoBlank(x: seq<byte>, y: seq<byte>)
    requires Alike(x, y) && forall i :: 0 <= i < |x| ==> !Blank(x[i])
    ensures x == y
  {
    if SP in Collapse(x) {
      HasBlank(x);
    }
    CollapseNoBlank(x);
    CollapseNoBlank(y);
  }

  lemma {:induction false} HasBlank(s: seq<byte>)
    requires SP in Collapse(s)
    ensures exists i :: 0 <= i < |s| && Blank(s[i])
    decreases |s|
  {
    if s != [] {
      var last := |s| - 1;
      assert s == s[..last] + [s[last]];
      SqueezeAppend([], s[..last], [s[last]]);
      assert Collapse(s) == Squeeze(Collapse(s[..last]), s[last]);
      if !Blank(s[last]) {
        HasBlank(s[..last]);
        var i :| 0 <= i < last && Blank(s[..last][i]);
        assert Blank(s[i]);
      }
    }
  }

  // ----- white space at both ends

  /** strip_ws_start. */
  function StripStart(s: seq<byte>): seq<byte> {
    if s != [] && Space(s[0]) then StripStart(s[1..]) else s
  }

  /** strip_ws_end. */
  function StripEnd(s: seq<byte>): seq<byte> {
    if s != [] && Space(s[|s| - 1]) then StripEnd(s[..|s| - 1]) else s
  }

  /** strip_ws_both. */
  function Strip(s: seq<byte>): seq<byte> {
    StripStart(StripEnd(s))
  }

  lemma {:induction false} CollapseStripEnd(s: seq<byte>)
    ensures Collapse(StripEnd(s)) == StripEnd(Collapse(s))
    decreases |s|
  {
    if s != [] {
      var last := |s| - 1;
      assert s == s[..last] + [s[last]];
      SqueezeAppend([], s[..last], [s[last]]);
      var acc := Collapse(s[..last]);
      assert Collapse(s) == Squeeze(acc, s[last]);
      if Space(s[last]) {
        CollapseStripEnd(s[..last]);
        if Squeeze(acc, s[last]) != acc {
          assert Squeeze(acc, s[last])[..|acc|] == acc;
        }
      }
    }
  }

  lemma {:induction false} StripStartSkips(a: seq<byte>, b: seq<byte>)
    requires forall i :: 0 <= i < |a| ==> Space(a[i])
    ensures StripStart(a + b) == StripStart(b)
  {
    if a == [] {
      assert a + b == b;
    } else {
      assert (a + b)[1..] == a[1..] + b;
      StripStartSkips(a[1..], b);
    }
  }

  lemma {:induction false} CollapseStripStart(acc: seq<byte>, s: seq<byte>)
    requires forall i :: 0 <= i < |acc| ==> Space(acc[i])
    ensures StripStart(SqueezeAll(acc, s)) == Collapse(StripStart(s))
    decreases |s|
  {
    if s == [] {
      assert acc + [] == acc;
      StripStartSkips(acc, []);
    } else if Space(s[0]) {
      CollapseStripStart(Squeeze(acc, s[0]), s[1..]);
    } else {
      SqueezeBehind(acc, [s[0]], s[1..]);
      var t := SqueezeAll([s[0]], s[1..]);
      assert Squeeze([], s[0]) == [s[0]];
      assert t == Collapse(s);
      StripStartSkips(acc, t);
      SqueezeFirst(s[0], s[1..]);
    }
  }

  lemma {:induction false} SqueezeFirst(c: byte, s: seq<byte>)
    ensures |SqueezeAll([c], s)| > 0 && SqueezeAll([c], s)[0] == c
    decreases |s|
  {
    if s != [] {
      assert [c] == [] + [c];
      var d := Squeeze([c], s[0]);
      if d == [c] {
        SqueezeFirst(c, s[1..]);
      } else {
        assert d == [c] + [d[1]];
        SqueezeBehind([c], [d[1]], s[1..]);
      }
    }
  }

  lemma AlikeStrip(x: seq<byte>, y: seq<byte>)
    requires Alike(x, y)
    ensures Alike(Strip(x), Strip(y))
    ensures Strip(x) == [] <==> Strip(y) == []
  {
    CollapseStripEnd(x);
    CollapseStripEnd(y);
    CollapseStripStart([], StripEnd(x));
    CollapseStripStart([], StripEnd(y));
    AlikeEmpty(Strip(x), Strip(y));
  }

  lemma AlikeEmpty(x: seq<byte>, y: seq<byte>)
    requires Alike(x, y)
    ensures x == [] <==> y == []
    ensures x != [] ==> (x[|x| - 1] == CR <==> y[|y| - 1] == CR)
    ensures x != [] && x[|x| - 1] == CR ==> Alike(x[..|x| - 1], y[..|y| - 1])
  {
    CollapseLast(x);
    CollapseLast(y);
    if x != [] && y != [] && x[|x| - 1] == CR {
      var a, b := x[..|x| - 1], y[..|y| - 1];
      assert Collapse(x)[..|Collapse(x)| - 1] == Collapse(a);
      assert Collapse(y)[..|Collapse(y)| - 1] == Collapse(b);
    }
  }

  lemma CollapseLast(s: seq<byte>)
    ensures s == [] <==> Collapse(s) == []
    ensures s != [] ==> var t, c := Collapse(s), s[|s| - 1];
                        && t[|t| - 1] == (if Blank(c) then SP else c)
                        && (c == CR ==> t == Collapse(s[..|s| - 1]) + [CR])
  {
    if s != [] {
      var last := |s| - 1;
      assert s == s[..last] + [s[last]];
      SqueezeAppend([], s[..last], [s[last]]);
      assert Collapse(s) == Squeeze(Collapse(s[..last]), s[last]);
    }
  }

  // ----- case

  /** What convert_to_lowercase does to one byte (ISO 8859-1). */
  function LowerByte(b: byte): byte {
    if 65 <= b <= 90 then b + 32
    else if 192 <= b <= 222 && b != 215 then b + 32
    else b
  }

  function Lower(s: seq<byte>): (t: seq<byte>)
    ensures |t| == |s| && forall i :: 0 <= i < |s| ==> t[i] == LowerByte(s[i])
  {
    if s == [] then [] else [LowerByte(s[0])] + Lower(s[1..])
  }

  /** The letters it changes are these, and nothing else. */
  lemma LettersLowered(b: byte)
    ensures forall i :: 0 <= i < 26 ==>
              LowerByte("ABCDEFGHIJKLMNOPQRSTUVWXYZ"[i] as int) == "abcdefghijklmnopqrstuvwxyz"[i] as int
    ensures 0xC0 <= b <= 0xDE && b != 0xD7 ==> LowerByte(b) == b + 0x20
    ensures LowerByte(b) != b <==> 'A' as int <= b <= 'Z' as int || (0xC0 <= b <= 0xDE && b != 0xD7)
  {
    forall i | 0 <= i < 26
      ensures LowerByte("ABCDEFGHIJKLMNOPQRSTUVWXYZ"[i] as int) == "abcdefghijklmnopqrstuvwxyz"[i] as int {
    }
  }

  lemma {:induction false} SqueezeLower(acc: seq<byte>, s: seq<byte>)
    ensures SqueezeAll(Lower(acc), Lower(s)) == Lower(SqueezeAll(acc, s))
    decreases |s|
  {
    if s != [] {
      assert Lower(s)[1..] == Lower(s[1..]);
      assert Squeeze(Lower(acc), LowerByte(s[0])) == Lower(Squeeze(acc, s[0]));
      SqueezeLower(Squeeze(acc, s[0]), s[1..]);
    }
  }

  lemma AlikeLower(x: seq<byte>, y: seq<byte>)
    requires Alike(x, y)
    ensures Alike(Lower(x), Lower(y))
  {
    SqueezeLower([], x);
    SqueezeLower([], y);
  }
}
