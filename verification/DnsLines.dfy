/** Requests and answers as they go through the pipes: one line each. */
module DnsLines {
  import opened Bytes

  /** The texts one behind the other, each with a newline. */
  function Lines(s: seq<seq<byte>>): seq<byte> {
    if s == [] then [] else s[0] + [LF] + Lines(s[1..])
  }

  /** Texts of at most `limit` bytes, without newlines and NULs. */
  ghost predicate Plain(s: seq<seq<byte>>, limit: nat) {
    forall i :: 0 <= i < |s| ==> IsPlain(s[i], limit)
  }

  predicate IsPlain(t: seq<byte>, limit: nat) {
    LF !in t && NUL !in t && |t| <= limit
  }

  lemma {:induction false} LinesAppend(s: seq<seq<byte>>, t: seq<byte>)
    ensures Lines(s + [t]) == Lines(s) + t + [LF]
  {
    if s == [] {
      assert s + [t] == [t] && [t][1..] == [];
    } else {
      assert (s + [t])[1..] == s[1..] + [t] && (s + [t])[0] == s[0];
      LinesAppend(s[1..], t);
    }
  }

  /** What is at hand of the lines, `b`, starts with the first text, if it has a newline at all. */
  lemma FirstLine(s: seq<seq<byte>>, b: seq<byte>, more: seq<byte>, limit: nat)
    requires Plain(s, limit) && Lines(s) == b + more && LF in b
    ensures s != [] && b[..IndexOf(b, LF)] == s[0] && Lines(s[1..]) == b[IndexOf(b, LF) + 1..] + more
  {
    hide IndexOf;
    assert s != [];
    assert IsPlain(s[0], limit);
    var l, i := Lines(s), |s[0]|;
    assert l[..i] == s[0] && l[i] == LF && l[i + 1..] == Lines(s[1..]);
    IndexOfUnique(l, LF, i);
    IndexOfAppend(b, more, LF);
    assert (b + more)[..i] == b[..i] && (b + more)[i + 1..] == b[i + 1..] + more;
  }

  /** Without a newline it is only part of the first text. */
  lemma PartOfLine(s: seq<seq<byte>>, b: seq<byte>, more: seq<byte>, limit: nat)
    requires Plain(s, limit) && Lines(s) == b + more && LF !in b
    ensures |b| <= limit && (s == [] ==> b == [])
  {
    if s != [] {
      assert IsPlain(s[0], limit);
      var l, i := Lines(s), |s[0]|;
      assert l[i] == LF;
      assert l[..|b|] == b;
    }
  }

  function Newlines(s: seq<byte>): nat {
    if s == [] then 0 else Newlines(s[..|s| - 1]) + if s[|s| - 1] == LF then 1 else 0
  }

  lemma {:induction false} NoNewlines(s: seq<byte>)
    ensures Newlines(s) == 0 <==> LF !in s
  {
    if s != [] {
      NoNewlines(s[..|s| - 1]);
      assert s == s[..|s| - 1] + [s[|s| - 1]];
    }
  }

  lemma {:induction false} NewlinesAppend(a: seq<byte>, b: seq<byte>)
    ensures Newlines(a + b) == Newlines(a) + Newlines(b)
    decreases |b|
  {
    if b == [] {
      assert a + b == a;
    } else {
      assert (a + b)[..|a + b| - 1] == a + b[..|b| - 1];
      NewlinesAppend(a, b[..|b| - 1]);
    }
  }

  /** As many lines as texts. */
  lemma {:induction false} LinesCounted(s: seq<seq<byte>>, limit: nat)
    requires Plain(s, limit)
    ensures Newlines(Lines(s)) == |s|
  {
    if s != [] {
      assert IsPlain(s[0], limit);
      OneLine(s[0]);
      NewlinesAppend(s[0] + [LF], Lines(s[1..]));
      LinesCounted(s[1..], limit);
    }
  }

  /** A name makes one line, and so gets one answer, if and only if there is no newline in it. */
  lemma OneLine(name: seq<byte>)
    ensures Newlines(name + [LF]) == 1 <==> LF !in name
  {
    NoNewlines(name);
    assert (name + [LF])[..|name|] == name;
  }

  // ----- names with newlines

  /** The texts that are cut off, one for each newline. */
  function Texts(s: seq<byte>): seq<seq<byte>>
    decreases |s|
  {
    var i := IndexOf(s, LF);
    if i == |s| then [] else [s[..i]] + Texts(s[i + 1..])
  }

  lemma {:induction false} TextsOfMore(a: seq<byte>, b: seq<byte>)
    ensures Texts(a + [LF] + b) == Texts(a + [LF]) + Texts(b) && |Texts(a + [LF])| == Newlines(a) + 1
    decreases |a|
  {
    hide Texts;
    if LF in a {
      var i := IndexOf(a, LF);
      CutAt(a, LF);
      var x, y := a[..i], a[i + 1..];
      assert a + [LF] + b == x + [LF] + (y + [LF] + b) && a + [LF] == x + [LF] + (y + [LF]);
      FirstText(x, y + [LF] + b);
      FirstText(x, y + [LF]);
      TextsOfMore(y, b);
      NewlinesCut(x, y);
    } else {
      assert a + [LF] == a + [LF] + [];
      FirstText(a, b);
      FirstText(a, []);
      NoTexts();
      NoNewlines(a);
    }
  }

  lemma NewlinesCut(x: seq<byte>, y: seq<byte>)
    requires LF !in x
    ensures Newlines(x + [LF] + y) == Newlines(y) + 1
  {
    NewlinesAppend(x + [LF], y);
    OneLine(x);
  }

  lemma NoTexts()
    ensures Texts([]) == []
  {
  }

  lemma FirstText(x: seq<byte>, y: seq<byte>)
    requires LF !in x
    ensures Texts(x + [LF] + y) == [x] + Texts(y)
  {
    var s := x + [LF] + y;
    assert s[..|x|] == x && s[|x|] == LF && s[|x| + 1..] == y;
    IndexOfUnique(s, LF, |x|);
  }

  /** Names without newlines are cut off as they are. */
  lemma {:induction false} TextsOfLines(names: seq<seq<byte>>, more: seq<byte>, limit: nat)
    requires Plain(names, limit)
    ensures Texts(Lines(names) + more) == names + Texts(more)
    decreases |names|
  {
    hide Texts;
    if names == [] {
      assert Lines(names) + more == more;
    } else {
      assert IsPlain(names[0], limit);
      assert Lines(names) + more == names[0] + [LF] + (Lines(names[1..]) + more);
      FirstText(names[0], Lines(names[1..]) + more);
      TextsOfLines(names[1..], more, limit);
      assert names == [names[0]] + names[1..];
    }
  }

  /** What a name with newlines does to those that come after it: the service deals with as many texts more
      as there are newlines in it. Since the k-th answer goes to the k-th callback, each later callback is
      told about a name that was asked for that much earlier, and the first of them about parts of this one. */
  lemma AnswersShift(before: seq<seq<byte>>, name: seq<byte>, after: seq<seq<byte>>, limit: nat)
    requires Plain(before, limit) && Plain(after, limit)
    ensures var t, n, j := Texts(Lines(before) + (name + [LF] + Lines(after))), |before|, Newlines(name);
            && |t| == n + 1 + |after| + j && t[..n] == before && t[n..n + j + 1] == Texts(name + [LF])
            && forall k :: n + 1 + j <= k < |t| ==> t[k] == after[k - (n + 1) - j]
  {
    hide Texts, Lines, Newlines;
    TextsOfLines(before, name + [LF] + Lines(after), limit);
    TextsOfMore(name, Lines(after));
    TextsOfLines(after, [], limit);
    assert Lines(after) + [] == Lines(after);
    NoTexts();
    Behind(before, Texts(name + [LF]), after, Newlines(name));
  }

  lemma Behind(a: seq<seq<byte>>, b: seq<seq<byte>>, c: seq<seq<byte>>, j: nat)
    requires |b| == j + 1
    ensures var t, n := a + (b + c), |a|;
            |t| == n + 1 + |c| + j && t[..n] == a && t[n..n + j + 1] == b
            && forall k :: n + 1 + j <= k < |t| ==> t[k] == c[k - (n + 1) - j]
  {
  }
}
