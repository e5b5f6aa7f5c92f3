/** When a header line that comes in pieces is unfolded to exactly what it would be in one piece. */
module HttpFolds {
  import opened Bytes
  import opened HttpText
  import opened HttpSpec
  import opened HttpChunks

  /** Whether the unfolding of a line stopped within the blanks of a fold. */
  predicate StoppedInFold(p: seq<byte>, s: seq<byte>)
    decreases |s|, 0
  {
    var i := IndexOf(s, LF);
    i < |s| && StoppedAfter(StripCR(p + s[..i]), s[i + 1..])
  }

  predicate StoppedAfter(line: seq<byte>, after: seq<byte>)
    decreases |after|, 1
  {
    line != [] && after != [] && Blank(after[0])
    && (SkipBlanks(after) == [] || StoppedInFold(line + [SP], SkipBlanks(after)))
  }

  /** How much text a line has, or an unfinished one so far. */
  function Extent(r: Line): int {
    match r
    case Incomplete(rest) => |rest|
    case EmptyLine(_) => 0
    case FullLine(line, rest) => |line| + |rest|
  }

  lemma {:induction false} LongerStays(p: seq<byte>, q: seq<byte>, s: seq<byte>)
    requires LF !in p && LF !in q && p != [] && q != [] && Blank(p[|p| - 1]) && Blank(q[|q| - 1]) && |p| < |q|
    ensures Extent(NextLine(q, s)) - Extent(NextLine(p, s)) == |q| - |p|
    decreases |s|
  {
    if LF in s {
      var i := IndexOf(s, LF);
      var l, m, after := StripCR(p + s[..i]), StripCR(q + s[..i]), s[i + 1..];
      StripBoth(p, q, s[..i]);
      NextLineAt(p, s, l, after, p + s);
      NextLineAt(q, s, m, after, q + s);
      if after != [] && Blank(after[0]) {
        LongerStays(l + [SP], m + [SP], SkipBlanks(after));
      }
    } else {
      NextLineNone(p, s);
      NextLineNone(q, s);
    }
  }

  lemma StripBoth(p: seq<byte>, q: seq<byte>, t: seq<byte>)
    requires p != [] && q != [] && Blank(p[|p| - 1]) && Blank(q[|q| - 1]) && LF !in p && LF !in q && LF !in t
    ensures var l, m := StripCR(p + t), StripCR(q + t);
            l != [] && m != [] && |m| - |l| == |q| - |p| && LF !in l && LF !in m
  {
    if t == [] {
      assert p + t == p && q + t == q;
    }
  }

  lemma {:induction false} ExactHere(p: seq<byte>, b: seq<byte>, c: seq<byte>)
    requires LF !in p
    ensures NextLine(p, b + c) == NextLine([], p + b + c)
  {
    assert p + (b + c) == p + b + c;
    NextLineAgain(p, b + c, p + b + c);
  }

  /** An unfinished line goes on exactly as the whole does, if and only if it was not cut between
      two blanks of a fold. */
  ghost predicate GoesOn(unfinished: Line, whole: Line, c: seq<byte>, stoppedInFold: bool) {
    unfinished.Incomplete? ==>
      (whole == NextLine([], unfinished.rest + c) <==> !(stoppedInFold && c != [] && Blank(c[0])))
  }

  lemma {:induction false} ExactInFold(line: seq<byte>, after: seq<byte>, c: seq<byte>)
    requires LF !in line && line != [] && after != [] && Blank(after[0])
    ensures GoesOn(NextLine(line + [SP], SkipBlanks(after)), NextLine(line + [SP], SkipBlanks(after + c)), c,
                   StoppedAfter(line, after))
    decreases |after|, 1
  {
    SkipBlanksAppend(after, c);
    if SkipBlanks(after) == [] {
      NextLineNone(line + [SP], []);
      assert line + [SP] + [] == line + [SP];
      CutInFold(line + [SP], c);
    } else {
      ExactUnlessFoldCut(line + [SP], SkipBlanks(after), c);
    }
  }

  lemma {:induction false} ExactUnlessFoldCut(p: seq<byte>, b: seq<byte>, c: seq<byte>)
    requires LF !in p
    ensures GoesOn(NextLine(p, b), NextLine(p, b + c), c, StoppedInFold(p, b))
    decreases |b|, 0
  {
    if LF in b {
      var line, after := StripCR(p + b[..IndexOf(b, LF)]), b[IndexOf(b, LF) + 1..];
      AtNewline(p, b, c, line, after);
      StoppedAtNewline(p, b);
      ExactHere(p, b, c);
      ExactAfter(line, after, p + b, p + b + c, c);
    } else {
      NextLineNone(p, b);
      ExactHere(p, b, c);
    }
  }

  lemma {:induction false} ExactAfter(line: seq<byte>, after: seq<byte>, unread: seq<byte>, all: seq<byte>,
                                      c: seq<byte>)
    requires LF !in line && (after == [] ==> EndOfLine(line, after + c, all) == NextLine([], unread + c))
    ensures GoesOn(EndOfLine(line, after, unread), EndOfLine(line, after + c, all), c, StoppedAfter(line, after))
    decreases |after|, 2
  {
    if line != [] && after != [] && Blank(after[0]) {
      assert (after + c)[0] == after[0];
      ExactInFold(line, after, c);
    }
  }

  lemma {:induction false} StoppedAtNewline(p: seq<byte>, b: seq<byte>)
    requires LF in b
    ensures StoppedInFold(p, b) == StoppedAfter(StripCR(p + b[..IndexOf(b, LF)]), b[IndexOf(b, LF) + 1..])
  {
  }

  lemma {:induction false} CutInFold(p: seq<byte>, c: seq<byte>)
    requires LF !in p && p != [] && p[|p| - 1] == SP
    ensures NextLine(p, SkipBlanks(c)) == NextLine([], p + c) <==> !(c != [] && Blank(c[0]))
  {
    if c != [] && Blank(c[0]) {
      SkippedAreBlank(c);
      CutInBlanks(p, c[..|c| - |SkipBlanks(c)|], SkipBlanks(c), c);
    } else {
      NextLineAgain(p, c, p + c);
    }
  }

  lemma {:induction false} CutInBlanks(p: seq<byte>, z: seq<byte>, s: seq<byte>, c: seq<byte>)
    requires LF !in p && p != [] && p[|p| - 1] == SP && c == z + s && z != []
    requires forall i :: 0 <= i < |z| ==> Blank(z[i])
    ensures NextLine(p, s) != NextLine([], p + c)
  {
    assert p + c == p + z + s;
    NextLineAgain(p + z, s, p + c);
    LongerStays(p, p + z, s);
  }
}
