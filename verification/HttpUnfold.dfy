/** What a folded header line looks like, and that exactly such lines are unfolded, each fold to one space
    (section 3.2.4 of RFC 7230). */
module HttpUnfold {
  import opened Bytes
  import opened HttpChunks
  import opened HttpSpec
  import opened HttpText

  /** How a line goes on in the next one: its end of line, the blanks, and more text. */
  datatype Fold = Fold(eol: seq<byte>, blanks: seq<byte>, text: seq<byte>)

  /** An end of line: CR LF, or a LF that no CR happens to stand before. */
  predicate IsEol(eol: seq<byte>, before: seq<byte>) {
    eol == [CR, LF] || (eol == [LF] && (before == [] || before[|before| - 1] != CR))
  }

  predicate IsBlanks(s: seq<byte>) {
    s != [] && forall i :: 0 <= i < |s| ==> Blank(s[i])
  }

  predicate IsText(s: seq<byte>) {
    LF !in s && (s != [] ==> !Blank(s[0]))
  }

  /** Folds that may follow `line`. */
  predicate AreFolds(line: seq<byte>, folds: seq<Fold>)
    decreases |folds|
  {
    folds != [] ==>
      var f := folds[0];
      IsEol(f.eol, line) && IsBlanks(f.blanks) && IsText(f.text) && AreFolds(line + [SP] + f.text, folds[1..])
  }

  /** The folds as they are written. */
  function Written(folds: seq<Fold>): seq<byte>
    decreases |folds|
  {
    if folds == [] then [] else folds[0].eol + folds[0].blanks + folds[0].text + Written(folds[1..])
  }

  /** And as they are read, with single spaces. */
  function Joined(line: seq<byte>, folds: seq<Fold>): seq<byte>
    decreases |folds|
  {
    if folds == [] then line else Joined(line + [SP] + folds[0].text, folds[1..])
  }

  /** `s` is a line, perhaps folded, that reads as `line`, with `rest` behind it that does not belong to it;
      `p` is what is unfolded of it already. */
  ghost predicate IsLine(p: seq<byte>, s: seq<byte>, line: seq<byte>, rest: seq<byte>,
                         text: seq<byte>, folds: seq<Fold>, eol: seq<byte>) {
    && s == text + (Written(folds) + (eol + rest)) && line == Joined(p + text, folds)
    && LF !in text && p + text != [] && AreFolds(p + text, folds) && IsEol(eol, line)
    && rest != [] && !Blank(rest[0])
  }

  lemma {:induction false} Ends(p: seq<byte>, text: seq<byte>, eol: seq<byte>, after: seq<byte>)
    requires LF !in text && IsEol(eol, p + text)
    ensures var s := text + (eol + after); NextLine(p, s) == EndOfLine(p + text, after, p + s)
  {
    hide NextLine, EndOfLine, IndexOf;
    var s, i := text + (eol + after), |text| + |eol| - 1;
    assert s[i] == LF && LF !in s[..i];
    IndexOfUnique(s, LF, i);
    assert p + s[..i] == if eol == [LF] then p + text else p + text + [CR];
    assert s[i + 1..] == after;
    NextLineAt(p, s, p + text, after, p + s);
  }

  lemma {:induction false} Skips(blanks: seq<byte>, more: seq<byte>)
    requires (forall i :: 0 <= i < |blanks| ==> Blank(blanks[i])) && (more != [] ==> !Blank(more[0]))
    ensures SkipBlanks(blanks + more) == more
    decreases |blanks|
  {
    if blanks == [] {
      assert blanks + more == more;
    } else {
      assert (blanks + more)[1..] == blanks[1..] + more;
      Skips(blanks[1..], more);
    }
  }

  /** What stands behind the blanks of a fold is no blank. */
  lemma MoreStarts(text: seq<byte>, folds: seq<Fold>, eol: seq<byte>, rest: seq<byte>, line: seq<byte>)
    requires IsText(text) && AreFolds(line, folds) && (eol == [LF] || eol == [CR, LF])
    ensures var more := text + (Written(folds) + (eol + rest)); more != [] && !Blank(more[0])
  {
  }

  /** A fold is read as one space. */
  lemma {:induction false} OneFold(p: seq<byte>, text: seq<byte>, f: Fold, more: seq<byte>)
    requires LF !in text && p + text != [] && IsEol(f.eol, p + text) && IsBlanks(f.blanks)
    requires more != [] && !Blank(more[0])
    ensures NextLine(p, text + (f.eol + (f.blanks + more))) == NextLine(p + text + [SP], more)
  {
    Ends(p, text, f.eol, f.blanks + more);
    Skips(f.blanks, more);
    assert (f.blanks + more)[0] == f.blanks[0];
  }

  /** What is left of a folded line after its first fold. */
  lemma {:induction false} Peeled(p: seq<byte>, s: seq<byte>, line: seq<byte>, rest: seq<byte>,
                                  text: seq<byte>, folds: seq<Fold>, eol: seq<byte>)
    returns (more: seq<byte>)
    requires IsLine(p, s, line, rest, text, folds, eol) && folds != []
    ensures IsLine(p + text + [SP], more, line, rest, folds[0].text, folds[1..], eol)
    ensures s == text + (folds[0].eol + (folds[0].blanks + more)) && more != [] && !Blank(more[0])
  {
    var f := folds[0];
    more := f.text + (Written(folds[1..]) + (eol + rest));
    MoreStarts(f.text, folds[1..], eol, rest, p + text + [SP] + f.text);
    assert Written(folds) + (eol + rest) == f.eol + (f.blanks + more);
  }

  /** A line that is written like this is read as that. */
  lemma {:induction false} Unfolds(p: seq<byte>, s: seq<byte>, line: seq<byte>, rest: seq<byte>,
                                   text: seq<byte>, folds: seq<Fold>, eol: seq<byte>)
    requires IsLine(p, s, line, rest, text, folds, eol)
    ensures NextLine(p, s) == FullLine(line, rest)
    decreases |folds|
  {
    hide NextLine, SkipBlanks;
    if folds == [] {
      assert Written(folds) + (eol + rest) == eol + rest;
      Ends(p, text, eol, rest);
    } else {
      var more := Peeled(p, s, line, rest, text, folds, eol);
      OneFold(p, text, folds[0], more);
      Unfolds(p + text + [SP], more, line, rest, folds[0].text, folds[1..], eol);
    }
  }

  /** A folded line, put together again. */
  lemma {:induction false} Built(p: seq<byte>, line: seq<byte>, rest: seq<byte>, text: seq<byte>, f: Fold,
                                 more: seq<byte>, folds: seq<Fold>, eol: seq<byte>)
    requires IsLine(p + text + [SP], more, line, rest, f.text, folds, eol) && more != [] && !Blank(more[0])
    requires LF !in text && p + text != [] && IsEol(f.eol, p + text) && IsBlanks(f.blanks)
    ensures IsLine(p, text + (f.eol + (f.blanks + more)), line, rest, text, [f] + folds, eol)
  {
    var all := [f] + folds;
    assert all[0] == f && all[1..] == folds;
    assert f.text != [] ==> more[0] == f.text[0];
    assert Written(all) + (eol + rest) == f.eol + (f.blanks + more);
  }

  /** And only such lines are. */
  lemma {:induction false} Folded(p: seq<byte>, s: seq<byte>, line: seq<byte>, rest: seq<byte>)
    returns (text: seq<byte>, folds: seq<Fold>, eol: seq<byte>)
    requires NextLine(p, s) == FullLine(line, rest) && LF !in p && (p == [] || p[|p| - 1] == SP)
    ensures IsLine(p, s, line, rest, text, folds, eol)
    decreases |s|
  {
    hide NextLine, IndexOf;
    var after;
    HasEnd(p, s);
    text, eol, after := FirstEnd(p, s);
    if after != [] && Blank(after[0]) {
      var f, more := BlanksOf(eol, after);
      Folds(p + text, after, p + s);
      HasEnd(p + text + [SP], more);
      var text', folds', eol' := Folded(p + text + [SP], more, line, rest);
      f := f.(text := text');
      Built(p, line, rest, text, f, more, folds', eol');
      folds, eol := [f] + folds', eol';
    } else {
      folds := [];
      assert Written(folds) + (eol + rest) == eol + after;
    }
  }

  lemma HasEnd(p: seq<byte>, s: seq<byte>)
    requires NextLine(p, s).FullLine?
    ensures LF in s
  {
  }

  lemma Folds(line: seq<byte>, after: seq<byte>, unread: seq<byte>)
    requires line != [] && after != [] && Blank(after[0])
    ensures EndOfLine(line, after, unread) == NextLine(line + [SP], SkipBlanks(after))
  {
  }

  lemma {:induction false} BlanksOf(eol: seq<byte>, after: seq<byte>) returns (f: Fold, more: seq<byte>)
    requires after != [] && Blank(after[0])
    ensures more == SkipBlanks(after) && |more| < |after| && (more != [] ==> !Blank(more[0]))
    ensures IsBlanks(f.blanks) && f.eol == eol && after == f.blanks + more
  {
    var n := |after| - |SkipBlanks(after)|;
    SkippedAreBlank(after);
    f, more := Fold(eol, after[..n], []), SkipBlanks(after);
  }

  /** The first end of line, if there is one. */
  lemma {:induction false} FirstEnd(p: seq<byte>, s: seq<byte>)
    returns (text: seq<byte>, eol: seq<byte>, after: seq<byte>)
    requires LF in s && LF !in p && (p == [] || p[|p| - 1] == SP)
    ensures s == text + (eol + after) && LF !in text && IsEol(eol, p + text)
    ensures NextLine(p, s) == EndOfLine(p + text, after, p + s)
  {
    hide NextLine, IndexOf, EndOfLine;
    var i := IndexOf(s, LF);
    CutAt(s, LF);
    text, eol, after := CutCR(s[..i], s[i + 1..]);
    NoCRAtEnd(p, text);
    Ends(p, text, eol, after);
  }

  lemma NoCRAtEnd(p: seq<byte>, text: seq<byte>)
    requires p == [] || p[|p| - 1] == SP
    ensures var s := p + text;
            s != [] && s[|s| - 1] == CR ==> text != [] && text[|text| - 1] == CR
  {
  }

  /** What stands before a LF, with or without a CR at its end. */
  lemma CutCR(before: seq<byte>, behind: seq<byte>) returns (text: seq<byte>, eol: seq<byte>, after: seq<byte>)
    requires LF !in before
    ensures before + [LF] + behind == text + (eol + after) && LF !in text && after == behind && text <= before
    ensures eol == [CR, LF] || (eol == [LF] && text == before && (text != [] ==> text[|text| - 1] != CR))
  {
    after := behind;
    if before != [] && before[|before| - 1] == CR {
      text, eol := before[..|before| - 1], [CR, LF];
    } else {
      text, eol := before, [LF];
    }
  }

  /** The lines that the parser unfolds are exactly those that are written so, each with what they are
      read as. */
  lemma UnfoldsExactly(s: seq<byte>, line: seq<byte>, rest: seq<byte>)
    ensures NextLine([], s) == FullLine(line, rest)
            <==> exists text, folds, eol :: IsLine([], s, line, rest, text, folds, eol)
  {
    if NextLine([], s) == FullLine(line, rest) {
      var text, folds, eol := Folded([], s, line, rest);
    }
    if text, folds, eol :| IsLine([], s, line, rest, text, folds, eol) {
      Unfolds([], s, line, rest, text, folds, eol);
    }
  }
}
