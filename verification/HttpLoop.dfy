/** The header loop of http.c: lines are found, unfolded in place, and taken apart one by one. */
module HttpLoop {
  import opened Bytes
  import opened HttpText
  import opened HttpSpec
  import opened HttpBuffer
  import opened HttpHeader
  import opened HttpState

  /** How the header loop goes on: with another round, out of bytes, to the content, or not at all. */
  datatype Next = Again | Wait | GoOn | Failed(failure: Failure)

  /** What is still to come once the next line is found. */
  function OnLine(st: State, line: Line, cfg: Config): Outcome {
    match line
    case Incomplete(rest) => Outcome(st, rest, [], Underflow)
    case EmptyLine(rest) => ParseContentStart(st.(progress := ContentNotRead), rest, cfg)
    case FullLine(line, rest) => AfterHeader(st, HttpSpec.ParseHeader(st.msg, line, cfg), rest, cfg)
  }

  /** What is still to come after a round that leaves `p` and `s`. */
  function Left(st: State, p: seq<byte>, s: seq<byte>, next: Next, cfg: Config): Outcome {
    match next
    case Again => OnLine(st, NextLine(p, s), cfg)
    case Wait => Outcome(st, p + s, [], Underflow)
    case GoOn => ParseContentStart(st, s, cfg)
    case Failed(f) => Outcome(st, [], [], Error(f))
  }

  lemma PrependNone(o: Outcome)
    ensures Prepend([], o) == o
  {
    assert [] + o.events == o.events;
  }

  lemma PrependBoth(e: seq<Event>, f: seq<Event>, o: Outcome)
    ensures Prepend(e, Prepend(f, o)) == Prepend(e + f, o)
  {
    assert e + (f + o.events) == e + f + o.events;
  }

  lemma EmptyGoes(st: State, after: seq<byte>, unread: seq<byte>, cfg: Config)
    ensures OnLine(st, EndOfLine([], after, unread), cfg) == Left(st.(progress := ContentNotRead), [], after, GoOn, cfg)
  {
  }

  lemma WaitGoes(st: State, line: seq<byte>, unread: seq<byte>, cfg: Config)
    requires line != []
    ensures OnLine(st, EndOfLine(line, [], unread), cfg) == Left(st, [], unread, Wait, cfg)
  {
    assert [] + unread == unread;
  }

  lemma NoneLeft(st: State, p: seq<byte>, s: seq<byte>, cfg: Config)
    requires LF !in s
    ensures Left(st, p, s, Again, cfg) == Left(st, [], p + s, Wait, cfg)
  {
    NextLineNone(p, s);
    assert [] + (p + s) == p + s;
  }

  lemma FoldGoes(st: State, line: seq<byte>, after: seq<byte>, unread: seq<byte>, cfg: Config)
    requires line != [] && after != [] && Blank(after[0])
    ensures OnLine(st, EndOfLine(line, after, unread), cfg) == Left(st, line + [SP], SkipBlanks(after), Again, cfg)
  {
  }

  lemma FullGoes(st: State, line: seq<byte>, after: seq<byte>, unread: seq<byte>, r: Read, cfg: Config)
    requires line != [] && after != [] && !Blank(after[0]) && r == HttpSpec.ParseHeader(st.msg, line, cfg)
    ensures OnLine(st, EndOfLine(line, after, unread), cfg)
            == Prepend(r.events, Left(st.(msg := r.msg), [], after, NextAfter(r.status), cfg))
  {
    assert OnLine(st, FullLine(line, after), cfg) == AfterHeader(st, r, after, cfg);
    assert r.events + [] == r.events;
    HeadersLeft(st.(msg := r.msg), after, cfg);
  }

  lemma HeadersLeft(st: State, s: seq<byte>, cfg: Config)
    ensures HttpSpec.ParseHeaders(st, s, cfg) == Left(st, [], s, Again, cfg)
  {
  }

  function NextAfter(status: Status): Next {
    if status.Error? then Failed(status.failure) else Again
  }

  /** Where the header loop stands, between rounds or after the last, if `o` was to come when the
      callbacks made were `base`. */
  ghost predicate At(parser: Parser, a: array<byte>, start: nat, sol: nat, end: nat, o: Outcome, base: seq<Event>,
                     next: Next)
    reads parser, a
  {
    && start <= sol <= end <= a.Length && base <= parser.calls
    && (if next == Again then LF !in a[start..sol] else start == sol)
    && o == Prepend(parser.calls[|base|..], Left(parser.State(), a[start..sol], a[sol..end], next, parser.cfg))
  }

  /** One round of the header loop, from `sol` on; what is unfolded of the header already is
      `a[start..sol]`. */
  method Step(parser: Parser, a: array<byte>, start: nat, sol: nat, end: nat, ghost p: seq<byte>, ghost s: seq<byte>,
              ghost o: Outcome)
    returns (start': nat, sol': nat, end': nat, next: Next)
    requires start <= sol <= end <= a.Length && p == a[start..sol] && s == a[sol..end] && LF !in p
    requires o == Left(parser.State(), p, s, Again, parser.cfg)
    modifies parser, a
    ensures start <= start' && end' <= end && OnlyWithin(a, start, end)
    ensures next == Again ==> end' - sol' < end - sol
    ensures At(parser, a, start', sol', end', o, old(parser.calls), next)
  {
    var lf := Memchr(a, LF, sol, end);
    if lf == end {
      NoLine(parser, a, start, sol, end, p, s, o);
      return start, start, end, Wait;
    }
    start', sol', end', next := AtLineEnd(parser, a, start, sol, lf, end, p, s, o);
  }

  method AtLineEnd(parser: Parser, a: array<byte>, start: nat, sol: nat, lf: nat, end: nat,
                   ghost p: seq<byte>, ghost s: seq<byte>, ghost o: Outcome)
    returns (start': nat, sol': nat, end': nat, next: Next)
    requires start <= sol <= lf < end <= a.Length && p == a[start..sol] && s == a[sol..end] && LF !in p
    requires lf == sol + IndexOf(s, LF) && o == OnLine(parser.State(), NextLine(p, s), parser.cfg)
    modifies parser, a
    ensures start <= start' && end' <= end && OnlyWithin(a, start, end)
    ensures next == Again ==> end' - sol' <= end - (lf + 1)
    ensures At(parser, a, start', sol', end', o, old(parser.calls), next)
  {
    var eol, line, after := LineEnd(a, start, sol, lf, end, p, s);
    start', sol', end', next := AtNewline(parser, a, start, eol, lf + 1, end, line, after, p + s, o);
  }

  /** Where the line ends without its end of line, and what comes behind. */
  method LineEnd(a: array<byte>, start: nat, sol: nat, lf: nat, end: nat, ghost p: seq<byte>, ghost s: seq<byte>)
    returns (eol: nat, ghost line: seq<byte>, ghost after: seq<byte>)
    requires start <= sol <= lf < end <= a.Length && p == a[start..sol] && s == a[sol..end] && LF !in p
    requires lf == sol + IndexOf(s, LF)
    ensures start <= eol <= lf && line == a[start..eol] && after == a[lf + 1..end]
    ensures LF !in line && p + s == a[start..end] && NextLine(p, s) == EndOfLine(line, after, p + s)
  {
    eol := lf;
    if eol > start && a[eol - 1] == CR {
      eol := eol - 1;
    }
    line, after := a[start..eol], a[lf + 1..end];
    AtEnd(a[..], start, sol, lf, eol, end, p, s, line, after);
  }

  lemma NoLine(parser: Parser, a: array<byte>, start: nat, sol: nat, end: nat, p: seq<byte>, s: seq<byte>, o: Outcome)
    requires start <= sol <= end <= a.Length && p == a[start..sol] && s == a[sol..end] && LF !in s
    requires o == Left(parser.State(), p, s, Again, parser.cfg)
    ensures At(parser, a, start, start, end, o, parser.calls, Wait)
  {
    assert p + s == a[start..end];
    NoneLeft(parser.State(), p, s, parser.cfg);
    Arrived(parser, a, start, end, o, Wait);
  }

  lemma AtEnd(a: seq<byte>, start: nat, sol: nat, lf: nat, eol: nat, end: nat, p: seq<byte>, s: seq<byte>,
              line: seq<byte>, after: seq<byte>)
    requires start <= sol <= lf < end <= |a| && p == a[start..sol] && s == a[sol..end] && LF !in p
    requires lf == sol + IndexOf(s, LF)
    requires eol == if lf > start && a[lf - 1] == CR then lf - 1 else lf
    requires line == a[start..eol] && after == a[lf + 1..end]
    ensures LF !in line && p + s == a[start..end] && NextLine(p, s) == EndOfLine(line, after, p + s)
  {
    var raw := p + s[..lf - sol];
    Slices(a, start, sol, lf, end, p, s, raw, after);
    WithoutCR(a, start, lf, eol);
    LineAt(p, s, lf - sol, raw, line, after);
  }

  lemma LineAt(p: seq<byte>, s: seq<byte>, i: nat, raw: seq<byte>, line: seq<byte>, after: seq<byte>)
    requires i == IndexOf(s, LF) < |s| && raw == p + s[..i] && line == StripCR(raw) && after == s[i + 1..]
    ensures NextLine(p, s) == EndOfLine(line, after, p + s) && (LF !in p ==> LF !in line)
  {
  }

  lemma Slices(a: seq<byte>, start: nat, sol: nat, lf: nat, end: nat, p: seq<byte>, s: seq<byte>, raw: seq<byte>,
               after: seq<byte>)
    requires start <= sol <= lf < end <= |a| && p == a[start..sol] && s == a[sol..end]
    requires raw == p + s[..lf - sol] && after == a[lf + 1..end]
    ensures raw == a[start..lf] && s[lf - sol + 1..] == after && p + s == a[start..end]
  {
  }

  lemma WithoutCR(a: seq<byte>, start: nat, lf: nat, eol: nat)
    requires start <= lf <= |a| && eol == if lf > start && a[lf - 1] == CR then lf - 1 else lf
    ensures start <= eol && StripCR(a[start..lf]) == a[start..eol]
  {
    assert eol < lf ==> a[start..lf] == a[start..eol] + [CR];
  }

  method AtNewline(parser: Parser, a: array<byte>, start: nat, eol: nat, nextHeader: nat, end: nat,
                   ghost line: seq<byte>, ghost after: seq<byte>, ghost unread: seq<byte>, ghost o: Outcome)
    returns (start': nat, sol': nat, end': nat, next: Next)
    requires start <= eol < nextHeader <= end <= a.Length && LF !in line
    requires line == a[start..eol] && after == a[nextHeader..end] && unread == a[start..end]
    requires o == OnLine(parser.State(), EndOfLine(line, after, unread), parser.cfg)
    modifies parser, a
    ensures start <= start' && end' <= end && OnlyWithin(a, start, end)
    ensures next == Again ==> end' - sol' <= end - nextHeader
    ensures At(parser, a, start', sol', end', o, old(parser.calls), next)
  {
    start', sol', end' := start, start, end;
    if start == eol {
      assert line == [];
      EmptyGoes(parser.State(), after, unread, parser.cfg);
      start', sol' := nextHeader, nextHeader;
      parser.progress := ContentNotRead;
      next := GoOn;
      Arrived(parser, a, nextHeader, end, o, next);
    } else if nextHeader >= end {
      assert after == [] && line != [];
      WaitGoes(parser.State(), line, unread, parser.cfg);
      next := Wait;
      Arrived(parser, a, start, end, o, next);
    } else if Blank(a[nextHeader]) {
      start', sol', end', next := GoesOn(parser, a, start, eol, nextHeader, end, line, after, unread, o);
    } else {
      start', sol', end', next := IsFull(parser, a, start, eol, nextHeader, end, line, after, unread, o);
    }
  }

  /** The header goes on in the next line. */
  method GoesOn(parser: Parser, a: array<byte>, start: nat, eol: nat, nextHeader: nat, end: nat,
                ghost line: seq<byte>, ghost after: seq<byte>, ghost unread: seq<byte>, ghost o: Outcome)
    returns (start': nat, sol': nat, end': nat, next: Next)
    requires start < eol < nextHeader < end <= a.Length && LF !in line && Blank(a[nextHeader])
    requires line == a[start..eol] && after == a[nextHeader..end]
    requires o == OnLine(parser.State(), EndOfLine(line, after, unread), parser.cfg)
    modifies parser, a
    ensures start <= start' && end' <= end && OnlyWithin(a, start, end)
    ensures next == Again ==> end' - sol' <= end - nextHeader
    ensures At(parser, a, start', sol', end', o, old(parser.calls), next)
  {
    FoldGoes(parser.State(), line, after, unread, parser.cfg);
    start', sol', end', next := FoldHere(parser, a, start, eol, nextHeader, end, line, SkipBlanks(after), o);
  }

  /** The header is complete. */
  method IsFull(parser: Parser, a: array<byte>, start: nat, eol: nat, nextHeader: nat, end: nat,
                ghost line: seq<byte>, ghost after: seq<byte>, ghost unread: seq<byte>, ghost o: Outcome)
    returns (start': nat, sol': nat, end': nat, next: Next)
    requires start < eol < nextHeader < end <= a.Length && LF !in line && !Blank(a[nextHeader])
    requires line == a[start..eol] && after == a[nextHeader..end]
    requires o == OnLine(parser.State(), EndOfLine(line, after, unread), parser.cfg)
    modifies parser, a
    ensures start <= start' && end' <= end && OnlyWithin(a, start, end)
    ensures next == Again ==> end' - sol' <= end - nextHeader
    ensures At(parser, a, start', sol', end', o, old(parser.calls), next)
  {
    ghost var r := HttpSpec.ParseHeader(parser.message, line, parser.cfg);
    FullGoes(parser.State(), line, after, unread, r, parser.cfg);
    next := FullHere(parser, a, start, eol, nextHeader, end, line, after, r, o);
    return nextHeader, nextHeader, end, next;
  }

  lemma Arrived(parser: Parser, a: array<byte>, start: nat, end: nat, o: Outcome, next: Next)
    requires start <= end <= a.Length && next != Again && o == Left(parser.State(), [], a[start..end], next, parser.cfg)
    ensures At(parser, a, start, start, end, o, parser.calls, next)
  {
    PrependNone(o);
    assert a[start..start] == [];
  }

  method FullHere(parser: Parser, a: array<byte>, start: nat, eol: nat, nextHeader: nat, end: nat,
                  ghost line: seq<byte>, ghost after: seq<byte>, ghost r: Read, ghost o: Outcome)
    returns (next: Next)
    requires start <= eol < nextHeader < end <= a.Length && line == a[start..eol] && after == a[nextHeader..end]
    requires r == HttpSpec.ParseHeader(parser.message, line, parser.cfg)
    requires o == Prepend(r.events, Left(parser.State().(msg := r.msg), [], after, NextAfter(r.status), parser.cfg))
    modifies parser`message, parser`calls, a
    ensures OnlyWithin(a, start, nextHeader)
    ensures At(parser, a, nextHeader, nextHeader, end, o, old(parser.calls), next)
  {
    var status := HttpHeader.ParseHeader(parser, a, start, eol, line, r);
    next := NextAfter(status);
    assert parser.calls[|old(parser.calls)|..] == r.events && a[nextHeader..end] == after
           && a[nextHeader..nextHeader] == [];
  }

  /** What is unfolded of the header, and what is still to be read, after a fold. */
  method FoldLine(a: array<byte>, start: nat, eol: nat, nextHeader: nat, end: nat, ghost line: seq<byte>,
                  ghost rest: seq<byte>)
    returns (end': nat)
    requires start <= eol < nextHeader < end <= a.Length && LF !in line && Blank(a[nextHeader])
    requires line == a[start..eol] && rest == SkipBlanks(a[nextHeader..end])
    modifies a
    ensures eol < end' < end && end' - eol <= end - nextHeader && OnlyWithin(a, start, end)
    ensures a[start..eol + 1] == line + [SP] && LF !in line + [SP] && a[eol + 1..end'] == rest
  {
    end' := Fold(a, eol, nextHeader, end);
    Folded(a, start, eol, line);
  }

  method FoldHere(parser: Parser, a: array<byte>, start: nat, eol: nat, nextHeader: nat, end: nat,
                  ghost line: seq<byte>, ghost rest: seq<byte>, ghost o: Outcome)
    returns (start': nat, sol': nat, end': nat, next: Next)
    requires start <= eol < nextHeader < end <= a.Length && LF !in line && Blank(a[nextHeader])
    requires line == a[start..eol] && rest == SkipBlanks(a[nextHeader..end])
    requires o == Left(parser.State(), line + [SP], rest, Again, parser.cfg)
    modifies parser, a
    ensures start <= start' && end' <= end && OnlyWithin(a, start, end)
    ensures next == Again ==> end' - sol' <= end - nextHeader
    ensures At(parser, a, start', sol', end', o, old(parser.calls), next)
  {
    start', sol', next := start, eol + 1, Again;
    end' := FoldLine(a, start, eol, nextHeader, end, line, rest);
    AnotherRound(parser, a, start, eol + 1, end', line + [SP], rest, o);
  }

  lemma AnotherRound(parser: Parser, a: array<byte>, start: nat, sol: nat, end: nat, p: seq<byte>, s: seq<byte>,
                     o: Outcome)
    requires start <= sol <= end <= a.Length && p == a[start..sol] && s == a[sol..end] && LF !in p
    requires o == Left(parser.State(), p, s, Again, parser.cfg)
    ensures At(parser, a, start, sol, end, o, parser.calls, Again)
  {
    PrependNone(o);
  }

  lemma Folded(a: array<byte>, start: nat, eol: nat, line: seq<byte>)
    requires start <= eol < a.Length && a[eol] == SP && |line| == eol - start && LF !in line
    requires forall j :: start <= j < eol ==> a[j] == line[j - start]
    ensures a[start..eol + 1] == line + [SP] && LF !in line + [SP]
  {
  }

  /** A round of the header loop, with those before it. */
  method Round(parser: Parser, a: array<byte>, start: nat, sol: nat, end: nat, ghost o: Outcome, ghost base: seq<Event>)
    returns (start': nat, sol': nat, end': nat, next: Next)
    requires At(parser, a, start, sol, end, o, base, Again)
    modifies parser, a
    ensures start <= start' && end' <= end && OnlyWithin(a, start, end)
    ensures next == Again ==> end' - sol' < end - sol
    ensures At(parser, a, start', sol', end', o, base, next)
  {
    ghost var rest := Left(parser.State(), a[start..sol], a[sol..end], Again, parser.cfg);
    ghost var before := parser.calls[|base|..];
    start', sol', end', next := Step(parser, a, start, sol, end, a[start..sol], a[sol..end], rest);
    assert parser.calls[|base|..] == before + parser.calls[|old(parser.calls)|..];
    PrependBoth(before, parser.calls[|old(parser.calls)|..],
                Left(parser.State(), a[start'..sol'], a[sol'..end'], next, parser.cfg));
  }

  /** The header loop. */
  method ParseHeaders(parser: Parser, a: array<byte>, start: nat, end: nat, ghost o: Outcome)
    returns (start': nat, end': nat, next: Next)
    requires start <= end <= a.Length && o == HttpSpec.ParseHeaders(parser.State(), a[start..end], parser.cfg)
    modifies parser, a
    ensures start <= start' && end' <= end && OnlyWithin(a, start, end)
    ensures next != Again && At(parser, a, start', start', end', o, old(parser.calls), next)
  {
    var sol := start;
    start', end', next := start, end, Again;
    HeadersLeft(parser.State(), a[start..end], parser.cfg);
    PrependNone(o);
    assert a[start..start] == [];
    while next == Again
      invariant start <= start' && end' <= end && OnlyWithin(a, start, end)
      invariant At(parser, a, start', sol, end', o, old(parser.calls), next)
      decreases next == Again, end' - sol
    {
      start', sol, end', next := Round(parser, a, start', sol, end', o, old(parser.calls));
    }
  }
}
