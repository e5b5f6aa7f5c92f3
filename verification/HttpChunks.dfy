/** However the bytes of a request are split into chunks, with the bytes a call leaves put in front
    of the next chunk, the resumed parser does what one call on all the bytes does. Only one thing
    tells: a fold that is split within its blanks leaves more than one of them, so header texts
    agree up to runs of blanks. */
module HttpChunks {
  import opened Bytes
  import opened HttpText
  import opened HttpSpec

  // ----- what agrees

  /** The content type is left out: its copy is cut off at 63 bytes, blanks included. */
  ghost predicate SameMessage(a: Message, b: Message) {
    a.method_ == b.method_ && a.version == b.version && a.closing == b.closing && a.contentLength == b.contentLength
    && a.client == b.client
  }

  ghost predicate SameState(a: State, b: State) {
    a.progress == b.progress && a.loaded == b.loaded && SameMessage(a.msg, b.msg)
  }

  ghost predicate AlikeEvent(a: Event, b: Event) {
    if a.Header? && b.Header? then Alike(a.name, b.name) && Alike(a.value, b.value) else a == b
  }

  ghost predicate AlikeEvents(a: seq<Event>, b: seq<Event>) {
    |a| == |b| && forall i :: 0 <= i < |a| ==> AlikeEvent(a[i], b[i])
  }

  ghost predicate AlikeRead(a: Read, b: Read) {
    SameMessage(a.msg, b.msg) && AlikeEvents(a.events, b.events) && a.status == b.status
  }

  /** Callbacks that do not tell one run of blanks from another. */
  ghost predicate Insensitive(cfg: Config) {
    forall c, a, b :: AlikeEvent(a, b) ==> SameReply(c, a, b, cfg)
  }

  /** Bytes left within the headers: alike up to the first newline, the same from there. */
  ghost predicate AlikeRest(a: seq<byte>, b: seq<byte>) {
    && Alike(a[..IndexOf(a, LF)], b[..IndexOf(b, LF)])
    && a[IndexOf(a, LF)..] == b[IndexOf(b, LF)..]
  }

  ghost predicate AlikeLine(a: Line, b: Line) {
    match (a, b)
    case (FullLine(l, r), FullLine(m, s)) => Alike(l, m) && r == s
    case (EmptyLine(r), EmptyLine(s)) => r == s
    case (Incomplete(q), Incomplete(r)) => AlikeRest(q, r)
    case _ => false
  }

  ghost predicate AlikeOutcome(a: Outcome, b: Outcome) {
    && SameState(a.st, b.st) && AlikeEvents(a.events, b.events)
    && (a.status.Error? || b.status.Error? ==> a.status == b.status)
    && (!a.status.Error? ==> if a.st.progress == Headers then AlikeRest(a.rest, b.rest) else a.rest == b.rest)
  }

  // ----- one header line

  lemma {:induction false} SplitAtLF(p: seq<byte>, s: seq<byte>)
    requires LF !in p
    ensures var i, j := IndexOf(s, LF), IndexOf(p + s, LF);
            && j == |p| + i && (p + s)[..j] == p + s[..i] && (p + s)[j..] == s[i..]
            && (i < |s| ==> (p + s)[j + 1..] == s[i + 1..])
  {
    IndexOfAppend(p, s, LF);
  }

  lemma {:induction false} RestOf(p: seq<byte>, q: seq<byte>, t: seq<byte>)
    requires LF !in p && LF !in q && Alike(p, q)
    ensures AlikeRest(p + t, q + t)
  {
    SplitAtLF(p, t);
    SplitAtLF(q, t);
    AlikeAppend(p, q, t[..IndexOf(t, LF)]);
  }

  lemma {:induction false} RestMore(a: seq<byte>, b: seq<byte>, c: seq<byte>)
    requires AlikeRest(a, b)
    ensures AlikeRest(a + c, b + c)
  {
    var i, j := IndexOf(a, LF), IndexOf(b, LF);
    var t := a[i..];
    assert a + c == a[..i] + (t + c) && b + c == b[..j] + (t + c);
    RestOf(a[..i], b[..j], t + c);
  }

  /** Two ways to come upon the same newline. */
  lemma {:induction false} SameLine(p: seq<byte>, s: seq<byte>, q: seq<byte>, t: seq<byte>)
    requires LF in s && LF in t && p + s == q + t
    requires p + s[..IndexOf(s, LF)] == q + t[..IndexOf(t, LF)] && s[IndexOf(s, LF) + 1..] == t[IndexOf(t, LF) + 1..]
    ensures NextLine(p, s) == NextLine(q, t)
  {
    var line, after := StripCR(p + s[..IndexOf(s, LF)]), s[IndexOf(s, LF) + 1..];
    NextLineAt(p, s, line, after, p + s);
    NextLineAt(q, t, line, after, p + s);
  }

  lemma {:induction false} Joined(p: seq<byte>, s: seq<byte>, t: seq<byte>)
    requires LF !in p && t == p + s
    ensures [] + t == p + s && (LF in s <==> LF in t)
    ensures LF in s ==> p + s[..IndexOf(s, LF)] == [] + t[..IndexOf(t, LF)]
                        && s[IndexOf(s, LF) + 1..] == t[IndexOf(t, LF) + 1..]
  {
    SplitAtLF(p, s);
    EmptyFront(t);
    EmptyFront(t[..IndexOf(t, LF)]);
  }

  lemma EmptyFront(t: seq<byte>)
    ensures [] + t == t
  {
  }

  /** What is unfolded already might as well be read again. */
  lemma {:induction false} NextLineAgain(p: seq<byte>, s: seq<byte>, t: seq<byte>)
    requires LF !in p && t == p + s
    ensures NextLine(p, s) == NextLine([], t)
  {
    Joined(p, s, t);
    if LF in s {
      SameLine(p, s, [], t);
    } else {
      NextLineNone([], t);
      NextLineNone(p, s);
    }
  }

  lemma {:induction false} StripAlike(x: seq<byte>, y: seq<byte>)
    requires Alike(x, y)
    ensures Alike(StripCR(x), StripCR(y)) && (StripCR(x) == [] <==> StripCR(y) == [])
  {
    AlikeEmpty(x, y);
    AlikeEmpty(StripCR(x), StripCR(y));
  }

  lemma NoNewline(p: seq<byte>, s: seq<byte>)
    requires LF !in p
    ensures LF !in StripCR(p + s[..IndexOf(s, LF)])
  {
  }

  lemma {:induction false} NextLineAlike(p: seq<byte>, q: seq<byte>, s: seq<byte>)
    requires LF !in p && LF !in q && Alike(p, q)
    ensures AlikeLine(NextLine(p, s), NextLine(q, s))
    decreases |s|, 0
  {
    RestOf(p, q, s);
    if LF in s {
      var front, after := s[..IndexOf(s, LF)], s[IndexOf(s, LF) + 1..];
      AlikeAppend(p, q, front);
      StripAlike(p + front, q + front);
      NoNewline(p, s);
      NoNewline(q, s);
      NextLineAt(p, s, StripCR(p + front), after, p + s);
      NextLineAt(q, s, StripCR(q + front), after, q + s);
      EndAlike(StripCR(p + front), StripCR(q + front), after, p + s, q + s);
    } else {
      NextLineNone(p, s);
      NextLineNone(q, s);
    }
  }

  lemma {:induction false} EndAlike(l: seq<byte>, m: seq<byte>, after: seq<byte>, p: seq<byte>, q: seq<byte>)
    requires LF !in l && LF !in m && Alike(l, m) && (l == [] <==> m == []) && AlikeRest(p, q)
    ensures AlikeLine(EndOfLine(l, after, p), EndOfLine(m, after, q))
    decreases |after|, 2
  {
    if l != [] && after != [] && Blank(after[0]) {
      FoldAlike(l, m, SkipBlanks(after));
    }
  }

  lemma {:induction false} FoldAlike(l: seq<byte>, m: seq<byte>, s: seq<byte>)
    requires LF !in l && LF !in m && Alike(l, m)
    ensures AlikeLine(NextLine(l + [SP], s), NextLine(m + [SP], s))
    decreases |s|, 1
  {
    AlikeAppend(l, m, [SP]);
    NextLineAlike(l + [SP], m + [SP], s);
  }

  lemma {:induction false} SkipBlanksAppend(a: seq<byte>, c: seq<byte>)
    ensures SkipBlanks(a + c) == if SkipBlanks(a) == [] then SkipBlanks(c) else SkipBlanks(a) + c
  {
    if a == [] {
      assert a + c == c;
    } else if Blank(a[0]) {
      assert (a + c)[1..] == a[1..] + c;
      SkipBlanksAppend(a[1..], c);
    }
  }

  lemma {:induction false} SkippedAreBlank(c: seq<byte>)
    ensures var n := |c| - |SkipBlanks(c)|; c[n..] == SkipBlanks(c) && forall i :: 0 <= i < n ==> Blank(c[i])
    decreases |c|
  {
    if c != [] && Blank(c[0]) {
      var n := |c| - |SkipBlanks(c)|;
      SkippedAreBlank(c[1..]);
      assert c[1..][n - 1..] == c[n..];
      forall i | 0 <= i < n ensures Blank(c[i]) {
        assert i > 0 ==> c[i] == c[1..][i - 1];
      }
    }
  }

  lemma {:induction false} Absorb(acc: seq<byte>, z: seq<byte>)
    requires acc != [] && acc[|acc| - 1] == SP && forall i :: 0 <= i < |z| ==> Blank(z[i])
    ensures SqueezeAll(acc, z) == acc
    decreases |z|
  {
    if z != [] {
      Absorb(acc, z[1..]);
    }
  }

  lemma {:induction false} MoreBlanks(p: seq<byte>, c: seq<byte>)
    ensures var n := |c| - |SkipBlanks(c)|;
            c == c[..n] + SkipBlanks(c) && LF !in c[..n] && Alike(p + [SP], p + [SP] + c[..n])
  {
    var z := c[..|c| - |SkipBlanks(c)|];
    SkippedAreBlank(c);
    CollapseLast(p + [SP]);
    SqueezeAppend([], p + [SP], z);
    Absorb(Collapse(p + [SP]), z);
  }

  /** `a` is the line found before the bytes `c` came, `b` the one found with them: bytes behind a
      complete line stay behind it; an incomplete line goes on from the bytes it left. */
  ghost predicate LineMore(a: Line, b: Line, c: seq<byte>) {
    match a
    case FullLine(line, rest) => b == FullLine(line, rest + c)
    case EmptyLine(rest) => b == EmptyLine(rest + c)
    case Incomplete(rest) => AlikeLine(b, NextLine([], rest + c))
  }

  lemma {:induction false} CutsMore(b: seq<byte>, c: seq<byte>)
    requires LF in b
    ensures var i := IndexOf(b, LF);
            IndexOf(b + c, LF) == i && (b + c)[..i] == b[..i] && (b + c)[i + 1..] == b[i + 1..] + c
  {
    IndexOfAppend(b, c, LF);
  }

  lemma {:induction false} NextLineMore(p: seq<byte>, b: seq<byte>, c: seq<byte>)
    requires LF !in p
    ensures LineMore(NextLine(p, b), NextLine(p, b + c), c)
    decreases |b|, 0
  {
    LeftAsIs(p, b, c);
    if LF in b {
      var line, after := StripCR(p + b[..IndexOf(b, LF)]), b[IndexOf(b, LF) + 1..];
      AtNewline(p, b, c, line, after);
      EndMore(line, after, p + b, p + b + c, c);
    } else {
      NextLineNone(p, b);
    }
  }

  lemma {:induction false} AtNewline(p: seq<byte>, b: seq<byte>, c: seq<byte>, line: seq<byte>, after: seq<byte>)
    requires LF !in p && LF in b && line == StripCR(p + b[..IndexOf(b, LF)]) && after == b[IndexOf(b, LF) + 1..]
    ensures NextLine(p, b) == EndOfLine(line, after, p + b) && LF !in line
    ensures NextLine(p, b + c) == EndOfLine(line, after + c, p + b + c)
  {
    CutsMore(b, c);
    NextLineAt(p, b, line, after, p + b);
    Grouped(p, b, c);
    NextLineAt(p, b + c, line, after + c, p + b + c);
  }

  lemma {:induction false} EndMore(line: seq<byte>, after: seq<byte>, unread: seq<byte>, all: seq<byte>, c: seq<byte>)
    requires LF !in line && (after == [] ==> AlikeLine(EndOfLine(line, after + c, all), NextLine([], unread + c)))
    ensures LineMore(EndOfLine(line, after, unread), EndOfLine(line, after + c, all), c)
    decreases |after|, 2
  {
    if line != [] && after != [] && Blank(after[0]) {
      FoldMore(line, after, c);
    }
  }

  lemma {:induction false} LeftAsIs(p: seq<byte>, b: seq<byte>, c: seq<byte>)
    requires LF !in p
    ensures AlikeLine(NextLine(p, b + c), NextLine([], p + b + c))
  {
    assert p + (b + c) == p + b + c;
    NextLineAgain(p, b + c, p + b + c);
    NextLineAlike([], [], p + b + c);
  }

  lemma {:induction false} FoldMore(line: seq<byte>, b: seq<byte>, c: seq<byte>)
    requires LF !in line
    ensures LineMore(NextLine(line + [SP], SkipBlanks(b)), NextLine(line + [SP], SkipBlanks(b + c)), c)
    decreases |b|, 1
  {
    SkipBlanksAppend(b, c);
    if SkipBlanks(b) == [] {
      assert line + [SP] + [] == line + [SP];
      BlanksRead(line, c);
    } else {
      NextLineMore(line + [SP], SkipBlanks(b), c);
    }
  }

  lemma {:induction false} BlanksRead(line: seq<byte>, c: seq<byte>)
    requires LF !in line
    ensures AlikeLine(NextLine(line + [SP], SkipBlanks(c)), NextLine([], line + [SP] + c))
  {
    var n := |c| - |SkipBlanks(c)|;
    var p := line + [SP];
    MoreBlanks(line, c);
    Rejoined(p, c, n);
    NextLineAgain(p + c[..n], SkipBlanks(c), p + c);
    NextLineAlike(p, p + c[..n], SkipBlanks(c));
  }

  lemma {:induction false} Rejoined(p: seq<byte>, c: seq<byte>, n: nat)
    requires n <= |c| && c == c[..n] + SkipBlanks(c)
    ensures p + c == p + c[..n] + SkipBlanks(c)
  {
  }

  // ----- one header

  lemma {:induction false} WordAlike(x: seq<byte>, y: seq<byte>, word: seq<byte>)
    requires Alike(x, y) && forall i :: 0 <= i < |word| ==> !Blank(word[i])
    ensures CString(x) == word <==> CString(y) == word
  {
    AlikeCString(x, y);
    if CString(x) == word {
      AlikeNoBlank(CString(x), CString(y));
    }
    if CString(y) == word {
      AlikeNoBlank(CString(y), CString(x));
    }
  }

  lemma {:induction false} KnownAlike(x: seq<byte>, y: seq<byte>)
    requires Alike(x, y)
    ensures KnownName(x) == KnownName(y)
  {
    WordAlike(x, y, CONNECTION);
    WordAlike(x, y, CONTENT_LENGTH);
    WordAlike(x, y, CONTENT_TYPE);
  }

  lemma {:induction false} PersistenceAlike(m: Message, n: Message, x: seq<byte>, y: seq<byte>)
    requires SameMessage(m, n) && Alike(x, y)
    ensures SameMessage(Persistence(m, x), Persistence(n, y))
  {
    WordAlike(x, y, KEEP_ALIVE);
    WordAlike(x, y, CLOSE);
  }

  lemma {:induction false} DigitsAlike(x: seq<byte>, y: seq<byte>, digits: DigitTest)
    requires Alike(x, y)
    ensures AllDigits(x) || AllDigits(y) ==> x == y
    ensures LengthAccepted(x, digits) <==> LengthAccepted(y, digits)
  {
    if AllDigits(x) {
      AlikeNoBlank(x, y);
    }
    if AllDigits(y) {
      AlikeNoBlank(y, x);
    }
  }

  lemma {:induction false} NotedAlike(m: Message, n: Message, known: Known, x: seq<byte>, y: seq<byte>)
    requires SameMessage(m, n) && Alike(x, y)
    ensures SameMessage(Noted(m, known, x), Noted(n, known, y))
  {
    match known
    case Connection => PersistenceAlike(m, n, x, y);
    case ContentLength => DigitsAlike(x, y, EachByte);
    case _ =>
  }

  /** Alike header lines make the same of the message, and alike callbacks. */
  lemma {:induction false} HeaderAlike(m: Message, n: Message, x: seq<byte>, y: seq<byte>, cfg: Config)
    requires SameMessage(m, n) && Alike(x, y) && Insensitive(cfg)
    ensures AlikeRead(ParseHeader(m, x, cfg), ParseHeader(n, y, cfg))
  {
    var i, j := IndexOf(x, COLON), IndexOf(y, COLON);
    AlikeCut(x, y, COLON);
    if i < |x| {
      AlikeStrip(x[..i], y[..j]);
      AlikeStrip(x[i + 1..], y[j + 1..]);
      PartsAlike(m, n, Strip(x[..i]), Strip(y[..j]), Strip(x[i + 1..]), Strip(y[j + 1..]), cfg);
    }
  }

  lemma {:induction false} PartsAlike(m: Message, n: Message, rawName: seq<byte>, rawName': seq<byte>,
                                      text: seq<byte>, text': seq<byte>, cfg: Config)
    requires SameMessage(m, n) && Alike(rawName, rawName') && Alike(text, text') && Insensitive(cfg)
    requires rawName == [] <==> rawName' == []
    ensures AlikeRead(HeaderParts(m, rawName, text, cfg), HeaderParts(n, rawName', text', cfg))
  {
    AlikeLower(rawName, rawName');
    NamedAlike(m, n, Lower(rawName), Lower(rawName'), text, text', cfg);
  }

  lemma {:induction false} NamedAlike(m: Message, n: Message, name: seq<byte>, name': seq<byte>,
                                      text: seq<byte>, text': seq<byte>, cfg: Config)
    requires SameMessage(m, n) && Alike(name, name') && Alike(text, text') && Insensitive(cfg)
    ensures AlikeRead(HeaderNamed(m, name, text, cfg), HeaderNamed(n, name', text', cfg))
  {
    var known := KnownName(name);
    KnownAlike(name, name');
    DigitsAlike(text, text', cfg.digits);
    AlikeLower(text, text');
    SentAlike(m, n, known, name, name', Told(known, text), Told(known, text'), cfg);
  }

  lemma {:induction false} SentAlike(m: Message, n: Message, known: Known, name: seq<byte>, name': seq<byte>,
                                     value: seq<byte>, value': seq<byte>, cfg: Config)
    requires SameMessage(m, n) && Alike(name, name') && Alike(value, value') && Insensitive(cfg)
    ensures SameMessage(Noted(m, known, value), Noted(n, known, value'))
    ensures AlikeEvent(Header(CString(name), CString(value)), Header(CString(name'), CString(value')))
    ensures SameReply(m.client, Header(CString(name), CString(value)), Header(CString(name'), CString(value')), cfg)
  {
    NotedAlike(m, n, known, value, value');
    AlikeCString(name, name');
    AlikeCString(value, value');
    ReplyAlike(m.client, Header(CString(name), CString(value)), Header(CString(name'), CString(value')), cfg);
  }

  ghost predicate SameReply(c: Client, a: Event, b: Event, cfg: Config) {
    cfg.accept(c, a) == cfg.accept(c, b) && cfg.remember(c, a) == cfg.remember(c, b)
  }

  lemma ReplyAlike(c: Client, a: Event, b: Event, cfg: Config)
    requires AlikeEvent(a, b) && Insensitive(cfg)
    ensures SameReply(c, a, b, cfg)
  {
  }

  // ----- whole calls

  /** The next call, with `c` read behind what the last one left. An error ends it. */
  function Continue(o: Outcome, c: seq<byte>, cfg: Config): Outcome {
    if o.status.Error? then o else Prepend(o.events, Parse(o.st, o.rest + c, cfg))
  }

  lemma {:induction false} OutcomeTransitive(a: Outcome, b: Outcome, c: Outcome)
    requires AlikeOutcome(a, b) && AlikeOutcome(b, c)
    ensures AlikeOutcome(a, c)
  {
  }

  lemma {:induction false} PrependAlike(e: seq<Event>, f: seq<Event>, a: Outcome, b: Outcome)
    requires AlikeEvents(e, f) && AlikeOutcome(a, b)
    ensures AlikeOutcome(Prepend(e, a), Prepend(f, b))
  {
    BothAlike(e, f, a.events, b.events);
  }

  lemma BothAlike(e: seq<Event>, f: seq<Event>, a: seq<Event>, b: seq<Event>)
    requires AlikeEvents(e, f) && AlikeEvents(a, b)
    ensures AlikeEvents(e + a, f + b)
  {
    forall i | 0 <= i < |e + a| ensures AlikeEvent((e + a)[i], (f + b)[i]) {
      if i < |e| {
        assert AlikeEvent(e[i], f[i]);
      } else {
        assert AlikeEvent(a[i - |e|], b[i - |e|]);
      }
    }
  }

  lemma {:induction false} PrependTwice(e: seq<Event>, o: Outcome, c: seq<byte>, cfg: Config)
    ensures Continue(Prepend(e, o), c, cfg) == Prepend(e, Continue(o, c, cfg))
  {
    if !o.status.Error? {
      var more := Parse(o.st, o.rest + c, cfg);
      assert e + o.events + more.events == e + (o.events + more.events);
    }
  }

  lemma {:induction false} ContentAlike(a: State, b: State, s: seq<byte>, cfg: Config)
    requires SameState(a, b)
    ensures AlikeOutcome(ParseContent(a, s, cfg), ParseContent(b, s, cfg))
  {
  }

  lemma {:induction false} ContentStartAlike(a: State, b: State, s: seq<byte>, cfg: Config)
    requires SameState(a, b)
    ensures AlikeOutcome(ParseContentStart(a, s, cfg), ParseContentStart(b, s, cfg))
  {
    ContentAlike(a.(progress := ReadingContent), b.(progress := ReadingContent), s, cfg);
  }

  lemma {:induction false} HeadersAlike(a: State, b: State, s: seq<byte>, t: seq<byte>, cfg: Config)
    requires SameState(a, b) && a.progress == Headers
    requires AlikeLine(NextLine([], s), NextLine([], t)) && Insensitive(cfg)
    ensures AlikeOutcome(ParseHeaders(a, s, cfg), ParseHeaders(b, t, cfg))
    decreases |s|, 0
  {
    var x, y := NextLine([], s), NextLine([], t);
    match x
    case Incomplete(_) =>
    case EmptyLine(rest) =>
      ContentStartAlike(a.(progress := ContentNotRead), b.(progress := ContentNotRead), rest, cfg);
    case FullLine(line, rest) =>
      HeaderAlike(a.msg, b.msg, line, y.line, cfg);
      AfterAlike(a, b, ParseHeader(a.msg, line, cfg), ParseHeader(b.msg, y.line, cfg), rest, cfg);
  }

  lemma {:induction false} AfterAlike(a: State, b: State, x: Read, y: Read, rest: seq<byte>, cfg: Config)
    requires SameState(a, b) && a.progress == Headers && AlikeRead(x, y) && Insensitive(cfg)
    ensures AlikeOutcome(AfterHeader(a, x, rest, cfg), AfterHeader(b, y, rest, cfg))
    decreases |rest|, 1
  {
    if !x.status.Error? {
      var a', b' := a.(msg := x.msg), b.(msg := y.msg);
      LinesAlike(rest, rest);
      HeadersAlike(a', b', rest, rest, cfg);
      PrependAlike(x.events, y.events, ParseHeaders(a', rest, cfg), ParseHeaders(b', rest, cfg));
    }
  }

  lemma Halves(s: seq<byte>)
    ensures var i := IndexOf(s, LF); s == s[..i] + s[i..] && LF !in s[..i]
  {
  }

  lemma {:induction false} LinesAlike(s: seq<byte>, t: seq<byte>)
    requires AlikeRest(s, t)
    ensures AlikeLine(NextLine([], s), NextLine([], t))
  {
    var p, q := s[..IndexOf(s, LF)], t[..IndexOf(t, LF)];
    var tail := s[IndexOf(s, LF)..];
    Halves(s);
    Halves(t);
    NextLineAgain(p, tail, s);
    NextLineAgain(q, tail, t);
    NextLineAlike(p, q, tail);
  }

  lemma {:induction false} AfterLineAlike(a: State, b: State, r: Request, rest: seq<byte>, cfg: Config)
    requires SameState(a, b) && Insensitive(cfg)
    ensures AlikeOutcome(AfterLine(a, r, rest, cfg), AfterLine(b, r, rest, cfg))
  {
    if !r.status.Error? {
      var a', b' := AfterRequestLine(a, r), AfterRequestLine(b, r);
      LinesAlike(rest, rest);
      HeadersAlike(a', b', rest, rest, cfg);
      PrependAlike(r.events, r.events, ParseHeaders(a', rest, cfg), ParseHeaders(b', rest, cfg));
    }
  }

  /** Calls on alike states and alike bytes have alike outcomes. */
  lemma {:induction false} ParseAlike(a: State, b: State, s: seq<byte>, t: seq<byte>, cfg: Config)
    requires SameState(a, b) && Insensitive(cfg)
    requires if a.progress == Headers then AlikeRest(s, t) else s == t
    ensures AlikeOutcome(Parse(a, s, cfg), Parse(b, t, cfg))
  {
    match a.progress
    case RequestLine =>
      var i := IndexOf(s, LF);
      if i < |s| {
        AfterLineAlike(a, b, ReadRequestLine(s[..i], a.msg.client, cfg), s[i + 1..], cfg);
      }
    case Headers =>
      LinesAlike(s, t);
      HeadersAlike(a, b, s, t, cfg);
    case ContentNotRead => ContentStartAlike(a, b, s, cfg);
    case ReadingContent => ContentAlike(a, b, s, cfg);
    case Done =>
  }

  /** Between calls the parser is not within the content, and has loaded none of it. */
  ghost predicate Resting(st: State) {
    st.progress != ReadingContent && (st.progress != Done ==> st.loaded == 0)
  }

  lemma {:induction false} ContentStays(st: State, s: seq<byte>, cfg: Config)
    requires st.progress == ContentNotRead && st.loaded == 0
    ensures var o := ParseContentStart(st, s, cfg); !o.status.Error? ==> Resting(o.st)
  {
    var n := st.msg.contentLength;
    if 0 < n <= |s| && n <= MAX_CONTENT_LENGTH {
      var o := ParseContent(st.(progress := ReadingContent), s, cfg);
      assert !o.status.Error? ==> o.st.progress == Done;
    }
  }

  lemma {:induction false} StaysResting(st: State, s: seq<byte>, cfg: Config)
    requires Resting(st)
    ensures var o := Parse(st, s, cfg); !o.status.Error? ==> Resting(o.st)
  {
    match st.progress
    case RequestLine =>
      var i := IndexOf(s, LF);
      if i < |s| {
        var r := ReadRequestLine(s[..i], st.msg.client, cfg);
        if !r.status.Error? {
          HeadersStayResting(AfterRequestLine(st, r), s[i + 1..], cfg);
        }
      }
    case Headers => HeadersStayResting(st, s, cfg);
    case ContentNotRead => ContentStays(st, s, cfg);
    case _ =>
  }

  lemma {:induction false} HeadersStayResting(st: State, s: seq<byte>, cfg: Config)
    requires Resting(st) && st.progress == Headers
    ensures var o := ParseHeaders(st, s, cfg); !o.status.Error? ==> Resting(o.st)
    decreases |s|
  {
    match NextLine([], s)
    case FullLine(line, rest) => HeadersStayResting(st.(msg := ParseHeader(st.msg, line, cfg).msg), rest, cfg);
    case EmptyLine(rest) => ContentStays(st.(progress := ContentNotRead), rest, cfg);
    case _ =>
  }

  lemma {:induction false} ContentMore(st: State, b: seq<byte>, c: seq<byte>, cfg: Config)
    requires Resting(st) && st.progress == ContentNotRead
    ensures AlikeOutcome(ParseContentStart(st, b + c, cfg), Continue(ParseContentStart(st, b, cfg), c, cfg))
  {
    var n := st.msg.contentLength;
    if 0 < n <= |b| && n <= MAX_CONTENT_LENGTH {
      assert (b + c)[..n] == b[..n] && (b + c)[n..] == b[n..] + c;
      ContentAtOnce(st, b, cfg);
      ContentAtOnce(st, b + c, cfg);
      ContentReadAlready(ParseContentStart(st, b, cfg), c, cfg);
    }
  }

  /** Content that is all there is read by one callback. */
  lemma {:induction false} ContentAtOnce(st: State, s: seq<byte>, cfg: Config)
    requires st.progress == ContentNotRead && st.loaded == 0
    requires 0 < st.msg.contentLength <= |s| && st.msg.contentLength <= MAX_CONTENT_LENGTH
    ensures var n := st.msg.contentLength;
            var content := Content(s[..n]);
            var msg := st.msg.(client := cfg.remember(st.msg.client, content));
            ParseContentStart(st, s, cfg)
            == if cfg.accept(st.msg.client, content) then Outcome(State(Done, n, msg), s[n..], [content], Complete)
               else Outcome(State(ReadingContent, 0, msg), [], [content], Error(Refused))
  {
  }

  lemma {:induction false} ContentReadAlready(o: Outcome, c: seq<byte>, cfg: Config)
    requires o.status.Error? || (o.status == Complete && o.st.progress == Done)
    ensures Continue(o, c, cfg) == if o.status.Error? then o else o.(rest := o.rest + c)
  {
    assert o.events + [] == o.events;
  }

  lemma {:induction false} HeadersMore(st: State, b: seq<byte>, c: seq<byte>, cfg: Config)
    requires Resting(st) && st.progress == Headers && Insensitive(cfg)
    ensures AlikeOutcome(ParseHeaders(st, b + c, cfg), Continue(ParseHeaders(st, b, cfg), c, cfg))
    decreases |b|, 0
  {
    NextLineMore([], b, c);
    match NextLine([], b)
    case Incomplete(rest) => HeadersAlike(st, st, b + c, rest + c, cfg);
    case EmptyLine(rest) => ContentMore(st.(progress := ContentNotRead), rest, c, cfg);
    case FullLine(line, rest) => AfterMore(st, ParseHeader(st.msg, line, cfg), rest, c, cfg);
  }

  lemma {:induction false} AfterMore(st: State, r: Read, b: seq<byte>, c: seq<byte>, cfg: Config)
    requires Resting(st) && st.progress == Headers && Insensitive(cfg)
    ensures AlikeOutcome(AfterHeader(st, r, b + c, cfg), Continue(AfterHeader(st, r, b, cfg), c, cfg))
    decreases |b|, 1
  {
    if !r.status.Error? {
      var st' := st.(msg := r.msg);
      var x, y := ParseHeaders(st', b + c, cfg), ParseHeaders(st', b, cfg);
      HeadersMore(st', b, c, cfg);
      PrependAlike(r.events, r.events, x, Continue(y, c, cfg));
      PrependTwice(r.events, y, c, cfg);
    }
  }

  lemma {:induction false} AfterLineMore(st: State, r: Request, b: seq<byte>, c: seq<byte>, cfg: Config)
    requires st.loaded == 0 && Insensitive(cfg)
    ensures AlikeOutcome(AfterLine(st, r, b + c, cfg), Continue(AfterLine(st, r, b, cfg), c, cfg))
  {
    if !r.status.Error? {
      var st' := AfterRequestLine(st, r);
      var x, y := ParseHeaders(st', b + c, cfg), ParseHeaders(st', b, cfg);
      HeadersMore(st', b, c, cfg);
      PrependAlike(r.events, r.events, x, Continue(y, c, cfg));
      PrependTwice(r.events, y, c, cfg);
    }
  }

  lemma {:induction false} ContinueNothingYet(st: State, rest: seq<byte>, status: Status, c: seq<byte>, cfg: Config)
    requires !status.Error?
    ensures Continue(Outcome(st, rest, [], status), c, cfg) == Parse(st, rest + c, cfg)
  {
    var o := Parse(st, rest + c, cfg);
    assert [] + o.events == o.events;
  }

  /** One call on `b + c` does what a call on `b` and one on the rest of it with `c` do. */
  lemma {:induction false} ParseMore(st: State, b: seq<byte>, c: seq<byte>, cfg: Config)
    requires Resting(st) && Insensitive(cfg)
    ensures AlikeOutcome(Parse(st, b + c, cfg), Continue(Parse(st, b, cfg), c, cfg))
  {
    match st.progress
    case RequestLine =>
      var i := IndexOf(b, LF);
      if i < |b| {
        CutsMore(b, c);
        AfterLineMore(st, ReadRequestLine(b[..i], st.msg.client, cfg), b[i + 1..], c, cfg);
      } else {
        ContinueNothingYet(st, b, Underflow, c, cfg);
      }
    case Headers => HeadersMore(st, b, c, cfg);
    case ContentNotRead => ContentMore(st, b, c, cfg);
    case Done => ContinueNothingYet(st, b, Complete, c, cfg);
  }

  lemma {:induction false} ContinueAlike(a: Outcome, b: Outcome, c: seq<byte>, cfg: Config)
    requires AlikeOutcome(a, b) && Insensitive(cfg)
    ensures AlikeOutcome(Continue(a, c, cfg), Continue(b, c, cfg))
  {
    if !a.status.Error? {
      if a.st.progress == Headers {
        RestMore(a.rest, b.rest, c);
      }
      ParseAlike(a.st, b.st, a.rest + c, b.rest + c, cfg);
      PrependAlike(a.events, b.events, Parse(a.st, a.rest + c, cfg), Parse(b.st, b.rest + c, cfg));
    }
  }

  // ----- any chunks

  /** The calls made as chunk after chunk is read, with what they leave carried over. */
  function FeedAll(st: State, chunks: seq<seq<byte>>, cfg: Config): Outcome {
    if chunks == [] then Outcome(st, [], [], Underflow)
    else Continue(FeedAll(st, chunks[..|chunks| - 1], cfg), chunks[|chunks| - 1], cfg)
  }

  function Flatten(chunks: seq<seq<byte>>): seq<byte> {
    if chunks == [] then [] else Flatten(chunks[..|chunks| - 1]) + chunks[|chunks| - 1]
  }

  lemma {:induction false} OutcomeSymmetric(a: Outcome, b: Outcome)
    requires AlikeOutcome(a, b)
    ensures AlikeOutcome(b, a)
  {
  }

  /** The end is said if there was content, or if it had been reached before. */
  ghost predicate SaysEnd(o: Outcome, before: bool) {
    o.status == Complete <==> !o.status.Error? && o.st.progress == Done && (o.st.msg.contentLength > 0 || before)
  }

  /** A call that reads up to the end of a request without content. */
  ghost predicate EndsBare(st: State, o: Outcome) {
    st.progress != Done && !o.status.Error? && o.st.progress == Done && o.st.msg.contentLength == 0
  }

  /** A call that reaches the end of a request says so, except when the request has no content: then
      it reports that bytes are missing. */
  lemma {:induction false} EndIsLate(st: State, s: seq<byte>, cfg: Config)
    requires Resting(st) && st.progress != Done
    ensures var o := Parse(st, s, cfg);
            SaysEnd(o, false)
  {
    match st.progress
    case RequestLine =>
      var i := IndexOf(s, LF);
      if i < |s| {
        var r := ReadRequestLine(s[..i], st.msg.client, cfg);
        if !r.status.Error? {
          HeadersEnd(AfterRequestLine(st, r), s[i + 1..], cfg);
        }
      }
    case Headers => HeadersEnd(st, s, cfg);
    case ContentNotRead => ContentEnd(st, s, cfg);
  }

  /** The call after the one that reached the end succeeds, and takes no byte. */
  lemma {:induction false} EndIsSaidNext(o: Outcome, more: seq<byte>, cfg: Config)
    requires !o.status.Error? && o.st.progress == Done
    ensures Continue(o, more, cfg) == o.(rest := o.rest + more, status := Complete)
  {
    assert o.events + [] == o.events;
  }

  lemma {:induction false} ContentEnd(st: State, s: seq<byte>, cfg: Config)
    requires st.progress == ContentNotRead && st.loaded == 0
    ensures var o := ParseContentStart(st, s, cfg);
            SaysEnd(o, false)
  {
  }

  lemma {:induction false} HeadersEnd(st: State, s: seq<byte>, cfg: Config)
    requires Resting(st) && st.progress == Headers
    ensures var o := ParseHeaders(st, s, cfg);
            SaysEnd(o, false)
    decreases |s|
  {
    match NextLine([], s)
    case Incomplete(_) =>
    case EmptyLine(rest) => ContentEnd(st.(progress := ContentNotRead), rest, cfg);
    case FullLine(line, rest) => HeadersEnd(st.(msg := ParseHeader(st.msg, line, cfg).msg), rest, cfg);
  }

  lemma {:induction false} FeedRests(st: State, chunks: seq<seq<byte>>, cfg: Config)
    requires Resting(st)
    ensures var o := FeedAll(st, chunks, cfg); !o.status.Error? ==> Resting(o.st)
    decreases |chunks|
  {
    if chunks != [] {
      var front := chunks[..|chunks| - 1];
      FeedRests(st, front, cfg);
      var o := FeedAll(st, front, cfg);
      if !o.status.Error? {
        StaysResting(o.st, o.rest + chunks[|chunks| - 1], cfg);
      }
    }
  }

  /** When the end is said: by the call that comes to it if there was content, else by the next. */
  lemma {:induction false} FeedEnds(st: State, chunks: seq<seq<byte>>, cfg: Config)
    requires chunks != [] && Resting(st)
    ensures var o, before := FeedAll(st, chunks, cfg), FeedAll(st, chunks[..|chunks| - 1], cfg);
            SaysEnd(o, before.st.progress == Done) && (before.status.Error? ==> o == before)
  {
    var front, last := chunks[..|chunks| - 1], chunks[|chunks| - 1];
    FeedRests(st, front, cfg);
    var o := FeedAll(st, front, cfg);
    if !o.status.Error? {
      if o.st.progress == Done {
        EndIsSaidNext(o, last, cfg);
      } else {
        EndIsLate(o.st, o.rest + last, cfg);
      }
    }
  }

  /** The main result: feeding chunks, however they are cut, has the same outcome as one call on all
      the bytes. Progress, message, callbacks, the first error and the bytes left all agree. So does the
      status, except that the end of a request without content is announced once more bytes are read
      after it. */
  lemma {:induction false} ChunksDoNotMatter(st: State, chunks: seq<seq<byte>>, cfg: Config)
    requires chunks != [] && Resting(st) && Insensitive(cfg)
    ensures AlikeOutcome(FeedAll(st, chunks, cfg), Parse(st, Flatten(chunks), cfg))
    ensures FeedAll(st, chunks, cfg).status == Parse(st, Flatten(chunks), cfg).status
            <==> !(EndsBare(st, Parse(st, Flatten(chunks), cfg))
                   && FeedAll(st, chunks[..|chunks| - 1], cfg).st.progress == Done)
  {
    FeedAlike(st, chunks, cfg);
    StatusOfAll(st, chunks, cfg);
  }

  /** Whether the statuses agree, if all else that a client sees does. */
  lemma {:induction false} StatusOfAll(st: State, chunks: seq<seq<byte>>, cfg: Config)
    requires chunks != [] && Resting(st) && AlikeOutcome(FeedAll(st, chunks, cfg), Parse(st, Flatten(chunks), cfg))
    ensures FeedAll(st, chunks, cfg).status == Parse(st, Flatten(chunks), cfg).status
            <==> !(EndsBare(st, Parse(st, Flatten(chunks), cfg))
                   && FeedAll(st, chunks[..|chunks| - 1], cfg).st.progress == Done)
  {
    FeedEnds(st, chunks, cfg);
    EndOfAll(st, Flatten(chunks), cfg);
    if st.progress == Done {
      FeedDone(st, chunks[..|chunks| - 1], cfg);
    }
    SameEnd(st, FeedAll(st, chunks, cfg), Parse(st, Flatten(chunks), cfg), FeedAll(st, chunks[..|chunks| - 1], cfg));
  }

  lemma {:induction false} EndOfAll(st: State, s: seq<byte>, cfg: Config)
    requires Resting(st)
    ensures SaysEnd(Parse(st, s, cfg), st.progress == Done)
  {
    if st.progress != Done {
      EndIsLate(st, s, cfg);
    }
  }

  lemma {:induction false} FeedDone(st: State, chunks: seq<seq<byte>>, cfg: Config)
    requires st.progress == Done
    ensures var o := FeedAll(st, chunks, cfg); o.st == st && !o.status.Error?
    decreases |chunks|
  {
    if chunks != [] {
      var front := chunks[..|chunks| - 1];
      FeedDone(st, front, cfg);
      EndIsSaidNext(FeedAll(st, front, cfg), chunks[|chunks| - 1], cfg);
    }
  }

  lemma {:induction false} SameEnd(st: State, fed: Outcome, whole: Outcome, before: Outcome)
    requires AlikeOutcome(fed, whole) && (before.status.Error? ==> fed == before)
    requires SaysEnd(fed, before.st.progress == Done) && SaysEnd(whole, st.progress == Done)
    requires st.progress == Done ==> before.st.progress == Done && !whole.status.Error? && whole.st.progress == Done
    ensures fed.status == whole.status <==> !(EndsBare(st, whole) && before.st.progress == Done)
  {
  }

  lemma {:induction false} FeedAlike(st: State, chunks: seq<seq<byte>>, cfg: Config)
    requires chunks != [] && Resting(st) && Insensitive(cfg)
    ensures AlikeOutcome(FeedAll(st, chunks, cfg), Parse(st, Flatten(chunks), cfg))
    decreases |chunks|
  {
    var front, last := chunks[..|chunks| - 1], chunks[|chunks| - 1];
    if front == [] {
      ContinueNothingYet(st, [], Underflow, last, cfg);
    } else {
      FeedAlike(st, front, cfg);
      var whole := Parse(st, Flatten(front), cfg);
      ContinueAlike(FeedAll(st, front, cfg), whole, last, cfg);
      ParseMore(st, Flatten(front), last, cfg);
      OutcomeSymmetric(Parse(st, Flatten(chunks), cfg), Continue(whole, last, cfg));
      OutcomeTransitive(FeedAll(st, chunks, cfg), Continue(whole, last, cfg), Parse(st, Flatten(chunks), cfg));
    }
  }
}
