/** Chunks that are not cut between the blanks of a fold: then the resumed parser does exactly what one
    call on all the bytes does, whatever the callbacks are, with each byte of the headers the same. */
module HttpExact {
  import opened Bytes
  import opened HttpChunks
  import opened HttpFolds
  import opened HttpSpec
  import opened HttpText

  /** The same state, content type included, the same callbacks and bytes left, and the same errors. */
  ghost predicate Same(a: Outcome, b: Outcome) {
    a.st == b.st && a.rest == b.rest && a.events == b.events
      && (a.status.Error? || b.status.Error? ==> a.status == b.status)
  }

  /** Whether reading headers stops within the blanks of a fold. */
  ghost predicate HeadersStopInFold(st: State, s: seq<byte>, cfg: Config)
    decreases |s|
  {
    match NextLine([], s)
    case Incomplete(_) => StoppedInFold([], s)
    case EmptyLine(_) => false
    case FullLine(line, rest) =>
      var r := ParseHeader(st.msg, line, cfg);
      !r.status.Error? && HeadersStopInFold(st.(msg := r.msg), rest, cfg)
  }

  /** Whether a call does. */
  ghost predicate StopsInFold(st: State, s: seq<byte>, cfg: Config) {
    match st.progress
    case RequestLine =>
      var i := IndexOf(s, LF);
      i < |s| &&
      var r := ReadRequestLine(s[..i], st.msg.client, cfg);
      !r.status.Error? && HeadersStopInFold(AfterRequestLine(st, r), s[i + 1..], cfg)
    case Headers => HeadersStopInFold(st, s, cfg)
    case _ => false
  }

  predicate StartsBlank(c: seq<byte>) {
    c != [] && Blank(c[0])
  }

  lemma PrependSame(events: seq<Event>, a: Outcome, b: Outcome)
    requires Same(a, b)
    ensures Same(Prepend(events, a), Prepend(events, b))
  {
  }

  /** An unfinished line that goes on as the whole does. */
  lemma {:induction false} UnfinishedMore(st: State, b: seq<byte>, c: seq<byte>, cfg: Config)
    requires Resting(st) && st.progress == Headers && NextLine([], b).Incomplete?
    requires !(StoppedInFold([], b) && StartsBlank(c))
    ensures Same(ParseHeaders(st, b + c, cfg), Continue(ParseHeaders(st, b, cfg), c, cfg))
  {
    var rest := NextLine([], b).rest;
    ExactUnlessFoldCut([], b, c);
    ContinueNothingYet(st, rest, Underflow, c, cfg);
    SameNextLine(st, b + c, rest + c, cfg);
  }

  lemma {:induction false} SameNextLine(st: State, s: seq<byte>, t: seq<byte>, cfg: Config)
    requires NextLine([], s) == NextLine([], t)
    ensures ParseHeaders(st, s, cfg) == ParseHeaders(st, t, cfg)
  {
  }

  lemma {:induction false} HeadersMoreExactly(st: State, b: seq<byte>, c: seq<byte>, cfg: Config)
    requires Resting(st) && st.progress == Headers && !(HeadersStopInFold(st, b, cfg) && StartsBlank(c))
    ensures Same(ParseHeaders(st, b + c, cfg), Continue(ParseHeaders(st, b, cfg), c, cfg))
    decreases |b|
  {
    NextLineMore([], b, c);
    match NextLine([], b)
    case Incomplete(_) => UnfinishedMore(st, b, c, cfg);
    case EmptyLine(rest) => ContentMoreExactly(st.(progress := ContentNotRead), rest, c, cfg);
    case FullLine(line, rest) =>
      var r := ParseHeader(st.msg, line, cfg);
      if !r.status.Error? {
        var st' := st.(msg := r.msg);
        HeadersMoreExactly(st', rest, c, cfg);
        AfterMoreExactly(r.events, ParseHeaders(st', rest + c, cfg), ParseHeaders(st', rest, cfg), c, cfg);
      }
  }

  lemma {:induction false} AfterMoreExactly(events: seq<Event>, whole: Outcome, part: Outcome, c: seq<byte>,
                                            cfg: Config)
    requires Same(whole, Continue(part, c, cfg))
    ensures Same(Prepend(events, whole), Continue(Prepend(events, part), c, cfg))
  {
    PrependSame(events, whole, Continue(part, c, cfg));
    PrependTwice(events, part, c, cfg);
  }

  lemma {:induction false} ContentMoreExactly(st: State, b: seq<byte>, c: seq<byte>, cfg: Config)
    requires Resting(st) && st.progress == ContentNotRead
    ensures Same(ParseContentStart(st, b + c, cfg), Continue(ParseContentStart(st, b, cfg), c, cfg))
  {
    var n := st.msg.contentLength;
    if 0 < n <= |b| && n <= MAX_CONTENT_LENGTH {
      assert (b + c)[..n] == b[..n] && (b + c)[n..] == b[n..] + c;
      ContentAtOnce(st, b, cfg);
      ContentAtOnce(st, b + c, cfg);
      ContentReadAlready(ParseContentStart(st, b, cfg), c, cfg);
    } else if n == 0 {
      ContinueNothingYet(st.(progress := Done), b, Underflow, c, cfg);
    } else if n <= MAX_CONTENT_LENGTH {
      ContinueNothingYet(st, b, Underflow, c, cfg);
    }
  }

  /** One call on `b + c` does exactly what a call on `b` and one on the rest of it with `c` do, unless the
      first stops within the blanks of a fold that the second goes on with. */
  lemma {:induction false} ParseMoreExactly(st: State, b: seq<byte>, c: seq<byte>, cfg: Config)
    requires Resting(st) && !(StopsInFold(st, b, cfg) && StartsBlank(c))
    ensures Same(Parse(st, b + c, cfg), Continue(Parse(st, b, cfg), c, cfg))
  {
    match st.progress
    case RequestLine =>
      var i := IndexOf(b, LF);
      if i < |b| {
        CutsMore(b, c);
        LineMoreExactly(st, ReadRequestLine(b[..i], st.msg.client, cfg), b[i + 1..], c, cfg);
      } else {
        ContinueNothingYet(st, b, Underflow, c, cfg);
      }
    case Headers => HeadersMoreExactly(st, b, c, cfg);
    case ContentNotRead => ContentMoreExactly(st, b, c, cfg);
    case Done => ContinueNothingYet(st, b, Complete, c, cfg);
  }

  lemma {:induction false} LineMoreExactly(st: State, r: Request, b: seq<byte>, c: seq<byte>, cfg: Config)
    requires st.loaded == 0
    requires !(!r.status.Error? && HeadersStopInFold(AfterRequestLine(st, r), b, cfg) && StartsBlank(c))
    ensures Same(AfterLine(st, r, b + c, cfg), Continue(AfterLine(st, r, b, cfg), c, cfg))
  {
    if !r.status.Error? {
      var st' := AfterRequestLine(st, r);
      HeadersMoreExactly(st', b, c, cfg);
      AfterMoreExactly(r.events, ParseHeaders(st', b + c, cfg), ParseHeaders(st', b, cfg), c, cfg);
    }
  }

  // ----- any chunks

  /** Nowhere is a cut between two blanks of a fold. */
  ghost predicate CleanCuts(st: State, chunks: seq<seq<byte>>, cfg: Config) {
    forall k :: 0 < k < |chunks| ==> !(StopsInFold(st, Flatten(chunks[..k]), cfg) && StartsBlank(chunks[k]))
  }

  /** Chunks that are cut cleanly come to exactly what one call on all the bytes does: state, callbacks and
      the bytes left are the same, and so is the status, except as HttpChunks says. */
  lemma {:induction false} CleanChunksAreExact(st: State, chunks: seq<seq<byte>>, cfg: Config)
    requires chunks != [] && Resting(st) && CleanCuts(st, chunks, cfg)
    ensures Same(FeedAll(st, chunks, cfg), Parse(st, Flatten(chunks), cfg))
    ensures FeedAll(st, chunks, cfg).status == Parse(st, Flatten(chunks), cfg).status
            <==> !(EndsBare(st, Parse(st, Flatten(chunks), cfg))
                   && FeedAll(st, chunks[..|chunks| - 1], cfg).st.progress == Done)
  {
    hide Parse, FeedAll, Flatten;
    FeedExactly(st, chunks, cfg);
    var fed, whole := FeedAll(st, chunks, cfg), Parse(st, Flatten(chunks), cfg);
    SameIsAlike(fed, whole);
    StatusOfAll(st, chunks, cfg);
  }

  lemma SameIsAlike(a: Outcome, b: Outcome)
    requires Same(a, b)
    ensures AlikeOutcome(a, b)
  {
  }

  lemma {:induction false} FeedExactly(st: State, chunks: seq<seq<byte>>, cfg: Config)
    requires chunks != [] && Resting(st) && CleanCuts(st, chunks, cfg)
    ensures Same(FeedAll(st, chunks, cfg), Parse(st, Flatten(chunks), cfg))
    decreases |chunks|
  {
    hide Parse, StopsInFold, Continue;
    var n := |chunks| - 1;
    var front, last := chunks[..n], chunks[n];
    if front == [] {
      ContinueNothingYet(st, [], Underflow, last, cfg);
    } else {
      assert forall k :: 0 < k < n ==> front[..k] == chunks[..k] && front[k] == chunks[k];
      FeedExactly(st, front, cfg);
      ParseMoreExactly(st, Flatten(front), last, cfg);
      ContinueSame(FeedAll(st, front, cfg), Parse(st, Flatten(front), cfg), last, cfg);
    }
  }

  lemma ContinueSame(a: Outcome, b: Outcome, c: seq<byte>, cfg: Config)
    requires Same(a, b)
    ensures Same(Continue(a, c, cfg), Continue(b, c, cfg))
  {
  }
}
