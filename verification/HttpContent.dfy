/** What becomes of the content of a request. */
module HttpContent {
  import opened Bytes
  import opened HttpSpec
  import opened HttpChunks
  import opened HttpRequests

  ghost predicate NoContent(events: seq<Event>) {
    forall i :: 0 <= i < |events| ==> !events[i].Content?
  }

  /** No content is announced, and none has been handed over. */
  ghost predicate Bare(o: Outcome) {
    o.st.msg.contentLength == 0 && NoContent(o.events)
  }

  lemma BarePrepend(events: seq<Event>, o: Outcome)
    requires NoContent(events) && Bare(o)
    ensures Bare(Prepend(events, o))
  {
  }

  lemma {:induction false} BareCall(st: State, s: seq<byte>, cfg: Config)
    requires cfg.digits == AsWritten && st.progress != ReadingContent && st.msg.contentLength == 0
    ensures Bare(Parse(st, s, cfg))
  {
    match st.progress
    case RequestLine =>
      var i := IndexOf(s, LF);
      if i < |s| {
        BareRequestLine(s[..i], st.msg.client, cfg);
        BareAfterLine(st, ReadRequestLine(s[..i], st.msg.client, cfg), s[i + 1..], cfg);
      }
    case Headers => BareHeaders(st, s, cfg);
    case _ =>
  }

  lemma BareWords(words: Words, client: Client, cfg: Config)
    ensures NoContent(ReadWords(words, client, cfg).events)
  {
  }

  lemma BareRequestLine(line: seq<byte>, client: Client, cfg: Config)
    ensures NoContent(ReadRequestLine(line, client, cfg).events)
  {
    BareWords(WordsOf(StripCR(line)), client, cfg);
  }

  lemma {:induction false} BareAfterLine(st: State, r: Request, rest: seq<byte>, cfg: Config)
    requires cfg.digits == AsWritten && st.msg.contentLength == 0 && NoContent(r.events)
    ensures Bare(AfterLine(st, r, rest, cfg))
  {
    if !r.status.Error? {
      var st' := AfterRequestLine(st, r);
      BareHeaders(st', rest, cfg);
      BarePrepend(r.events, ParseHeaders(st', rest, cfg));
    }
  }

  lemma {:induction false} BareHeader(msg: Message, line: seq<byte>, cfg: Config)
    requires cfg.digits == AsWritten && msg.contentLength == 0
    ensures var r := ParseHeader(msg, line, cfg); r.msg.contentLength == 0 && NoContent(r.events)
  {
  }

  lemma {:induction false} BareHeaders(st: State, s: seq<byte>, cfg: Config)
    requires cfg.digits == AsWritten && st.msg.contentLength == 0 && st.progress == Headers
    ensures Bare(ParseHeaders(st, s, cfg))
    decreases |s|
  {
    match NextLine([], s)
    case Incomplete(_) =>
    case EmptyLine(_) =>
    case FullLine(line, rest) =>
      BareHeader(st.msg, line, cfg);
      var r := ParseHeader(st.msg, line, cfg);
      var st' := st.(msg := r.msg);
      BareHeaders(st', rest, cfg);
      BarePrepend(r.events, ParseHeaders(st', rest, cfg));
  }

  /** As the digit test is written, no request with content can be read: whatever bytes come in whatever
      chunks, and whenever the parser is cleared, not one content callback is ever made, and the length
      stays what it was cleared to. */
  lemma {:induction false} NoContentAsWritten(o: Outcome, uses: seq<Use>, cfg: Config)
    requires cfg.digits == AsWritten && Bare(o) && (!o.status.Error? ==> Resting(o.st))
    ensures var last := Session(o, uses, cfg); Bare(last) && (!last.status.Error? ==> Resting(last.st))
    decreases |uses|
  {
    if uses != [] {
      var front, last := uses[..|uses| - 1], uses[|uses| - 1];
      NoContentAsWritten(o, front, cfg);
      var before := Session(o, front, cfg);
      if last.Chunk? && !before.status.Error? {
        var s := before.rest + last.bytes;
        BareCall(before.st, s, cfg);
        StaysResting(before.st, s, cfg);
        BarePrepend(before.events, Parse(before.st, s, cfg));
      }
    }
  }

  /** With each byte tested, content of the announced length is handed over in one piece, and what
      follows it is left alone. */
  lemma {:induction false} ContentInOnePiece(msg: Message, content: seq<byte>, more: seq<byte>, cfg: Config)
    requires msg.contentLength == |content| && 0 < |content| <= MAX_CONTENT_LENGTH
             && cfg.accept(msg.client, Content(content))
    ensures Parse(State(ContentNotRead, 0, msg), content + more, cfg)
            == Outcome(State(Done, |content|, msg.(client := cfg.remember(msg.client, Content(content)))), more,
                       [Content(content)], Complete)
  {
    assert (content + more)[..|content|] == content && (content + more)[|content|..] == more;
  }
}
