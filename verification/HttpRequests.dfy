/** Requests that come one after the other through the same parser, which is cleared in between. */
module HttpRequests {
  import opened Bytes
  import opened HttpText
  import opened HttpSpec
  import opened HttpChunks
  import opened HttpExact

  /** What a connection does with its parser: it reads a chunk, or it clears the parser. What is in the
      buffer after an error is not known. */
  datatype Use = Chunk(bytes: seq<byte>) | Clear(unknown: seq<byte>)

  function After(o: Outcome, use: Use, cfg: Config): Outcome {
    match use
    case Chunk(bytes) => Continue(o, bytes, cfg)
    case Clear(unknown) =>
      var left := if o.status.Error? then unknown else o.rest;
      Outcome(Start(o.st.msg.client, o.st.msg.contentType), left, o.events, Underflow)
  }

  function Session(o: Outcome, uses: seq<Use>, cfg: Config): Outcome {
    if uses == [] then o else After(Session(o, uses[..|uses| - 1], cfg), uses[|uses| - 1], cfg)
  }

  // ----- a cleared parser is as a new one

  function WithType(st: State, memory: TypeBuffer): State {
    st.(msg := st.msg.(contentType := memory))
  }

  /** The same outcome, but for what is in the memory of the content type. */
  ghost predicate SameButType(a: Outcome, b: Outcome) {
    a == b.(st := WithType(b.st, a.st.msg.contentType))
  }

  lemma NotedButType(msg: Message, memory: TypeBuffer, known: Known, value: seq<byte>)
    ensures var m, n := Noted(msg, known, value), Noted(msg.(contentType := memory), known, value);
            n == m.(contentType := n.contentType)
  {
  }

  lemma {:induction false} NamedButType(msg: Message, memory: TypeBuffer, name: seq<byte>, text: seq<byte>, cfg: Config)
    ensures var r, s := HeaderNamed(msg, name, text, cfg), HeaderNamed(msg.(contentType := memory), name, text, cfg);
            s == r.(msg := r.msg.(contentType := s.msg.contentType))
  {
    NotedButType(msg, memory, KnownName(name), Told(KnownName(name), text));
  }

  lemma {:induction false} HeaderButType(msg: Message, memory: TypeBuffer, line: seq<byte>, cfg: Config)
    ensures var r, s := ParseHeader(msg, line, cfg), ParseHeader(msg.(contentType := memory), line, cfg);
            s == r.(msg := r.msg.(contentType := s.msg.contentType))
  {
    var i := IndexOf(line, COLON);
    if i < |line| {
      NamedButType(msg, memory, Lower(Strip(line[..i])), Strip(line[i + 1..]), cfg);
    }
  }

  lemma {:induction false} HeadersButType(st: State, memory: TypeBuffer, s: seq<byte>, cfg: Config)
    ensures SameButType(ParseHeaders(st, s, cfg), ParseHeaders(WithType(st, memory), s, cfg))
    decreases |s|
  {
    match NextLine([], s)
    case Incomplete(_) =>
    case EmptyLine(rest) => ContentStartButType(st.(progress := ContentNotRead), memory, rest, cfg);
    case FullLine(line, rest) =>
      HeaderButType(st.msg, memory, line, cfg);
      var r, r' := ParseHeader(st.msg, line, cfg), ParseHeader(st.msg.(contentType := memory), line, cfg);
      HeadersButType(st.(msg := r.msg), r'.msg.contentType, rest, cfg);
      assert st.(msg := r'.msg) == WithType(st.(msg := r.msg), r'.msg.contentType);
  }

  lemma {:induction false} LineButType(st: State, memory: TypeBuffer, r: Request, rest: seq<byte>, cfg: Config)
    ensures SameButType(AfterLine(st, r, rest, cfg), AfterLine(WithType(st, memory), r, rest, cfg))
  {
    assert AfterRequestLine(WithType(st, memory), r) == WithType(AfterRequestLine(st, r), memory);
    if !r.status.Error? {
      HeadersButType(AfterRequestLine(st, r), memory, rest, cfg);
    }
  }

  lemma {:induction false} ContentButType(st: State, memory: TypeBuffer, s: seq<byte>, cfg: Config)
    ensures SameButType(ParseContent(st, s, cfg), ParseContent(WithType(st, memory), s, cfg))
  {
  }

  lemma {:induction false} ContentStartButType(st: State, memory: TypeBuffer, s: seq<byte>, cfg: Config)
    ensures SameButType(ParseContentStart(st, s, cfg), ParseContentStart(WithType(st, memory), s, cfg))
  {
    assert WithType(st, memory).(progress := ReadingContent) == WithType(st.(progress := ReadingContent), memory);
    ContentButType(st.(progress := ReadingContent), memory, s, cfg);
  }

  lemma {:induction false} ParseButType(st: State, memory: TypeBuffer, s: seq<byte>, cfg: Config)
    ensures SameButType(Parse(st, s, cfg), Parse(WithType(st, memory), s, cfg))
  {
    match st.progress
    case RequestLine =>
      var i := IndexOf(s, LF);
      if i < |s| {
        LineButType(st, memory, ReadRequestLine(s[..i], st.msg.client, cfg), s[i + 1..], cfg);
      }
    case Headers => HeadersButType(st, memory, s, cfg);
    case ContentNotRead => ContentStartButType(st, memory, s, cfg);
    case ReadingContent => ContentButType(st, memory, s, cfg);
    case Done =>
  }

  lemma {:induction false} SessionButType(a: Outcome, b: Outcome, uses: seq<Use>, cfg: Config)
    requires SameButType(a, b)
    ensures SameButType(Session(a, uses, cfg), Session(b, uses, cfg))
    decreases |uses|
  {
    if uses != [] {
      var front, last := uses[..|uses| - 1], uses[|uses| - 1];
      SessionButType(a, b, front, cfg);
      var x, y := Session(a, front, cfg), Session(b, front, cfg);
      if last.Chunk? && !x.status.Error? {
        ParseButType(x.st, y.st.msg.contentType, x.rest + last.bytes, cfg);
      }
    }
  }

  lemma {:induction false} SessionPrepend(events: seq<Event>, o: Outcome, uses: seq<Use>, cfg: Config)
    ensures Session(Prepend(events, o), uses, cfg) == Prepend(events, Session(o, uses, cfg))
    decreases |uses|
  {
    if uses != [] {
      var front, last := uses[..|uses| - 1], uses[|uses| - 1];
      SessionPrepend(events, o, front, cfg);
      if last.Chunk? {
        PrependTwice(events, Session(o, front, cfg), last.bytes, cfg);
      }
    }
  }

  /** A new parser, in memory that held something, with bytes waiting. */
  function New(client: Client, memory: TypeBuffer, waiting: seq<byte>): Outcome {
    Outcome(Start(client, memory), waiting, [], Underflow)
  }

  /** Requests on a connection do not influence each other, but for the memory of the content type:
      whatever came before, whatever comes after, and however it is cut, a cleared parser does what a new
      one does for the same client with the bytes that are left. */
  lemma {:induction false} ClearedIsNew(o: Outcome, unknown: seq<byte>, uses: seq<Use>, memory: TypeBuffer, cfg: Config)
    ensures var waiting := if o.status.Error? then unknown else o.rest;
            SameButType(Session(After(o, Clear(unknown), cfg), uses, cfg),
                        Prepend(o.events, Session(New(o.st.msg.client, memory, waiting), uses, cfg)))
  {
    var new_ := New(o.st.msg.client, memory, if o.status.Error? then unknown else o.rest);
    SessionPrepend(o.events, new_, uses, cfg);
    assert o.events + [] == o.events;
    SessionButType(After(o, Clear(unknown), cfg), Prepend(o.events, new_), uses, cfg);
  }

  // ----- requests in any chunks

  function Chunks(chunks: seq<seq<byte>>): seq<Use> {
    seq(|chunks|, i requires 0 <= i < |chunks| => Chunk(chunks[i]))
  }

  /** Chunks that come when bytes are waiting: the first is read behind them. */
  function Behind(waiting: seq<byte>, chunks: seq<seq<byte>>): seq<seq<byte>>
    requires chunks != []
  {
    chunks[0 := waiting + chunks[0]]
  }

  lemma {:induction false} SessionFeeds(o: Outcome, chunks: seq<seq<byte>>, cfg: Config)
    requires chunks != [] && !o.status.Error?
    ensures Session(o, Chunks(chunks), cfg) == Prepend(o.events, FeedAll(o.st, Behind(o.rest, chunks), cfg))
    decreases |chunks|
  {
    var n := |chunks| - 1;
    var front, last, all := chunks[..n], chunks[n], Behind(o.rest, chunks);
    assert Chunks(chunks)[..n] == Chunks(front);
    if front == [] {
      assert Session(o, [], cfg) == o;
      ContinueNothingYet(o.st, [], Underflow, o.rest + last, cfg);
      assert [] + (o.rest + last) == o.rest + last && all[..0] == [];
    } else {
      SessionFeeds(o, front, cfg);
      assert all[..n] == Behind(o.rest, front) && all[n] == last;
      PrependTwice(o.events, FeedAll(o.st, all[..n], cfg), last, cfg);
    }
  }

  lemma {:induction false} FlattenBehind(waiting: seq<byte>, chunks: seq<seq<byte>>)
    requires chunks != []
    ensures Flatten(Behind(waiting, chunks)) == waiting + Flatten(chunks)
    decreases |chunks|
  {
    var n := |chunks| - 1;
    var front, all := chunks[..n], Behind(waiting, chunks);
    if front == [] {
      assert all[..0] == [];
    } else {
      assert all[..n] == Behind(waiting, front) && all[n] == chunks[n];
      FlattenBehind(waiting, front);
    }
  }

  lemma ButTypeIsAlike(a: Outcome, b: Outcome)
    requires SameButType(a, b)
    ensures AlikeOutcome(a, b)
  {
  }

  /** A request that follows others on the same connection, in whatever chunks, and with a part of it
      perhaps read already: it has the outcome that one call of a new parser has on all its bytes. */
  lemma {:induction false} NextRequest(o: Outcome, unknown: seq<byte>, chunks: seq<seq<byte>>, memory: TypeBuffer,
                                       cfg: Config)
    requires chunks != [] && Insensitive(cfg)
    ensures var waiting := if o.status.Error? then unknown else o.rest;
            AlikeOutcome(Session(After(o, Clear(unknown), cfg), Chunks(chunks), cfg),
                         Prepend(o.events, Parse(Start(o.st.msg.client, memory), waiting + Flatten(chunks), cfg)))
  {
    hide Parse, FeedAll, Flatten, Session, AlikeOutcome;
    var cleared := After(o, Clear(unknown), cfg);
    var all := Behind(cleared.rest, chunks);
    var whole := Parse(Start(o.st.msg.client, memory), Flatten(all), cfg);
    SessionFeeds(cleared, chunks, cfg);
    FlattenBehind(cleared.rest, chunks);
    ChunksDoNotMatter(cleared.st, all, cfg);
    ParseButType(cleared.st, memory[0 := NUL], Flatten(all), cfg);
    ButTypeIsAlike(Parse(cleared.st, Flatten(all), cfg), whole);
    OutcomeTransitive(FeedAll(cleared.st, all, cfg), Parse(cleared.st, Flatten(all), cfg), whole);
    PrependAlike(o.events, o.events, FeedAll(cleared.st, all, cfg), whole);
  }

  /** The same exactly, for any callbacks and with the content type, if none of the chunks is cut between
      two blanks of a fold, and the new parser is in memory that held the same. */
  lemma {:induction false} NextRequestExactly(o: Outcome, unknown: seq<byte>, chunks: seq<seq<byte>>, cfg: Config)
    requires chunks != []
    requires var cleared := After(o, Clear(unknown), cfg); CleanCuts(cleared.st, Behind(cleared.rest, chunks), cfg)
    ensures var waiting := if o.status.Error? then unknown else o.rest;
            var new_ := Start(o.st.msg.client, o.st.msg.contentType);
            HttpExact.Same(Session(After(o, Clear(unknown), cfg), Chunks(chunks), cfg),
                           Prepend(o.events, Parse(new_, waiting + Flatten(chunks), cfg)))
  {
    hide Parse, FeedAll, Flatten, Session, CleanCuts, HttpExact.Same;
    var cleared := After(o, Clear(unknown), cfg);
    var all := Behind(cleared.rest, chunks);
    SessionFeeds(cleared, chunks, cfg);
    FlattenBehind(cleared.rest, chunks);
    CleanChunksAreExact(cleared.st, all, cfg);
    PrependSame(o.events, FeedAll(cleared.st, all, cfg), Parse(cleared.st, Flatten(all), cfg));
  }

  // ----- the content type

  /** No NUL is put behind a content type. What C sees of it is what was sent, or the first 63 bytes of
      that, if and only if a NUL is among them, or happened to be in the byte behind. */
  lemma TypeSeen(client: Client, memory: TypeBuffer, value: seq<byte>)
    requires value != []
    ensures var n, msg := Copied(value), Start(client, memory).msg;
            (CString(Noted(msg, ContentType, value).contentType) == CString(value[..n])
             <==> NUL in value[..n] || memory[n] == NUL)
  {
    var n, m := Copied(value), memory[0 := NUL];
    assert m[n..][0] == memory[n];
    SeenTo(value[..n], m[n..]);
  }

  lemma SeenTo(text: seq<byte>, behind: seq<byte>)
    requires behind != []
    ensures CString(text + behind) == CString(text) <==> NUL in text || behind[0] == NUL
  {
    hide IndexOf;
    var i := IndexOf(text, NUL);
    IndexOfAppend(text, behind, NUL);
    if i == |text| {
      assert |CString(text + behind)| == i + IndexOf(behind, NUL) && |CString(text)| == i;
    }
    assert (text + behind)[..i] == text[..i];
  }

  /** So a shorter content type shows the end of the longer one of the request before. */
  lemma TypeLeaks(client: Client, before: Message, long: seq<byte>, short: seq<byte>)
    requires 0 < |short| < |long| < CONTENT_TYPE_SIZE && NUL !in long && NUL !in short
    ensures var msg := Noted(Start(client, Noted(before, ContentType, long).contentType).msg, ContentType, short);
            CString(msg.contentType)[..|long|] == short + long[|short|..]
  {
    hide IndexOf;
    var memory := Overwrite(before.contentType, long);
    var seen := Overwrite(memory[0 := NUL], short);
    assert seen[..|long|] == short + long[|short|..];
    assert NUL !in seen[..|long|] by {
      forall i | 0 <= i < |long| ensures seen[i] != NUL {
        assert seen[i] == if i < |short| then short[i] else long[i];
      }
    }
    assert IndexOf(seen, NUL) >= |long|;
  }
}
