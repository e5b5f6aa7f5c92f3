/** The parser of http.c, working in place on the buffer it is given, refines the function Parse. */
module HttpParser {
  import opened Bytes
  import opened HttpSpec
  import opened HttpBuffer
  import opened HttpLoop
  import opened HttpState

  // ----- the request line

  method ParseRequestLine(parser: Parser, a: array<byte>, sol: nat, lf: nat, ghost r: Request) returns (status: Status)
    requires sol <= lf < a.Length && r == ReadRequestLine(a[sol..lf], parser.message.client, parser.cfg)
    modifies parser`progress, parser`message, parser`calls
    ensures parser.State() == AfterRequestLine(old(parser.State()), r)
    ensures parser.calls == old(parser.calls) + r.events && status == r.status
  {
    if lf - sol < 6 {
      return Error(TooShortRequestLine);
    }
    var eol := if a[lf - 1] == CR then lf - 1 else lf;
    WithoutCR(a[..], sol, lf, eol);
    assert a[..][sol..lf] == a[sol..lf] && a[..][sol..eol] == a[sol..eol];
    var ok, first, second := CutWords(a, sol, eol, a[sol..eol]);
    if !ok {
      return Error(CorruptedRequestLine);
    }
    status := ParseWords(parser, a, sol, first, second, eol, r);
    if !status.Error? {
      parser.progress := Headers;
    }
  }

  method ParseWords(parser: Parser, a: array<byte>, sol: nat, first: nat, second: nat, eol: nat, ghost r: Request)
    returns (status: Status)
    requires sol <= first < second < eol <= a.Length
    requires r == ReadWords(Three(a[sol..first], a[first + 1..second], a[second + 1..eol]), parser.message.client,
                            parser.cfg)
    modifies parser`message, parser`calls
    ensures parser.calls == old(parser.calls) + r.events && status == r.status
    ensures parser.message == AfterRequestLine(old(parser.State()), r).msg
  {
    var m := ParseMethod(a, sol, first);
    if m == NoMethod {
      return Error(MethodNotImplemented);
    }
    parser.message := parser.message.(method_ := m);
    var accepted := parser.Call(Url(m, a[first + 1..second]));
    if !accepted {
      return Error(Refused);
    }
    status := ParseVersionWord(parser, a, second + 1, eol, Url(m, a[first + 1..second]), m, r);
  }

  method ParseVersionWord(parser: Parser, a: array<byte>, from: nat, eol: nat, ghost url: Event, ghost m: Method,
                          ghost r: Request)
    returns (status: Status)
    requires from <= eol <= a.Length && r == ReadVersion(m, a[from..eol], parser.message.client, url, parser.cfg)
    modifies parser`message, parser`calls
    ensures parser.calls == old(parser.calls) + r.events[1..] && status == r.status
    ensures parser.message == old(parser.message).(client := r.client,
              version := if r.version == NoVersion then old(parser.message).version else r.version,
              closing := if r.status.Error? then old(parser.message).closing else r.version == Http10)
  {
    if eol - from != 8 {
      return Error(CorruptedVersion);
    }
    var v := ParseVersion(a, from);
    if v == NoVersion {
      return Error(VersionNotSupported);
    }
    parser.message := parser.message.(version := v);
    var accepted := parser.Call(VersionSeen(v));
    if !accepted {
      return Error(Refused);
    }
    parser.message := parser.message.(closing := v == Http10);
    status := Underflow;
  }

  method ParseMethod(a: array<byte>, from: nat, to: nat) returns (m: Method)
    requires from <= to <= a.Length
    ensures m == MethodOf(a[from..to])
  {
    m := NoMethod;
    if to - from == 3 {
      var same := Memcmp(a, from, GET);
      m := if same then Get else NoMethod;
    } else if to - from == 4 {
      var same := Memcmp(a, from, HEAD);
      if same {
        return Head;
      }
      same := Memcmp(a, from, POST);
      m := if same then Post else NoMethod;
    }
  }

  method ParseVersion(a: array<byte>, from: nat) returns (v: Version)
    requires from + 8 <= a.Length
    ensures v == VersionOf(a[from..from + 8])
  {
    var same := Memcmp(a, from, HTTP_1_0);
    if same {
      return Http10;
    }
    same := Memcmp(a, from, HTTP_1_1);
    v := if same then Http11 else NoVersion;
  }

  // ----- the content

  method ParseContent(parser: Parser, a: array<byte>, start: nat, end: nat, ghost o: Outcome)
    returns (start': nat, status: Status)
    requires start <= end <= a.Length && o == HttpSpec.ParseContent(parser.State(), a[start..end], parser.cfg)
    modifies parser
    ensures start <= start' <= end && Ends(parser, a, start', end, o, old(parser.calls), status)
  {
    var missing := (parser.message.contentLength - parser.contentLoaded) % 0x1_0000_0000;
    var n := if missing > end - start then end - start else missing;
    SliceAt(a, start, end, n);
    start' := start;
    var accepted := parser.Call(Content(a[start..start + n]));
    if !accepted {
      return start', Error(Refused);
    }
    start' := start + n;
    parser.contentLoaded := parser.contentLoaded + n;
    status := Underflow;
    if parser.contentLoaded == parser.message.contentLength {
      parser.progress := Done;
      status := Complete;
    }
  }

  lemma SliceAt(a: array<byte>, start: nat, end: nat, n: nat)
    requires start <= start + n <= end <= a.Length
    ensures a[start..end][..n] == a[start..start + n] && a[start..end][n..] == a[start + n..end]
  {
  }

  method ParseContentStart(parser: Parser, a: array<byte>, start: nat, end: nat, ghost o: Outcome)
    returns (start': nat, status: Status)
    requires start <= end <= a.Length && o == HttpSpec.ParseContentStart(parser.State(), a[start..end], parser.cfg)
    modifies parser
    ensures start <= start' <= end && Ends(parser, a, start', end, o, old(parser.calls), status)
  {
    start', status := start, Underflow;
    if parser.message.contentLength == 0 {
      parser.progress := Done;
    } else if parser.message.contentLength > MAX_CONTENT_LENGTH {
      status := Error(TooLongContent);
    } else if end - start >= parser.message.contentLength {
      parser.progress := ReadingContent;
      start', status := ParseContent(parser, a, start, end, o);
    }
  }

  /** A call has come to the outcome `o`, if the callbacks made before it were `base`. */
  ghost predicate Ends(parser: Parser, a: array<byte>, start: nat, end: nat, o: Outcome, base: seq<Event>,
                       status: Status)
    requires start <= end <= a.Length
    reads parser, a
  {
    && parser.State() == o.st && parser.calls == base + o.events && status == o.status
    && (status.Error? || a[start..end] == o.rest)
  }

  lemma EndsBehind(parser: Parser, a: array<byte>, start: nat, end: nat, o: Outcome, made: seq<Event>,
                   base: seq<Event>, status: Status)
    requires start <= end <= a.Length && Ends(parser, a, start, end, o, base + made, status)
    ensures Ends(parser, a, start, end, Prepend(made, o), base, status)
  {
    assert base + made + o.events == base + (made + o.events);
  }

  // ----- one call

  method ParseFromHeaders(parser: Parser, a: array<byte>, start: nat, end: nat, ghost o: Outcome)
    returns (start': nat, end': nat, status: Status)
    requires start <= end <= a.Length && o == HttpSpec.ParseHeaders(parser.State(), a[start..end], parser.cfg)
    modifies parser, a
    ensures start <= start' <= end' <= end && OnlyWithin(a, start, end)
    ensures Ends(parser, a, start', end', o, old(parser.calls), status)
  {
    var next;
    start', end', next := HttpLoop.ParseHeaders(parser, a, start, end, o);
    ghost var made, rest := parser.calls[|old(parser.calls)|..], a[start'..end'];
    assert parser.calls == old(parser.calls) + made && a[start'..start'] == [];
    ghost var left := Left(parser.State(), [], rest, next, parser.cfg);
    if next == Wait {
      status := Underflow;
      assert [] + rest == rest;
    } else if next == GoOn {
      start', status := ParseContentStart(parser, a, start', end', left);
    } else {
      status := Error(next.failure);
    }
    EndsBehind(parser, a, start', end', left, made, old(parser.calls), status);
  }

  lemma LineFound(st: State, s: seq<byte>, i: nat, line: seq<byte>, rest: seq<byte>, cfg: Config)
    requires st.progress == RequestLine && i == IndexOf(s, LF) < |s| && line == s[..i] && rest == s[i + 1..]
    ensures Parse(st, s, cfg) == AfterLine(st, ReadRequestLine(line, st.msg.client, cfg), rest, cfg)
  {
  }

  method ParseFromRequestLine(parser: Parser, a: array<byte>, start: nat, end: nat, ghost s: seq<byte>,
                              ghost o: Outcome)
    returns (start': nat, end': nat, status: Status)
    requires start <= end <= a.Length && parser.progress == RequestLine
    requires s == a[start..end] && o == Parse(parser.State(), s, parser.cfg)
    modifies parser, a
    ensures start <= start' <= end' <= end && OnlyWithin(a, start, end)
    ensures Ends(parser, a, start', end', o, old(parser.calls), status)
  {
    var lf := Memchr(a, LF, start, end);
    if lf == end {
      return start, end, Underflow;
    }
    SplitSlice(a, start, lf, end);
    LineFound(parser.State(), s, lf - start, a[start..lf], a[lf + 1..end], parser.cfg);
    start', end', status := ParseLine(parser, a, start, lf, end,
                                      ReadRequestLine(a[start..lf], parser.message.client, parser.cfg),
                                       parser.State(), a[lf + 1..end], o);
  }

  method ParseLine(parser: Parser, a: array<byte>, start: nat, lf: nat, end: nat,
                   ghost r: Request, ghost st: State, ghost rest: seq<byte>, ghost o: Outcome)
    returns (start': nat, end': nat, status: Status)
    requires start <= lf < end <= a.Length && st == parser.State() && rest == a[lf + 1..end]
    requires r == ReadRequestLine(a[start..lf], parser.message.client, parser.cfg)
             && o == AfterLine(st, r, rest, parser.cfg)
    modifies parser, a
    ensures start <= start' <= end' <= end && OnlyWithin(a, start, end)
    ensures Ends(parser, a, start', end', o, old(parser.calls), status)
  {
    status := ParseRequestLine(parser, a, start, lf, r);
    start', end', status := ParseBehindLine(parser, a, lf + 1, end, status, r, st, rest, o, old(parser.calls));
  }

  method ParseBehindLine(parser: Parser, a: array<byte>, start: nat, end: nat, lineStatus: Status,
                         ghost r: Request, ghost st: State, ghost rest: seq<byte>, ghost o: Outcome,
                           ghost base: seq<Event>)
    returns (start': nat, end': nat, status: Status)
    requires start <= end <= a.Length && o == AfterLine(st, r, rest, parser.cfg) && rest == a[start..end]
    requires parser.State() == AfterRequestLine(st, r) && parser.calls == base + r.events && lineStatus == r.status
    modifies parser, a
    ensures start <= start' <= end' <= end && OnlyWithin(a, start, end)
    ensures Ends(parser, a, start', end', o, base, status)
  {
    start', end', status := start, end, lineStatus;
    if !status.Error? {
      ghost var left := HttpSpec.ParseHeaders(parser.State(), rest, parser.cfg);
      start', end', status := ParseBehind(parser, a, start, end, left, r.events, base);
    }
  }

  method ParseBehind(parser: Parser, a: array<byte>, start: nat, end: nat, ghost o: Outcome,
                     ghost made: seq<Event>, ghost base: seq<Event>)
    returns (start': nat, end': nat, status: Status)
    requires start <= end <= a.Length && o == HttpSpec.ParseHeaders(parser.State(), a[start..end], parser.cfg)
    requires parser.calls == base + made
    modifies parser, a
    ensures start <= start' <= end' <= end && OnlyWithin(a, start, end)
    ensures Ends(parser, a, start', end', Prepend(made, o), base, status)
  {
    start', end', status := ParseFromHeaders(parser, a, start, end, o);
    EndsBehind(parser, a, start', end', o, made, base, status);
  }

  /** fdu_http_parse_request, on the bytes `a[start..end]`. */
  method ParseRequest(parser: Parser, a: array<byte>, start: nat, end: nat)
    returns (start': nat, end': nat, status: Status)
    requires start <= end <= a.Length
    modifies parser, a
    ensures start <= start' <= end' <= end && OnlyWithin(a, start, end)
    ensures Ends(parser, a, start', end', Parse(old(parser.State()), old(a[start..end]), parser.cfg),
                 old(parser.calls), status)
  {
    ghost var o := Parse(parser.State(), a[start..end], parser.cfg);
    start', end' := start, end;
    match parser.progress
    case RequestLine => start', end', status := ParseFromRequestLine(parser, a, start, end, a[start..end], o);
    case Headers => start', end', status := ParseFromHeaders(parser, a, start, end, o);
    case ContentNotRead => start', status := ParseContentStart(parser, a, start, end, o);
    case ReadingContent => start', status := ParseContent(parser, a, start, end, o);
    case Done => status := Complete;
  }
}
