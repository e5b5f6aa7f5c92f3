/** What http.c does with a request, as a function of the bytes it is given: the request line
    (section 5.1 of RFC 2616), folded header lines (section 3.2.4 of RFC 7230), the content. */
module HttpSpec {
  import opened Bytes
  import opened HttpText

  const MAX_CONTENT_LENGTH: nat := 64 * 1024
  const CONTENT_TYPE_SIZE: nat := 64
  const TMP_BUFFER_SIZE: nat := 20

  const GET: seq<byte> := [71, 69, 84]
  const HEAD: seq<byte> := [72, 69, 65, 68]
  const POST: seq<byte> := [80, 79, 83, 84]
  const HTTP_1_0: seq<byte> := [72, 84, 84, 80, 47, 49, 46, 48]
  const HTTP_1_1: seq<byte> := [72, 84, 84, 80, 47, 49, 46, 49]
  const CONNECTION: seq<byte> := [99, 111, 110, 110, 101, 99, 116, 105, 111, 110]
  const KEEP_ALIVE: seq<byte> := [107, 101, 101, 112, 45, 97, 108, 105, 118, 101]
  const CLOSE: seq<byte> := [99, 108, 111, 115, 101]
  const CONTENT_LENGTH: seq<byte> := [99, 111, 110, 116, 101, 110, 116, 45, 108, 101, 110, 103, 116, 104]
  const CONTENT_TYPE: seq<byte> := [99, 111, 110, 116, 101, 110, 116, 45, 116, 121, 112, 101]

  datatype Progress = RequestLine | Headers | ContentNotRead | ReadingContent | Done
  datatype Method = NoMethod | Get | Head | Post
  datatype Version = NoVersion | Http10 | Http11

  /** What the user's callbacks remember, in whatever way. */
  type Client = nat

  /** The memory where the content type is put. */
  type TypeBuffer = s: seq<byte> | |s| == CONTENT_TYPE_SIZE witness seq(CONTENT_TYPE_SIZE, _ => NUL)

  datatype Message = Message(method_: Method, version: Version, closing: bool,
                             contentLength: nat, contentType: TypeBuffer, client: Client)
  datatype State = State(progress: Progress, loaded: nat, msg: Message)

  /** The calls to http_ops. */
  datatype Event =
    | Url(method_: Method, url: seq<byte>)
    | VersionSeen(version: Version)
    | Header(name: seq<byte>, value: seq<byte>)
    | Content(bytes: seq<byte>)

  datatype Failure =
    | TooShortRequestLine | CorruptedRequestLine | MethodNotImplemented
    | CorruptedVersion | VersionNotSupported
    | CorruptedHeader | CorruptedContentLength | TooLongContent
    | Refused                     // by a callback

  datatype Status = Complete | Underflow | Error(failure: Failure)

  /** What a call does: the new state, the bytes it leaves, the callbacks it makes, its result. */
  datatype Outcome = Outcome(st: State, rest: seq<byte>, events: seq<Event>, status: Status)

  /** How the Content-length header is checked for digits. The code tests the byte behind the
      value, which it has just overwritten with NUL; the loop is meant to test each byte. */
  datatype DigitTest = AsWritten | EachByte

  /** http_ops: which calls are accepted, and what is remembered of them; and the digit test. A callback
      left out accepts. */
  datatype Config = Config(accept: (Client, Event) -> bool, remember: (Client, Event) -> Client, digits: DigitTest)

  /** Before the request line of a message. Of what was before there is left what the client remembers,
      and all of the content type but its first byte. */
  function Start(client: Client, memory: TypeBuffer): State {
    State(RequestLine, 0, Message(NoMethod, NoVersion, true, 0, memory[0 := NUL], client))
  }

  function StripCR(line: seq<byte>): seq<byte> {
    if line != [] && line[|line| - 1] == CR then line[..|line| - 1] else line
  }

  // ----- the request line

  function MethodOf(word: seq<byte>): Method {
    if word == GET then Get else if word == HEAD then Head else if word == POST then Post else NoMethod
  }

  function VersionOf(word: seq<byte>): Version {
    if word == HTTP_1_0 then Http10 else if word == HTTP_1_1 then Http11 else NoVersion
  }

  datatype Words = NotThree | Three(method_: seq<byte>, url: seq<byte>, version: seq<byte>)

  /** A request line without its end-of-line, cut at its two spaces. */
  function WordsOf(line: seq<byte>): Words {
    var i := IndexOf(line, SP);
    if i == |line| then NotThree else WordsBehind(line[..i], line[i + 1..])
  }

  function WordsBehind(first: seq<byte>, rest: seq<byte>): Words {
    var j := IndexOf(rest, SP);
    if j == |rest| || SP in rest[j + 1..] then NotThree else Three(first, rest[..j], rest[j + 1..])
  }

  /** Exactly the lines of three words with single spaces between them are cut, into these words. */
  lemma ThreeWords(line: seq<byte>, a: seq<byte>, b: seq<byte>, c: seq<byte>)
    ensures WordsOf(line) == Three(a, b, c)
            <==> line == a + [SP] + b + [SP] + c && SP !in a && SP !in b && SP !in c
  {
    var i := IndexOf(line, SP);
    if WordsOf(line) == Three(a, b, c) {
      CutAt(line, SP);
      CutAt(line[i + 1..], SP);
      Regroup(a, b, c);
    }
    if line == a + [SP] + b + [SP] + c && SP !in a && SP !in b && SP !in c {
      var rest := b + [SP] + c;
      Regroup(a, b, c);
      Cuts(line, a, rest);
      Cuts(rest, b, c);
    }
  }

  lemma Cuts(line: seq<byte>, a: seq<byte>, rest: seq<byte>)
    requires line == a + [SP] + rest && SP !in a
    ensures IndexOf(line, SP) == |a| < |line| && line[..|a|] == a && line[|a| + 1..] == rest
  {
    assert line[..|a|] == a;
    IndexOfUnique(line, SP, |a|);
  }

  lemma Regroup(a: seq<byte>, b: seq<byte>, c: seq<byte>)
    ensures a + [SP] + (b + [SP] + c) == a + [SP] + b + [SP] + c
  {
  }

  /** What a request line says, and what comes of reading it; method and version are missing if the
      reading ends before them. */
  datatype Request = Request(method_: Method, version: Version, client: Client, events: seq<Event>, status: Status)

  /** The request line, without its newline. */
  function ReadRequestLine(raw: seq<byte>, client: Client, cfg: Config): Request {
    if |raw| < 6 then Request(NoMethod, NoVersion, client, [], Error(TooShortRequestLine))
    else ReadWords(WordsOf(StripCR(raw)), client, cfg)
  }

  function ReadWords(words: Words, client: Client, cfg: Config): Request {
    if words == NotThree then Request(NoMethod, NoVersion, client, [], Error(CorruptedRequestLine))
    else if MethodOf(words.method_) == NoMethod then
      Request(NoMethod, NoVersion, client, [], Error(MethodNotImplemented))
    else
      var m, url := MethodOf(words.method_), Url(MethodOf(words.method_), words.url);
      var client' := cfg.remember(client, url);
      if !cfg.accept(client, url) then Request(m, NoVersion, client', [url], Error(Refused))
      else ReadVersion(m, words.version, client', url, cfg)
  }

  function ReadVersion(m: Method, word: seq<byte>, client: Client, url: Event, cfg: Config): Request {
    var v, seen := VersionOf(word), VersionSeen(VersionOf(word));
    if |word| != 8 then Request(m, NoVersion, client, [url], Error(CorruptedVersion))
    else if v == NoVersion then Request(m, NoVersion, client, [url], Error(VersionNotSupported))
    else
      var status := if cfg.accept(client, seen) then Underflow else Error(Refused);
      Request(m, v, cfg.remember(client, seen), [url, seen], status)
  }

  function AfterRequestLine(st: State, r: Request): State {
    var msg := st.msg.(method_ := if r.method_ == NoMethod then st.msg.method_ else r.method_,
                       version := if r.version == NoVersion then st.msg.version else r.version,
                       client := r.client);
    if r.status.Error? then st.(msg := msg)
    else st.(progress := Headers, msg := msg.(closing := r.version == Http10))
  }

  // ----- header lines

  datatype Line =
    | Incomplete(rest: seq<byte>)                     // more bytes are needed; what is left to read
    | EmptyLine(rest: seq<byte>)                      // the end of the headers
    | FullLine(line: seq<byte>, rest: seq<byte>)      // one header, unfolded

  function SkipBlanks(s: seq<byte>): (t: seq<byte>)
    ensures |t| <= |s| && (t != [] ==> !Blank(t[0]))
    ensures s != [] && Blank(s[0]) ==> |t| < |s|
  {
    if s != [] && Blank(s[0]) then SkipBlanks(s[1..]) else s
  }

  /** The next header line. `p` is what is unfolded of it already. */
  function NextLine(p: seq<byte>, s: seq<byte>): (r: Line)
    ensures r.EmptyLine? || r.FullLine? ==> |r.rest| < |s|
    ensures r.Incomplete? ==> |r.rest| <= |p| + |s|
    decreases |s|, 0
  {
    var i := IndexOf(s, LF);
    if i == |s| then Incomplete(p + s) else EndOfLine(StripCR(p + s[..i]), s[i + 1..], p + s)
  }

  /** At a newline, with `after` behind it. A line that is followed by one that starts with blanks
      goes on there, the end of line and the blanks standing for one space. */
  function EndOfLine(line: seq<byte>, after: seq<byte>, unread: seq<byte>): (r: Line)
    ensures r.EmptyLine? || r.FullLine? ==> |r.rest| <= |after|
    ensures r.Incomplete? ==> r.rest == unread || |r.rest| <= |line| + |after|
    decreases |after|, 1
  {
    if line == [] then EmptyLine(after)
    else if after == [] then Incomplete(unread)
    else if Blank(after[0]) then NextLine(line + [SP], SkipBlanks(after))
    else FullLine(line, after)
  }

  lemma {:induction false} NextLineAt(p: seq<byte>, s: seq<byte>, line: seq<byte>, after: seq<byte>, unread: seq<byte>)
    requires LF in s && line == StripCR(p + s[..IndexOf(s, LF)]) && after == s[IndexOf(s, LF) + 1..] && unread == p + s
    ensures NextLine(p, s) == EndOfLine(line, after, unread)
  {
  }

  lemma {:induction false} NextLineNone(p: seq<byte>, s: seq<byte>)
    requires LF !in s
    ensures NextLine(p, s) == Incomplete(p + s)
  {
  }

  predicate IsDigit(b: byte) {
    48 <= b <= 57
  }

  predicate AllDigits(s: seq<byte>) {
    forall i :: 0 <= i < |s| ==> IsDigit(s[i])
  }

  function Decimal(s: seq<byte>): nat
    requires AllDigits(s)
  {
    if s == [] then 0 else Decimal(s[..|s| - 1]) * 10 + (s[|s| - 1] - 48)
  }

  predicate LengthAccepted(value: seq<byte>, digits: DigitTest) {
    0 < |value| < TMP_BUFFER_SIZE && digits == EachByte && AllDigits(value)
  }

  /** The headers that mean something to the parser. */
  datatype Known = Connection | ContentLength | ContentType | Unknown

  function KnownName(name: seq<byte>): Known {
    var s := CString(name);
    if s == CONNECTION then Connection
    else if s == CONTENT_LENGTH then ContentLength
    else if s == CONTENT_TYPE then ContentType
    else Unknown
  }

  /** What a header does to the message; nothing for most. */
  function Noted(msg: Message, known: Known, value: seq<byte>): Message {
    match known
    case Connection => Persistence(msg, value)
    case ContentLength =>
      if AllDigits(value) then msg.(contentLength := Decimal(value) % 0x1_0000_0000) else msg
    case ContentType => msg.(contentType := Overwrite(msg.contentType, value))
    case Unknown => msg
  }

  function Persistence(msg: Message, value: seq<byte>): Message {
    if msg.version == Http10 && CString(value) == KEEP_ALIVE then msg.(closing := false)
    else if msg.version == Http11 && CString(value) == CLOSE then msg.(closing := true)
    else msg
  }

  /** The first 63 bytes of the value, over what was there before; no NUL is put behind it. */
  function Overwrite(memory: TypeBuffer, value: seq<byte>): TypeBuffer {
    value[..Copied(value)] + memory[Copied(value)..]
  }

  /** How many bytes of a content type are kept. */
  function Copied(value: seq<byte>): nat {
    if |value| >= CONTENT_TYPE_SIZE then CONTENT_TYPE_SIZE - 1 else |value|
  }

  /** A header as it is read: what the message becomes, the callbacks made, and the result. */
  datatype Read = Read(msg: Message, events: seq<Event>, status: Status)

  /** fdu_http_parse_header. */
  function ParseHeader(msg: Message, line: seq<byte>, cfg: Config): Read {
    var i := IndexOf(line, COLON);
    if i == |line| then Read(msg, [], Error(CorruptedHeader))
    else HeaderParts(msg, Strip(line[..i]), Strip(line[i + 1..]), cfg)
  }

  /** A header, with the white space around its name and its value gone. */
  function HeaderParts(msg: Message, rawName: seq<byte>, text: seq<byte>, cfg: Config): Read {
    if rawName == [] then Read(msg, [], Error(CorruptedHeader)) else HeaderNamed(msg, Lower(rawName), text, cfg)
  }

  function HeaderNamed(msg: Message, name: seq<byte>, text: seq<byte>, cfg: Config): Read {
    var known := KnownName(name);
    if known == ContentLength && !LengthAccepted(text, cfg.digits) then Read(msg, [], Error(CorruptedContentLength))
    else
      var value := Told(known, text);
      var header := Header(CString(name), CString(value));
      Read(Noted(msg, known, value).(client := cfg.remember(msg.client, header)), [header],
           if cfg.accept(msg.client, header) then Underflow else Error(Refused))
  }

  /** The value that the header callback is told. */
  function Told(known: Known, text: seq<byte>): seq<byte> {
    if known == Connection then Lower(text) else text
  }

  function Prepend(events: seq<Event>, o: Outcome): Outcome {
    o.(events := events + o.events)
  }

  function ParseHeaders(st: State, s: seq<byte>, cfg: Config): Outcome
    decreases |s|, 0
  {
    match NextLine([], s)
    case Incomplete(rest) => Outcome(st, rest, [], Underflow)
    case EmptyLine(rest) => ParseContentStart(st.(progress := ContentNotRead), rest, cfg)
    case FullLine(line, rest) => AfterHeader(st, ParseHeader(st.msg, line, cfg), rest, cfg)
  }

  function AfterHeader(st: State, r: Read, rest: seq<byte>, cfg: Config): Outcome
    decreases |rest|, 1
  {
    if r.status.Error? then Outcome(st.(msg := r.msg), [], r.events, r.status)
    else Prepend(r.events, ParseHeaders(st.(msg := r.msg), rest, cfg))
  }

  // ----- the content

  function ParseContentStart(st: State, s: seq<byte>, cfg: Config): Outcome {
    if st.msg.contentLength == 0 then Outcome(st.(progress := Done), s, [], Underflow)
    else if st.msg.contentLength > MAX_CONTENT_LENGTH then Outcome(st, [], [], Error(TooLongContent))
    else if |s| < st.msg.contentLength then Outcome(st, s, [], Underflow)
    else ParseContent(st.(progress := ReadingContent), s, cfg)
  }

  function ParseContent(st: State, s: seq<byte>, cfg: Config): Outcome {
    var missing := (st.msg.contentLength - st.loaded) % 0x1_0000_0000;
    var n := if missing > |s| then |s| else missing;
    var content := Content(s[..n]);
    var msg := st.msg.(client := cfg.remember(st.msg.client, content));
    if !cfg.accept(st.msg.client, content) then Outcome(st.(msg := msg), [], [content], Error(Refused))
    else
      var loaded := st.loaded + n;
      if loaded == msg.contentLength then Outcome(State(Done, loaded, msg), s[n..], [content], Complete)
      else Outcome(State(st.progress, loaded, msg), s[n..], [content], Underflow)
  }

  function AfterLine(st: State, r: Request, rest: seq<byte>, cfg: Config): Outcome {
    var st' := AfterRequestLine(st, r);
    if r.status.Error? then Outcome(st', [], r.events, r.status)
    else Prepend(r.events, ParseHeaders(st', rest, cfg))
  }

  /** fdu_http_parse_request. After an error, the bytes left are of no more use. */
  function Parse(st: State, s: seq<byte>, cfg: Config): Outcome {
    match st.progress
    case RequestLine =>
      var i := IndexOf(s, LF);
      if i == |s| then Outcome(st, s, [], Underflow)
      else AfterLine(st, ReadRequestLine(s[..i], st.msg.client, cfg), s[i + 1..], cfg)
    case Headers => ParseHeaders(st, s, cfg)
    case ContentNotRead => ParseContentStart(st, s, cfg)
    case ReadingContent => ParseContent(st, s, cfg)
    case Done => Outcome(st, s, [], Complete)
  }
}
