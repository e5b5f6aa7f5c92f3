/** Requests as they are written: method, url and version in one line (section 5.1 of RFC 2616), a line for
    each header, an empty line, and the content. The parser reads back what is written. */
module HttpPrint {
  import opened Bytes
  import opened HttpSpec
  import opened HttpText
  import opened HttpUnfold

  function Ascii(s: string): (b: seq<byte>)
    requires forall i :: 0 <= i < |s| ==> s[i] < '\U{80}'
    ensures |b| == |s| && forall i :: 0 <= i < |s| ==> b[i] == s[i] as int
  {
    seq(|s|, i requires 0 <= i < |s| => s[i] as int)
  }

  /** The characters that everything is said in terms of, and the white space. */
  lemma Characters(b: byte)
    ensures [SP, HT, CR, LF, COLON] == Ascii(" \t\r\n:") && NUL == 0
    ensures Blank(b) <==> b == ' ' as int || b == '\t' as int
    ensures Space(b) <==> b == ' ' as int || 9 <= b <= 13
  {
  }

  function MethodName(m: Method): seq<byte>
    requires m != NoMethod
  {
    match m
    case Get => Ascii("GET")
    case Head => Ascii("HEAD")
    case Post => Ascii("POST")
  }

  function VersionName(v: Version): seq<byte>
    requires v != NoVersion
  {
    match v
    case Http10 => Ascii("HTTP/1.0")
    case Http11 => Ascii("HTTP/1.1")
  }

  lemma MethodIs(m: Method, word: seq<byte>)
    requires m != NoMethod
    ensures MethodOf(word) == m <==> word == MethodName(m)
    ensures SP !in MethodName(m)
  {
    assert Ascii("GET") == GET && Ascii("HEAD") == HEAD && Ascii("POST") == POST;
  }

  lemma VersionIs(v: Version, word: seq<byte>)
    requires v != NoVersion
    ensures VersionOf(word) == v <==> word == VersionName(v)
    ensures SP !in VersionName(v) && |VersionName(v)| == 8
  {
    assert Ascii("HTTP/1.0") == HTTP_1_0 && Ascii("HTTP/1.1") == HTTP_1_1;
  }

  // ----- the request line

  /** A request line for `m` and `url`, whatever its third word is. */
  ghost predicate Asks(line: seq<byte>, m: Method, url: seq<byte>, third: seq<byte>) {
    m != NoMethod && line == MethodName(m) + [SP] + url + [SP] + third && SP !in url && SP !in third
  }

  lemma {:induction false} LineRead(st: State, line: seq<byte>, eol: seq<byte>, after: seq<byte>, cfg: Config)
    requires st.progress == RequestLine && LF !in line && IsEol(eol, line)
    ensures var r := if |line + eol| <= 6 then Request(NoMethod, NoVersion, st.msg.client, [],
                                                       Error(TooShortRequestLine))
                     else ReadWords(WordsOf(line), st.msg.client, cfg);
            Parse(st, line + (eol + after), cfg) == AfterLine(st, r, after, cfg)
  {
    hide WordsOf, ReadWords, AfterLine, IndexOf;
    var s, i := line + (eol + after), |line| + |eol| - 1;
    assert s[i] == LF && LF !in s[..i] && s[i + 1..] == after;
    IndexOfUnique(s, LF, i);
    assert s[..i] == if eol == [LF] then line else line + [CR];
  }

  lemma {:induction false} FirstEvents(st: State, r: Request, after: seq<byte>, cfg: Config)
    requires !r.status.Error? ==> |r.events| == 2
    ensures var o := AfterLine(st, r, after, cfg);
            r.events <= o.events && (r.status.Error? ==> o.events == r.events)
  {
    hide ParseHeaders;
  }

  lemma {:induction false} WordsRead(line: seq<byte>, client: Client, cfg: Config, m: Method, url: seq<byte>)
    ensures var r := ReadWords(WordsOf(line), client, cfg);
            && |r.events| <= 2 && (!r.status.Error? ==> |r.events| == 2)
            && (r.events != [] && r.events[0] == Url(m, url) <==> exists third :: Asks(line, m, url, third))
  {
    hide WordsOf;
    var w := WordsOf(line);
    if w.Three? {
      ThreeWords(line, w.method_, w.url, w.version);
      if MethodOf(w.method_) != NoMethod {
        MethodIs(MethodOf(w.method_), w.method_);
        assert Asks(line, MethodOf(w.method_), w.url, w.version);
      }
    }
    if third :| Asks(line, m, url, third) {
      MethodIs(m, MethodName(m));
      ThreeWords(line, MethodName(m), url, third);
    }
  }

  /** The first callback of a request is told `m` and `url` if and only if the line is written so, for any
      url and any callbacks. (Lines of up to six bytes, with their end, are too short.) */
  lemma {:induction false} MethodTold(st: State, line: seq<byte>, eol: seq<byte>, after: seq<byte>, cfg: Config,
                                      m: Method, url: seq<byte>)
    requires st.progress == RequestLine && LF !in line && IsEol(eol, line)
    ensures var o := Parse(st, line + (eol + after), cfg);
            (o.events != [] && o.events[0] == Url(m, url)
             <==> |line + eol| > 6 && exists third :: Asks(line, m, url, third))
  {
    hide Parse, ReadWords, WordsOf, AfterLine;
    LineRead(st, line, eol, after, cfg);
    WordsRead(line, st.msg.client, cfg, m, url);
    if |line + eol| > 6 {
      FirstEvents(st, ReadWords(WordsOf(line), st.msg.client, cfg), after, cfg);
    } else {
      FirstEvents(st, Request(NoMethod, NoVersion, st.msg.client, [], Error(TooShortRequestLine)), after, cfg);
    }
  }

  lemma {:induction false} VersionRead(line: seq<byte>, client: Client, cfg: Config, m: Method, url: seq<byte>,
                                       v: Version)
    requires v != NoVersion
    ensures ReadWords(WordsOf(line), client, cfg).events == [Url(m, url), VersionSeen(v)]
            <==> Asks(line, m, url, VersionName(v)) && cfg.accept(client, Url(m, url))
  {
    hide WordsOf;
    var w := WordsOf(line);
    if w.Three? {
      ThreeWords(line, w.method_, w.url, w.version);
      if MethodOf(w.method_) != NoMethod {
        MethodIs(MethodOf(w.method_), w.method_);
        VersionIs(v, w.version);
      }
    }
    if Asks(line, m, url, VersionName(v)) {
      MethodIs(m, MethodName(m));
      VersionIs(v, VersionName(v));
      ThreeWords(line, MethodName(m), url, VersionName(v));
    }
  }

  /** And the second one is told the version if and only if that is the third word, and the first has been
      accepted. */
  lemma {:induction false} VersionTold(st: State, line: seq<byte>, eol: seq<byte>, after: seq<byte>, cfg: Config,
                                       m: Method, url: seq<byte>, v: Version)
    requires st.progress == RequestLine && LF !in line && IsEol(eol, line) && v != NoVersion
    ensures var o := Parse(st, line + (eol + after), cfg);
            (|o.events| >= 2 && o.events[..2] == [Url(m, url), VersionSeen(v)]
             <==> Asks(line, m, url, VersionName(v)) && cfg.accept(st.msg.client, Url(m, url)))
  {
    hide Parse, ReadWords, WordsOf, AfterLine;
    LineRead(st, line, eol, after, cfg);
    WordsRead(line, st.msg.client, cfg, m, url);
    VersionRead(line, st.msg.client, cfg, m, url, v);
    if Asks(line, m, url, VersionName(v)) {
      VersionIs(v, VersionName(v));
    }
    if |line + eol| > 6 {
      FirstEvents(st, ReadWords(WordsOf(line), st.msg.client, cfg), after, cfg);
      TwoFirst(ReadWords(WordsOf(line), st.msg.client, cfg).events, Parse(st, line + (eol + after), cfg).events);
    } else {
      FirstEvents(st, Request(NoMethod, NoVersion, st.msg.client, [], Error(TooShortRequestLine)), after, cfg);
    }
  }

  lemma TwoFirst(a: seq<Event>, b: seq<Event>)
    requires a <= b && |a| <= 2 && (|a| < 2 ==> a == b)
    ensures |b| >= 2 ==> b[..2] == a
  {
  }

  /** What a request line leaves: method and version as written, the connection to be closed just for version
      1.0, nothing else changed. Then come the headers. */
  function Begun(st: State, m: Method, url: seq<byte>, v: Version, cfg: Config): State {
    var client := cfg.remember(cfg.remember(st.msg.client, Url(m, url)), VersionSeen(v));
    State(Headers, st.loaded, Message(m, v, v == Http10, st.msg.contentLength, st.msg.contentType, client))
  }

  lemma {:induction false} LineDone(st: State, line: seq<byte>, eol: seq<byte>, after: seq<byte>, cfg: Config,
                                    m: Method, url: seq<byte>, v: Version)
    requires st.progress == RequestLine && LF !in line && IsEol(eol, line)
    requires v != NoVersion && Asks(line, m, url, VersionName(v)) && cfg.accept(st.msg.client, Url(m, url))
    requires cfg.accept(cfg.remember(st.msg.client, Url(m, url)), VersionSeen(v))
    ensures Parse(st, line + (eol + after), cfg)
            == Prepend([Url(m, url), VersionSeen(v)], ParseHeaders(Begun(st, m, url, v, cfg), after, cfg))
  {
    hide Parse, WordsOf, ParseHeaders;
    LineRead(st, line, eol, after, cfg);
    MethodIs(m, MethodName(m));
    VersionIs(v, VersionName(v));
    ThreeWords(line, MethodName(m), url, VersionName(v));
  }

  /** Which request lines are refused, and why. */
  lemma {:induction false} LineRefused(st: State, line: seq<byte>, eol: seq<byte>, after: seq<byte>, cfg: Config)
    requires st.progress == RequestLine && LF !in line && IsEol(eol, line)
    ensures var o := Parse(st, line + (eol + after), cfg);
            && (|line + eol| <= 6 ==> o.status == Error(TooShortRequestLine))
            && (|line + eol| > 6 && (forall a, b, c :: !AreWords(line, a, b, c))
                ==> o.status == Error(CorruptedRequestLine))
            && forall a, b, c :: |line + eol| > 6 && AreWords(line, a, b, c) ==>
                 WordsRefused(o, st.msg.client, a, b, c, cfg)
  {
    hide Parse, WordsOf, ParseHeaders;
    LineRead(st, line, eol, after, cfg);
    var o, w := Parse(st, line + (eol + after), cfg), WordsOf(line);
    if w.Three? {
      ThreeWords(line, w.method_, w.url, w.version);
      assert AreWords(line, w.method_, w.url, w.version);
    }
    if |line + eol| > 6 {
      forall a, b, c | AreWords(line, a, b, c) ensures WordsRefused(o, st.msg.client, a, b, c, cfg) {
        ThreeWords(line, a, b, c);
        RefusedFor(st, o, after, a, b, c, cfg);
      }
    }
  }

  ghost predicate AreWords(line: seq<byte>, a: seq<byte>, b: seq<byte>, c: seq<byte>) {
    line == a + [SP] + b + [SP] + c && SP !in a && SP !in b && SP !in c
  }

  /** What becomes of a line of three words, short of success. */
  ghost predicate WordsRefused(o: Outcome, client: Client, a: seq<byte>, b: seq<byte>, c: seq<byte>, cfg: Config) {
    && ((forall m :: m != NoMethod ==> a != MethodName(m)) ==> o.status == Error(MethodNotImplemented)
                                                               && o.events == [])
    && (forall m :: m != NoMethod && a == MethodName(m) ==>
          && (!cfg.accept(client, Url(m, b)) ==> o.status == Error(Refused) && o.events == [Url(m, b)])
          && (cfg.accept(client, Url(m, b)) && |c| != 8 ==> o.status == Error(CorruptedVersion)
                                                            && o.events == [Url(m, b)])
          && (cfg.accept(client, Url(m, b)) && |c| == 8 && (forall v :: v != NoVersion ==> c != VersionName(v)) ==>
                o.status == Error(VersionNotSupported) && o.events == [Url(m, b)]))
  }

  lemma {:induction false} RefusedFor(st: State, o: Outcome, after: seq<byte>, a: seq<byte>, b: seq<byte>, c: seq<byte>,
                                      cfg: Config)
    requires o == AfterLine(st, ReadWords(Three(a, b, c), st.msg.client, cfg), after, cfg)
    ensures WordsRefused(o, st.msg.client, a, b, c, cfg)
  {
    hide ParseHeaders, MethodOf, VersionOf, MethodName, VersionName;
    WordsAre(a, c);
    var m, v := MethodOf(a), VersionOf(c);
    if m != NoMethod {
      assert a == MethodName(m);
      forall m' | m' != NoMethod && a == MethodName(m') ensures m' == m {
      }
    }
    if v != NoVersion {
      assert c == VersionName(v);
    }
  }

  lemma WordsAre(a: seq<byte>, c: seq<byte>)
    ensures forall m :: m != NoMethod ==> (MethodOf(a) == m <==> a == MethodName(m))
    ensures forall v :: v != NoVersion ==> (VersionOf(c) == v <==> c == VersionName(v))
  {
    forall m | m != NoMethod ensures MethodOf(a) == m <==> a == MethodName(m) {
      MethodIs(m, a);
    }
    forall v | v != NoVersion ensures VersionOf(c) == v <==> c == VersionName(v) {
      VersionIs(v, c);
    }
  }
}
